/** process_tcontrollog.sortfiledata: the bounded-buffer sort, the file of misordered records and the merge pass. */
module LogSorter {
  import opened Wrappers
  import opened RecordOrder

  /** The two output streams of the first pass. */
  datatype Streams = Streams(out: seq<Record>, misordered: seq<Record>)

  /** One record leaves the buffer: it is misordered when a greater key has been written already. */
  function Save(s: Streams, r: Record): Streams {
    if s.out != [] && Less(r.key, s.out[|s.out| - 1].key) then s.(misordered := s.misordered + [r])
    else s.(out := s.out + [r])
  }

  function SaveAll(s: Streams, records: seq<Record>): Streams {
    if records == [] then s else Save(SaveAll(s, records[..|records| - 1]), records[|records| - 1])
  }

  /** The loop that saves the first records of the buffer and deletes them from it. */
  method SaveFirst(s: Streams, records: seq<Record>, count: nat) returns (r: Streams, rest: seq<Record>)
    requires count <= |records|
    ensures r == SaveAll(s, records[..count]) && rest == records[count..]
  {
    r, rest := s, records;
    var lastSavedKey := if s.out != [] then Some(s.out[|s.out| - 1].key) else None;
    for i := 0 to count
      invariant rest == records[i..] && r == SaveAll(s, records[..i])
      invariant lastSavedKey == if r.out != [] then Some(r.out[|r.out| - 1].key) else None
    {
      assert records[..i + 1][..i] == records[..i];
      if lastSavedKey.Some? && Less(rest[0].key, lastSavedKey.value) {
        r := r.(misordered := r.misordered + [rest[0]]);
      } else {
        r := r.(out := r.out + [rest[0]]);
        lastSavedKey := Some(rest[0].key);
      }
      rest := rest[1..];
    }
  }

  // ----- What every step of the first pass keeps -----

  ghost predicate PassInvariant(done: seq<Record>, s: Streams, records: seq<Record>) {
    && Sorted(s.out)
    && (forall m :: m in s.misordered ==> s.out != [] && Less(m.key, s.out[|s.out| - 1].key))
    && (forall k :: WithKey(s.out, k) + WithKey(s.misordered, k) + WithKey(records, k) == WithKey(done, k))
  }

  /** Nothing with the key of a record that is still in order has been sent to the misordered file. */
  lemma NoneMisordered(done: seq<Record>, s: Streams, records: seq<Record>, k: Key)
    requires PassInvariant(done, s, records)
    requires s.out != [] ==> LessEq(s.out[|s.out| - 1].key, k)
    ensures WithKey(s.misordered, k) == []
  {
    forall m | m in s.misordered ensures m.key != k {
      LessEqTotal(m.key, k);
      LessThenLessEq(m.key, s.out[|s.out| - 1].key, k);
    }
    WithKeyNone(s.misordered, k);
  }

  lemma Regroup(out: seq<Record>, misordered: seq<Record>, r: seq<Record>, rest: seq<Record>)
    ensures out + misordered + (r + rest) == out + (misordered + r) + rest
    ensures misordered == [] || r == [] ==> out + misordered + (r + rest) == (out + r) + misordered + rest
  {
  }

  lemma SaveKeepsKey(done: seq<Record>, s: Streams, r: Record, rest: seq<Record>, k: Key)
    requires PassInvariant(done, s, [r] + rest)
    ensures WithKey(Save(s, r).out, k) + WithKey(Save(s, r).misordered, k) + WithKey(rest, k) == WithKey(done, k)
  {
    assert WithKey(s.out, k) + WithKey(s.misordered, k) + WithKey([r] + rest, k) == WithKey(done, k);
    WithKeyConcat([r], rest, k);
    Regroup(WithKey(s.out, k), WithKey(s.misordered, k), WithKey([r], k), WithKey(rest, k));
    if Save(s, r).out == s.out {
      WithKeyConcat(s.misordered, [r], k);
    } else {
      WithKeyConcat(s.out, [r], k);
      if r.key == k {
        NoneMisordered(done, s, [r] + rest, k);
      } else {
        WithKeyOne(r, k);
      }
    }
  }

  lemma SaveKeeps(done: seq<Record>, s: Streams, r: Record, rest: seq<Record>)
    requires PassInvariant(done, s, [r] + rest)
    ensures PassInvariant(done, Save(s, r), rest)
  {
    var s' := Save(s, r);
    forall k ensures WithKey(s'.out, k) + WithKey(s'.misordered, k) + WithKey(rest, k) == WithKey(done, k) {
      SaveKeepsKey(done, s, r, rest, k);
    }
    if s'.out != s.out {
      SortedAppend(s.out, r);
      forall m | m in s.misordered ensures Less(m.key, r.key) {
        LessThenLessEq(m.key, s.out[|s.out| - 1].key, r.key);
      }
    }
  }

  lemma {:induction false} SaveAllKeeps(done: seq<Record>, s: Streams, records: seq<Record>, rest: seq<Record>)
    requires PassInvariant(done, s, records + rest)
    ensures PassInvariant(done, SaveAll(s, records), rest)
    decreases |records|
  {
    if records == [] {
      assert records + rest == rest;
    } else {
      var front, last := records[..|records| - 1], records[|records| - 1];
      assert records + rest == front + ([last] + rest);
      SaveAllKeeps(done, s, front, [last] + rest);
      SaveKeeps(done, SaveAll(s, front), last, rest);
    }
  }

  lemma ReadKeeps(done: seq<Record>, s: Streams, records: seq<Record>, r: Record)
    requires PassInvariant(done, s, records)
    ensures PassInvariant(done + [r], s, records + [r])
  {
    forall k ensures WithKey(s.out, k) + WithKey(s.misordered, k) + WithKey(records + [r], k) ==
      WithKey(done + [r], k) {
      WithKeyConcat(records, [r], k);
      WithKeyConcat(done, [r], k);
    }
  }

  lemma SortKeeps(done: seq<Record>, s: Streams, records: seq<Record>)
    requires PassInvariant(done, s, records)
    ensures PassInvariant(done, s, SortByKey(records))
  {
    SortFacts(records);
  }

  // ----- How far out of order the input may be -----

  /** Any two records at least `distance` apart are in key order. */
  ghost predicate OrderedAtDistance(input: seq<Record>, distance: int) {
    forall i, j :: 0 <= i < j < |input| && j - i >= distance ==> LessEq(input[i].key, input[j].key)
  }

  /** Everything written is at most everything still to be written. */
  ghost predicate Ahead(out: seq<Record>, later: seq<Record>) {
    forall x, y :: x in out && y in later ==> LessEq(x.key, y.key)
  }

  lemma SmallerMultiset(a: multiset<Record>, b: multiset<Record>)
    requires a <= b
    ensures |a| <= |b|
  {
    assert b == a + (b - a);
  }

  /** In a sorted list at most `t` members stay below a bound that its entry `t` exceeds. */
  lemma CountBelow(s: seq<Record>, t: nat, far: multiset<Record>, bound: Key)
    requires Sorted(s) && t < |s| && far <= multiset(s) && Less(bound, s[t].key)
    requires forall x :: x in far ==> LessEq(x.key, bound)
    ensures |far| <= t
  {
    forall i | t <= i < |s| ensures s[i] !in far {
      LessEqTotal(s[t].key, s[i].key);
      LessThenLessEq(bound, s[t].key, s[i].key);
    }
    assert s == s[..t] + s[t..];
    forall x ensures far[x] <= multiset(s[..t])[x] {
      if x in far {
        assert x !in s[t..];
        assert x !in multiset(s[t..]);
      }
    }
    SmallerMultiset(far, multiset(s[..t]));
  }

  /**
   * Of a full buffer of B records, all read before position j, the W smallest do not exceed record j:
   * at most B - W of them are close enough to it to be greater.
   */
  lemma FlushBound(input: seq<Record>, n: nat, j: nat, s: seq<Record>, t: nat, b: nat, w: nat)
    requires 1 <= w <= b && n <= j < |input| && OrderedAtDistance(input, b - w + 1)
    requires |s| == b && Sorted(s) && multiset(s) <= multiset(input[..n]) && t < w
    ensures LessEq(s[t].key, input[j].key)
  {
    SmallerMultiset(multiset(s), multiset(input[..n]));
    var c := if j - (b - w) <= n then j - (b - w) else n;
    assert input[..n] == input[..c] + input[c..n];
    var near := multiset(input[c..n]);
    var far := multiset(s) - near;
    SmallerMultiset(multiset(s), far + near);
    forall x | x in far ensures LessEq(x.key, input[j].key) {
      assert x in multiset(input[..c]);
      assert x in input[..c];
      var i :| 0 <= i < c && input[i] == x;
    }
    if !LessEq(s[t].key, input[j].key) {
      CountBelow(s, t, far, input[j].key);
    }
  }

  /** A sorted run that continues the output goes out whole. */
  lemma {:induction false} SaveAllInOrder(s: Streams, records: seq<Record>)
    requires Sorted(records) && Ahead(s.out, records)
    ensures SaveAll(s, records) == s.(out := s.out + records)
    decreases |records|
  {
    if records == [] {
      assert s.out + records == s.out;
    } else {
      var front, last := records[..|records| - 1], records[|records| - 1];
      SortedAheadFront(s.out, records);
      SaveAllInOrder(s, front);
      assert s.out + records == s.out + front + [last];
    }
  }

  lemma SortedAheadFront(out: seq<Record>, records: seq<Record>)
    requires records != [] && Sorted(records) && Ahead(out, records)
    ensures Sorted(records[..|records| - 1]) && Ahead(out, records[..|records| - 1])
    ensures var before := out + records[..|records| - 1];
            before != [] ==> LessEq(before[|before| - 1].key, records[|records| - 1].key)
  {
    hide LessEq;
    var front, last := records[..|records| - 1], records[|records| - 1];
    assert forall x :: x in front ==> x in records;
    assert last in records;
    if front == [] && out != [] {
      assert out[|out| - 1] in out;
      assert out + front == out;
    }
  }

  /** A flush keeps the output ahead of the buffer and of all records still to be read. */
  lemma FlushAhead(input: seq<Record>, n: nat, out: seq<Record>, s: seq<Record>, b: nat, w: nat)
    requires 1 <= w <= b && n <= |input| && OrderedAtDistance(input, b - w + 1)
    requires |s| == b && Sorted(s) && multiset(s) <= multiset(input[..n])
    requires Ahead(out, s) && Ahead(out, input[n..])
    ensures Ahead(out + s[..w], s[w..]) && Ahead(out + s[..w], input[n..])
  {
    forall x, y | x in s[..w] && y in s[w..] ensures LessEq(x.key, y.key) {
      var i :| 0 <= i < w && s[i] == x;
      var k :| 0 <= k < |s[w..]| && s[w..][k] == y;
      assert y == s[w + k];
    }
    assert forall y :: y in s[w..] ==> y in s;
    forall x, y | x in s[..w] && y in input[n..] ensures LessEq(x.key, y.key) {
      var i :| 0 <= i < w && s[i] == x;
      var k :| 0 <= k < |input[n..]| && input[n..][k] == y;
      FlushBound(input, n, n + k, s, i, b, w);
    }
  }

  /** What is in the buffer has been read. */
  lemma BufferWasRead(done: seq<Record>, s: Streams, records: seq<Record>)
    requires PassInvariant(done, s, records)
    ensures multiset(records) <= multiset(done)
  {
    forall x ensures multiset(records)[x] <= multiset(done)[x] {
      WithKeyCount(records, x);
      WithKeyCount(done, x);
      var k := x.key;
      assert multiset(WithKey(s.out, k) + WithKey(s.misordered, k) + WithKey(records, k)) ==
             multiset(WithKey(s.out, k)) + multiset(WithKey(s.misordered, k)) + multiset(WithKey(records, k));
    }
  }

  /** Flushing the first records of the sorted buffer keeps the invariant, and all of them go out when the output is
      not ahead of them. */
  lemma FlushKeeps(done: seq<Record>, s: Streams, records: seq<Record>, count: nat)
    requires count <= |records| && PassInvariant(done, s, records)
    ensures |SortByKey(records)| == |records|
    ensures PassInvariant(done, SaveAll(s, SortByKey(records)[..count]), SortByKey(records)[count..])
    ensures Ahead(s.out, records) ==>
              SaveAll(s, SortByKey(records)[..count]) == s.(out := s.out + SortByKey(records)[..count])
  {
    SortKeeps(done, s, records);
    SortFacts(records);
    hide SortByKey, PassInvariant, SaveAll, Ahead, WithKey, StablePermutation;
    var sorted := SortByKey(records);
    var first := sorted[..count];
    assert sorted == first + sorted[count..];
    SaveAllKeeps(done, s, first, sorted[count..]);
    if Ahead(s.out, records) {
      SortedAhead(done, s, records, count);
    }
  }

  lemma SortedAhead(done: seq<Record>, s: Streams, records: seq<Record>, count: nat)
    requires PassInvariant(done, s, records) && Ahead(s.out, records) && count <= |SortByKey(records)|
    ensures SaveAll(s, SortByKey(records)[..count]) == s.(out := s.out + SortByKey(records)[..count])
  {
    SortFacts(records);
    StableIsPermutation(SortByKey(records), records);
    hide SortByKey, SaveAll, WithKey, StablePermutation;
    var first := SortByKey(records)[..count];
    forall y | y in first ensures y in records {
      assert y in multiset(SortByKey(records));
    }
    SaveAllInOrder(s, first);
  }

  lemma ReadAhead(input: seq<Record>, n: nat, out: seq<Record>, records: seq<Record>)
    requires n < |input| && Ahead(out, records) && Ahead(out, input[n..])
    ensures Ahead(out, records + [input[n]]) && Ahead(out, input[n + 1..])
  {
    assert input[n] in input[n..];
    assert forall y :: y in input[n + 1..] ==> y in input[n..];
  }

  /** The W smallest of a full buffer are written ahead of everything left. */
  lemma FullBufferAhead(input: seq<Record>, n: nat, s: Streams, records: seq<Record>, b: nat, w: nat)
    requires 1 <= w <= b == |records| && n <= |input| && OrderedAtDistance(input, b - w + 1)
    requires PassInvariant(input[..n], s, records) && Ahead(s.out, records) && Ahead(s.out, input[n..])
    ensures |SortByKey(records)| == b
    ensures Ahead(s.out + SortByKey(records)[..w], SortByKey(records)[w..])
    ensures Ahead(s.out + SortByKey(records)[..w], input[n..])
  {
    SortFacts(records);
    BufferWasRead(input[..n], s, records);
    forall y | y in SortByKey(records) ensures y in records {
      assert y in multiset(SortByKey(records));
    }
    FlushAhead(input, n, s.out, SortByKey(records), b, w);
  }

  // ----- The first pass -----

  /** The streams and the buffer. */
  datatype Pass = Pass(streams: Streams, records: seq<Record>)

  /** One record is read; a full buffer is sorted and its first records are written. */
  function ReadOne(p: Pass, r: Record, buffersize: nat, writebatchsize: nat): Pass
    requires 1 <= writebatchsize <= buffersize
  {
    var records := p.records + [r];
    if |records| >= buffersize then
      SortFacts(records);
      var sorted := SortByKey(records);
      Pass(SaveAll(p.streams, sorted[..writebatchsize]), sorted[writebatchsize..])
    else Pass(p.streams, records)
  }

  function PassOver(input: seq<Record>, buffersize: nat, writebatchsize: nat): Pass
    requires 1 <= writebatchsize <= buffersize
  {
    if input == [] then Pass(Streams([], []), [])
    else ReadOne(PassOver(input[..|input| - 1], buffersize, writebatchsize), input[|input| - 1], buffersize,
                 writebatchsize)
  }

  /** The output and the misordered file of the first pass. */
  function FirstPassOf(input: seq<Record>, buffersize: nat, writebatchsize: nat): Streams
    requires 1 <= writebatchsize <= buffersize
  {
    var p := PassOver(input, buffersize, writebatchsize);
    SaveAll(p.streams, SortByKey(p.records))
  }

  /** After `n` records: nothing is lost, and records in order at the distance have all gone out ahead of the rest. */
  lemma {:induction false} PassFacts(input: seq<Record>, n: nat, b: nat, w: nat)
    requires 1 <= w <= b && n <= |input|
    ensures var p := PassOver(input[..n], b, w);
            && |p.records| < b && PassInvariant(input[..n], p.streams, p.records)
            && (OrderedAtDistance(input, b - w + 1) ==>
                  p.streams.misordered == [] && Ahead(p.streams.out, p.records) && Ahead(p.streams.out, input[n..]))
    decreases n
  {
    if n > 0 {
      PassFacts(input, n - 1, b, w);
      var p := PassOver(input[..n - 1], b, w);
      assert input[..n][..n - 1] == input[..n - 1];
      PassStep(input, n - 1, p, b, w);
    }
  }

  lemma PassStep(input: seq<Record>, n: nat, p: Pass, b: nat, w: nat)
    requires 1 <= w <= b && n < |input| && |p.records| < b && PassInvariant(input[..n], p.streams, p.records)
    requires OrderedAtDistance(input, b - w + 1) ==>
               p.streams.misordered == [] && Ahead(p.streams.out, p.records) && Ahead(p.streams.out, input[n..])
    ensures var p' := ReadOne(p, input[n], b, w);
            && |p'.records| < b && PassInvariant(input[..n + 1], p'.streams, p'.records)
            && (OrderedAtDistance(input, b - w + 1) ==>
                  p'.streams.misordered == [] && Ahead(p'.streams.out, p'.records) &&
                    Ahead(p'.streams.out, input[n + 1..]))
  {
    var near := OrderedAtDistance(input, b - w + 1);
    var records := p.records + [input[n]];
    ReadKeeps(input[..n], p.streams, p.records, input[n]);
    assert input[..n] + [input[n]] == input[..n + 1];
    if near { ReadAhead(input, n, p.streams.out, p.records); }
    hide OrderedAtDistance, Ahead, PassInvariant, SortByKey, SaveAll;
    if |records| >= b {
      if near { FullBufferAhead(input, n + 1, p.streams, records, b, w); }
      FlushKeeps(input[..n + 1], p.streams, records, w);
    }
  }

  /** The output is sorted, it and the misordered file hold the input, and no record is misordered under the distance
      hypothesis. */
  lemma FirstPassFacts(input: seq<Record>, b: nat, w: nat)
    requires 1 <= w <= b
    ensures PassInvariant(input, FirstPassOf(input, b, w), [])
    ensures OrderedAtDistance(input, b - w + 1) ==> FirstPassOf(input, b, w).misordered == []
  {
    PassFacts(input, |input|, b, w);
    assert input[..|input|] == input;
    hide PassOver, SortByKey, SaveAll, OrderedAtDistance, Ahead, PassInvariant;
    var p := PassOver(input, b, w);
    FlushKeeps(input, p.streams, p.records, |p.records|);
    assert SortByKey(p.records)[..|p.records|] == SortByKey(p.records);
    assert SortByKey(p.records)[|p.records|..] == [];
  }

  /** Sorts the buffer, writes its first `count` records and deletes them. */
  method Flush(s: Streams, records: seq<Record>, count: nat) returns (r: Streams, rest: seq<Record>)
    requires count <= |records|
    ensures |SortByKey(records)| == |records|
    ensures r == SaveAll(s, SortByKey(records)[..count]) && rest == SortByKey(records)[count..]
  {
    SortFacts(records);
    r, rest := SaveFirst(s, SortByKey(records), count);
  }

  /** The first pass: fill the buffer, sort it when it is full, write its first records, and the rest at the end. */
  method FirstPass(input: seq<Record>, buffersize: nat, writebatchsize: nat) returns (s: Streams)
    requires 1 <= writebatchsize <= buffersize
    ensures s == FirstPassOf(input, buffersize, writebatchsize)
  {
    s := Streams([], []);
    var records: seq<Record> := [];
    for n := 0 to |input|
      invariant Pass(s, records) == PassOver(input[..n], buffersize, writebatchsize)
    {
      assert input[..n + 1][..n] == input[..n];
      records := records + [input[n]];
      if |records| >= buffersize {
        s, records := Flush(s, records, writebatchsize);
      }
    }
    assert input[..|input|] == input;
    SortFacts(records);
    assert SortByKey(records)[..|records|] == SortByKey(records);
    s, records := Flush(s, records, |records|);
  }

  // ----- The merge pass -----

  /** The merge of the main file with the misordered records; at equal keys the main file goes first. */
  ghost function Merge(main: seq<Record>, misordered: seq<Record>): seq<Record> {
    if misordered == [] then main
    else if main == [] then misordered
    else if Less(misordered[0].key, main[0].key) then [misordered[0]] + Merge(main, misordered[1..])
    else [main[0]] + Merge(main[1..], misordered)
  }

  lemma {:induction false} MergeMembers(main: seq<Record>, misordered: seq<Record>)
    ensures multiset(Merge(main, misordered)) == multiset(main) + multiset(misordered)
  {
    if main != [] && misordered != [] {
      assert main == [main[0]] + main[1..] && misordered == [misordered[0]] + misordered[1..];
      if Less(misordered[0].key, main[0].key) {
        MergeMembers(main, misordered[1..]);
      } else {
        MergeMembers(main[1..], misordered);
      }
    }
  }

  /** `r` is at most every record of `s`. */
  ghost predicate AtMost(r: Record, s: seq<Record>) {
    forall x :: x in s ==> LessEq(r.key, x.key)
  }

  lemma SortedCons(r: Record, s: seq<Record>)
    ensures Sorted([r] + s) <==> AtMost(r, s) && Sorted(s)
  {
    var t := [r] + s;
    assert t[1..] == s;
    if Sorted(t) {
      forall x | x in s ensures LessEq(r.key, x.key) {
        var i :| 0 <= i < |s| && s[i] == x;
        assert t[0] == r && t[i + 1] == x;
      }
    }
  }

  lemma AtMostSorted(r: Record, s: seq<Record>)
    requires Sorted(s) && s != [] && LessEq(r.key, s[0].key)
    ensures AtMost(r, s)
  {
    LessEqTotal(s[0].key, s[0].key);
    forall x | x in s ensures LessEq(r.key, x.key) {
      LessEqTransitive(r.key, s[0].key, x.key);
    }
  }

  /** The merge of a sorted file with the misordered records is sorted exactly when those came in key order. */
  lemma {:induction false} MergeSorted(main: seq<Record>, misordered: seq<Record>)
    requires Sorted(main)
    ensures Sorted(Merge(main, misordered)) <==> Sorted(misordered)
  {
    if main != [] && misordered != [] {
      if Less(misordered[0].key, main[0].key) {
        MergeSorted(main, misordered[1..]);
        MergeTakesMisordered(main, misordered, Merge(main, misordered[1..]));
      } else {
        assert Sorted(main[1..]);
        MergeSorted(main[1..], misordered);
        MergeTakesMain(main, misordered, Merge(main[1..], misordered));
      }
    }
  }

  /** The records of a merge are those of the two files. */
  lemma MergeAtMost(r: Record, main: seq<Record>, misordered: seq<Record>)
    ensures AtMost(r, Merge(main, misordered)) <==> AtMost(r, main) && AtMost(r, misordered)
  {
    hide LessEq;
    var all := Merge(main, misordered);
    MergeMembers(main, misordered);
    hide Merge;
    forall x ensures x in all <==> x in main || x in misordered {
      assert x in all <==> x in multiset(all);
    }
  }

  lemma MergeTakesMisordered(main: seq<Record>, misordered: seq<Record>, rest: seq<Record>)
    requires main != [] && misordered != [] && Sorted(main) && Less(misordered[0].key, main[0].key)
    requires rest == Merge(main, misordered[1..]) && (Sorted(rest) <==> Sorted(misordered[1..]))
    ensures Sorted([misordered[0]] + rest) <==> Sorted(misordered)
  {
    var b := misordered[0];
    assert misordered == [b] + misordered[1..];
    SortedCons(b, misordered[1..]);
    SortedCons(b, rest);
    LessEqTotal(b.key, main[0].key);
    AtMostSorted(b, main);
    MergeAtMost(b, main, misordered[1..]);
  }

  lemma MergeTakesMain(main: seq<Record>, misordered: seq<Record>, rest: seq<Record>)
    requires main != [] && misordered != [] && Sorted(main) && !Less(misordered[0].key, main[0].key)
    requires rest == Merge(main[1..], misordered) && (Sorted(rest) <==> Sorted(misordered))
    ensures Sorted([main[0]] + rest) <==> Sorted(misordered)
  {
    var a := main[0];
    assert main == [a] + main[1..];
    SortedCons(a, main[1..]);
    SortedCons(a, rest);
    if Sorted(misordered) { AtMostSorted(a, misordered); }
    MergeAtMost(a, main[1..], misordered);
  }

  lemma {:induction false} MergeStable(main: seq<Record>, misordered: seq<Record>, k: Key)
    requires Sorted(main)
    ensures WithKey(Merge(main, misordered), k) == WithKey(main, k) + WithKey(misordered, k)
  {
    hide WithKey;
    if misordered == [] || main == [] {
      NoneWithKey(k);
      assert WithKey(main, k) + [] == WithKey(main, k) && [] + WithKey(misordered, k) == WithKey(misordered, k);
    } else if Less(misordered[0].key, main[0].key) {
      MergeStable(main, misordered[1..], k);
      if misordered[0].key == k { NoneBelow(main, misordered[0]); }
      StableCons(main, misordered[0], misordered[1..], Merge(main, misordered[1..]), k);
      assert misordered == [misordered[0]] + misordered[1..];
    } else {
      MergeStable(main[1..], misordered, k);
      StableConsMain(main[0], main[1..], misordered, Merge(main[1..], misordered), k);
      assert main == [main[0]] + main[1..];
    }
  }

  lemma NoneWithKey(k: Key)
    ensures WithKey([], k) == []
  {
  }

  lemma StableConsMain(a: Record, main: seq<Record>, misordered: seq<Record>, merged: seq<Record>, k: Key)
    requires WithKey(merged, k) == WithKey(main, k) + WithKey(misordered, k)
    ensures WithKey([a] + merged, k) == WithKey([a] + main, k) + WithKey(misordered, k)
  {
    hide WithKey;
    WithKeyConcat([a], merged, k);
    WithKeyConcat([a], main, k);
    assert WithKey([a], k) + (WithKey(main, k) + WithKey(misordered, k)) ==
           WithKey([a], k) + WithKey(main, k) + WithKey(misordered, k);
  }

  /** A sorted file has no record with a key below that of its first one. */
  lemma NoneBelow(main: seq<Record>, b: Record)
    requires Sorted(main) && main != [] && Less(b.key, main[0].key)
    ensures WithKey(main, b.key) == []
  {
    LessEqTotal(main[0].key, main[0].key);
    AtMostSorted(main[0], main);
    forall x | x in main ensures x.key != b.key {
      LessThenLessEq(b.key, main[0].key, x.key);
      LessEqTotal(b.key, x.key);
    }
    WithKeyNone(main, b.key);
  }

  lemma StableCons(main: seq<Record>, b: Record, misordered: seq<Record>, merged: seq<Record>, k: Key)
    requires WithKey(merged, k) == WithKey(main, k) + WithKey(misordered, k)
    requires b.key == k ==> WithKey(main, k) == []
    ensures WithKey([b] + merged, k) == WithKey(main, k) + WithKey([b] + misordered, k)
  {
    hide WithKey;
    WithKeyConcat([b], merged, k);
    WithKeyConcat([b], misordered, k);
    WithKeyOne(b, k);
  }

  lemma Shift(out: seq<Record>, r: Record, rest: seq<Record>)
    ensures out + ([r] + rest) == (out + [r]) + rest
  {
  }

  lemma TakeMisordered(out: seq<Record>, main: seq<Record>, misordered: seq<Record>)
    requires main != [] && misordered != [] && Less(misordered[0].key, main[0].key)
    ensures out + Merge(main, misordered) == (out + [misordered[0]]) + Merge(main, misordered[1..])
  {
    Shift(out, misordered[0], Merge(main, misordered[1..]));
  }

  lemma TakeMain(out: seq<Record>, main: seq<Record>, misordered: seq<Record>)
    requires main != [] && (misordered != [] ==> !Less(misordered[0].key, main[0].key))
    ensures out + Merge(main, misordered) == (out + [main[0]]) + Merge(main[1..], misordered)
  {
    if misordered == [] {
      assert main == [main[0]] + main[1..];
    }
    Shift(out, main[0], Merge(main[1..], misordered));
  }

  lemma Tail(s: seq<Record>, i: nat)
    requires i < |s|
    ensures s[i..] != [] && s[i..][0] == s[i] && s[i..][1..] == s[i + 1..] && s[i..] == [s[i]] + s[i + 1..]
  {
  }

  lemma MergeEnd(misordered: seq<Record>)
    ensures Merge([], misordered) == misordered
  {
  }

  /** The merge pass: each record of the main file goes out after the misordered records with smaller keys. */
  method MergePass(main: seq<Record>, misordered: seq<Record>) returns (out: seq<Record>)
    ensures out == Merge(main, misordered)
  {
    hide Merge;
    out := [];
    var p := 0;
    for i := 0 to |main|
      invariant p <= |misordered|
      invariant out + Merge(main[i..], misordered[p..]) == Merge(main, misordered)
    {
      Tail(main, i);
      while p < |misordered| && Less(misordered[p].key, main[i].key)
        invariant p <= |misordered|
        invariant out + Merge(main[i..], misordered[p..]) == Merge(main, misordered)
      {
        Tail(misordered, p);
        TakeMisordered(out, main[i..], misordered[p..]);
        out := out + [misordered[p]];
        p := p + 1;
      }
      if p < |misordered| { Tail(misordered, p); }
      TakeMain(out, main[i..], misordered[p..]);
      out := out + [main[i]];
    }
    MergeEnd(misordered[p..]);
    while p < |misordered|
      invariant p <= |misordered|
      invariant out + misordered[p..] == Merge(main, misordered)
    {
      Tail(misordered, p);
      Shift(out, misordered[p], misordered[p + 1..]);
      out := out + [misordered[p]];
      p := p + 1;
    }
  }

  // ----- sortfiledata -----

  /** The file that sortfiledata leaves behind; without misordered records it is the output of the first pass. */
  ghost function SortFileOf(input: seq<Record>, buffersize: nat, writebatchsize: nat): seq<Record>
    requires 1 <= writebatchsize <= buffersize
  {
    var s := FirstPassOf(input, buffersize, writebatchsize);
    Merge(s.out, s.misordered)
  }

  /**
   * The file always holds the input's records with equal keys in their original order. It is the sorted
   * input exactly when the records that the first pass sends to the misordered file come in key order,
   * and there are none when records at distance buffersize - writebatchsize + 1 or more are in order.
   */
  lemma SortFileFacts(input: seq<Record>, b: nat, w: nat)
    requires 1 <= w <= b
    ensures StablePermutation(SortFileOf(input, b, w), input)
    ensures Sorted(SortFileOf(input, b, w)) <==> Sorted(FirstPassOf(input, b, w).misordered)
    ensures SortFileOf(input, b, w) == SortByKey(input) <==> Sorted(FirstPassOf(input, b, w).misordered)
    ensures OrderedAtDistance(input, b - w + 1) ==> FirstPassOf(input, b, w).misordered == []
  {
    var s := FirstPassOf(input, b, w);
    FirstPassFacts(input, b, w);
    forall k ensures WithKey(SortFileOf(input, b, w), k) == WithKey(input, k) {
      MergeStable(s.out, s.misordered, k);
      assert WithKey(s.out, k) + WithKey(s.misordered, k) + WithKey([], k) == WithKey(input, k);
    }
    MergeSorted(s.out, s.misordered);
    SortFacts(input);
    if Sorted(SortFileOf(input, b, w)) {
      StableSortUnique(SortFileOf(input, b, w), SortByKey(input));
    }
  }

  method SortFileData(input: seq<Record>, buffersize: nat, writebatchsize: nat) returns (outfile: seq<Record>)
    requires 1 <= writebatchsize <= buffersize
    ensures outfile == SortFileOf(input, buffersize, writebatchsize)
    ensures StablePermutation(outfile, input)
    ensures Sorted(outfile) <==> Sorted(FirstPassOf(input, buffersize, writebatchsize).misordered)
    ensures outfile == SortByKey(input) <==> Sorted(FirstPassOf(input, buffersize, writebatchsize).misordered)
    ensures OrderedAtDistance(input, buffersize - writebatchsize + 1) ==>
              FirstPassOf(input, buffersize, writebatchsize).misordered == [] && outfile == SortByKey(input)
  {
    SortFileFacts(input, buffersize, writebatchsize);
    var s := FirstPass(input, buffersize, writebatchsize);
    if s.misordered == [] {
      outfile := s.out;
    } else {
      outfile := MergePass(s.out, s.misordered);
    }
  }

  /** The sizes in the code: records up to 9900 positions out of order are still sorted by the first pass alone. */
  method SortLog(input: seq<Record>) returns (outfile: seq<Record>)
    ensures StablePermutation(outfile, input)
    ensures outfile == SortByKey(input) <==> Sorted(FirstPassOf(input, 10000, 100).misordered)
    ensures OrderedAtDistance(input, 9901) ==> outfile == SortByKey(input)
  {
    outfile := SortFileData(input, 10000, 100);
  }
}
