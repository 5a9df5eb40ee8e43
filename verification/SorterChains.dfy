/**
 * Which inputs sortfiledata leaves unsorted: those in which a record that has been overtaken by a greater
 * one overtakes another.
 */
module SorterChains {
  import opened RecordOrder
  import opened LogSorter

  // ----- Records that have left the buffer -----

  /**
   * Of the records with the key of record `j`, the buffer holds fewer than have been read since then: as
   * equal keys leave in order, record `j` has left.
   */
  ghost predicate Gone(input: seq<Record>, j: nat, n: nat, records: seq<Record>) {
    j < n <= |input| && |WithKey(records, input[j].key)| < |WithKey(input[j..n], input[j].key)|
  }

  /** Record `i` has been written when `n` records have been read. */
  ghost predicate IsWritten(input: seq<Record>, i: nat, n: nat, b: nat, w: nat)
    requires 1 <= w <= b && n <= |input|
  {
    Gone(input, i, n, PassOver(input[..n], b, w).records)
  }

  /** Record `i` is greater than the later record `j` and is written before that is read. */
  ghost predicate Overtakes(input: seq<Record>, i: nat, j: nat, b: nat, w: nat)
    requires 1 <= w <= b
  {
    i < j < |input| && Less(input[j].key, input[i].key) && IsWritten(input, i, j, b, w)
  }

  /** Among the first `n` records one has been overtaken and overtakes another. */
  ghost predicate HasChain(input: seq<Record>, n: nat, b: nat, w: nat)
    requires 1 <= w <= b
  {
    exists i, j, l :: 0 <= l < n && Overtakes(input, i, j, b, w) && Overtakes(input, j, l, b, w)
  }

  lemma PassNext(input: seq<Record>, n: nat, b: nat, w: nat)
    requires 1 <= w <= b && n < |input|
    ensures PassOver(input[..n + 1], b, w) == ReadOne(PassOver(input[..n], b, w), input[n], b, w)
  {
    assert input[..n + 1][..n] == input[..n];
  }

  lemma GoneRead(input: seq<Record>, j: nat, n: nat, records: seq<Record>)
    requires n < |input| && Gone(input, j, n, records)
    ensures Gone(input, j, n + 1, records + [input[n]])
  {
    var k := input[j].key;
    assert input[j..n + 1] == input[j..n] + [input[n]];
    WithKeyConcat(input[j..n], [input[n]], k);
    WithKeyConcat(records, [input[n]], k);
  }

  lemma GoneDrop(input: seq<Record>, j: nat, n: nat, first: seq<Record>, rest: seq<Record>)
    requires Gone(input, j, n, first + rest)
    ensures Gone(input, j, n, rest)
  {
    WithKeyConcat(first, rest, input[j].key);
  }

  /** Sorting and writing first records of the buffer brings back nothing. */
  lemma GoneFlush(input: seq<Record>, j: nat, n: nat, records: seq<Record>, w: nat)
    requires Gone(input, j, n, records) && w <= |SortByKey(records)|
    ensures Gone(input, j, n, SortByKey(records)[w..])
  {
    SortFacts(records);
    var sorted := SortByKey(records);
    assert sorted[..w] + sorted[w..] == sorted;
    GoneDrop(input, j, n, sorted[..w], sorted[w..]);
  }

  lemma {:induction false} WrittenStays(input: seq<Record>, i: nat, n: nat, m: nat, b: nat, w: nat)
    requires 1 <= w <= b && n <= m <= |input| && IsWritten(input, i, n, b, w)
    ensures IsWritten(input, i, m, b, w)
    decreases m
  {
    hide Gone, WithKey, SortByKey, SaveAll;
    if n < m {
      WrittenStays(input, i, n, m - 1, b, w);
      PassNext(input, m - 1, b, w);
      hide PassOver;
      var records := PassOver(input[..m - 1], b, w).records;
      GoneRead(input, i, m - 1, records);
      if |records| + 1 >= b {
        SortFacts(records + [input[m - 1]]);
        GoneFlush(input, i, m, records + [input[m - 1]], w);
      }
    }
  }

  /** The record with the key that `c` records with this key, itself included, follow. */
  lemma {:induction false} FromTheEnd(s: seq<Record>, k: Key, c: nat) returns (i: nat)
    requires 1 <= c <= |WithKey(s, k)|
    ensures i < |s| && s[i].key == k && |WithKey(s[i..], k)| == c
    decreases |s|
  {
    assert s != [];
    assert s == [s[0]] + s[1..];
    WithKeyConcat([s[0]], s[1..], k);
    WithKeyOne(s[0], k);
    if c == |WithKey(s, k)| && s[0].key == k {
      i := 0;
      assert s[0..] == s;
    } else {
      var t := FromTheEnd(s[1..], k, c);
      i := t + 1;
      assert s[1..][t..] == s[i..];
    }
  }

  // ----- What is known at each point of a run -----

  /** A record with the key would be misordered. */
  ghost predicate IsLate(s: Streams, k: Key) {
    s.out != [] && Less(k, s.out[|s.out| - 1].key)
  }

  /** A record with the key has been overtaken; it and those after it with the key are `c` of the first `n`. */
  ghost predicate OvertakenFrom(input: seq<Record>, n: nat, k: Key, c: nat, b: nat, w: nat)
    requires 1 <= w <= b && n <= |input|
  {
    exists i, j :: 0 <= j < n && input[j].key == k && |WithKey(input[j..n], k)| == c && Overtakes(input, i, j, b, w)
  }

  /** A record with the key has been overtaken and has left the buffer. */
  ghost predicate OvertakenGone(input: seq<Record>, n: nat, k: Key, records: seq<Record>, b: nat, w: nat)
    requires 1 <= w <= b && n <= |input|
  {
    exists i, j :: 0 <= j < n && input[j].key == k && Gone(input, j, n, records) && Overtakes(input, i, j, b, w)
  }

  ghost predicate BufferOvertaken(input: seq<Record>, n: nat, s: Streams, records: seq<Record>, b: nat, w: nat)
    requires 1 <= w <= b && n <= |input|
  {
    forall k :: IsLate(s, k) && WithKey(records, k) != [] ==>
      OvertakenFrom(input, n, k, |WithKey(records, k)|, b, w)
  }

  ghost predicate MisorderedOvertaken(input: seq<Record>, n: nat, s: Streams, records: seq<Record>, b: nat, w: nat)
    requires 1 <= w <= b && n <= |input|
  {
    forall m :: m in s.misordered ==> OvertakenGone(input, n, m.key, records, b, w)
  }

  /** Whatever is wrong in the misordered file, or will be, comes from a chain. */
  ghost predicate FaultsAreChains(input: seq<Record>, n: nat, s: Streams, records: seq<Record>, b: nat, w: nat)
    requires 1 <= w <= b && n <= |input|
  {
    && (!Sorted(s.misordered) ==> HasChain(input, n, b, w))
    && (forall m, r :: m in s.misordered && r in records && Less(r.key, m.key) ==> HasChain(input, n, b, w))
  }

  ghost predicate Known(input: seq<Record>, n: nat, s: Streams, records: seq<Record>, b: nat, w: nat)
    requires 1 <= w <= b && n <= |input|
  {
    && BufferOvertaken(input, n, s, records, b, w)
    && MisorderedOvertaken(input, n, s, records, b, w)
    && FaultsAreChains(input, n, s, records, b, w)
  }

  // ----- Reading a record -----

  /** What makes a key late is a record that has been written. */
  lemma LateIsWritten(input: seq<Record>, n: nat, k: Key, b: nat, w: nat) returns (i: nat)
    requires 1 <= w <= b && n <= |input| && IsLate(PassOver(input[..n], b, w).streams, k)
    ensures i < n && Less(k, input[i].key) && IsWritten(input, i, n, b, w)
  {
    var p := PassOver(input[..n], b, w);
    var last := p.streams.out[|p.streams.out| - 1];
    PassFacts(input, n, b, w);
    assert last in WithKey(p.streams.out, last.key) by { WithKeyMembers(p.streams.out, last.key); }
    assert WithKey(p.streams.out, last.key) + WithKey(p.streams.misordered, last.key) + WithKey(p.records, last.key)
        == WithKey(input[..n], last.key);
    i := FromTheEnd(input[..n], last.key, |WithKey(input[..n], last.key)|);
    assert input[..n][i..] == input[i..n];
  }

  lemma ReadOvertaken(input: seq<Record>, n: nat, k: Key, b: nat, w: nat)
    requires 1 <= w <= b && n < |input|
    requires var p := PassOver(input[..n], b, w);
             && BufferOvertaken(input, n, p.streams, p.records, b, w)
             && IsLate(p.streams, k) && WithKey(p.records + [input[n]], k) != []
    ensures OvertakenFrom(input, n + 1, k, |WithKey(PassOver(input[..n], b, w).records + [input[n]], k)|, b, w)
  {
    var p := PassOver(input[..n], b, w);
    WithKeyConcat(p.records, [input[n]], k);
    WithKeyOne(input[n], k);
    hide PassOver, WithKey, Overtakes, IsLate, OvertakenFrom;
    if WithKey(p.records, k) != [] {
      LaterOvertaken(input, n, k, |WithKey(p.records, k)|, b, w);
    } else {
      JustOvertaken(input, n, b, w);
    }
  }

  lemma LaterOvertaken(input: seq<Record>, n: nat, k: Key, c: nat, b: nat, w: nat)
    requires 1 <= w <= b && n < |input| && OvertakenFrom(input, n, k, c, b, w)
    ensures OvertakenFrom(input, n + 1, k, if input[n].key == k then c + 1 else c, b, w)
  {
    hide Overtakes, WithKey;
    var i, j :| 0 <= j < n && input[j].key == k && |WithKey(input[j..n], k)| == c && Overtakes(input, i, j, b, w);
    assert input[j..n + 1] == input[j..n] + [input[n]];
    WithKeyConcat(input[j..n], [input[n]], k);
    WithKeyOne(input[n], k);
  }

  lemma JustOvertaken(input: seq<Record>, n: nat, b: nat, w: nat)
    requires 1 <= w <= b && n < |input| && IsLate(PassOver(input[..n], b, w).streams, input[n].key)
    ensures OvertakenFrom(input, n + 1, input[n].key, 1, b, w)
  {
    hide IsLate, IsWritten;
    var i := LateIsWritten(input, n, input[n].key, b, w);
    assert input[n..n + 1] == [input[n]];
    WithKeyOne(input[n], input[n].key);
    assert Overtakes(input, i, n, b, w);
  }

  lemma ReadGone(input: seq<Record>, n: nat, k: Key, records: seq<Record>, b: nat, w: nat)
    requires 1 <= w <= b && n < |input| && OvertakenGone(input, n, k, records, b, w)
    ensures OvertakenGone(input, n + 1, k, records + [input[n]], b, w)
  {
    hide Gone, Overtakes;
    var i, j :| 0 <= j < n && input[j].key == k && Gone(input, j, n, records) && Overtakes(input, i, j, b, w);
    GoneRead(input, j, n, records);
  }

  /** A smaller record that is read after a misordered one makes a chain. */
  lemma ReadChain(input: seq<Record>, n: nat, m: Record, b: nat, w: nat)
    requires 1 <= w <= b && n < |input| && Less(input[n].key, m.key)
    requires OvertakenGone(input, n, m.key, PassOver(input[..n], b, w).records, b, w)
    ensures HasChain(input, n + 1, b, w)
  {
    hide PassOver, WithKey;
    var i, j :| 0 <= j < n && input[j].key == m.key && Gone(input, j, n, PassOver(input[..n], b, w).records)
                && Overtakes(input, i, j, b, w);
    assert Overtakes(input, j, n, b, w);
  }

  lemma KnownRead(input: seq<Record>, n: nat, b: nat, w: nat)
    requires 1 <= w <= b && n < |input|
    requires Known(input, n, PassOver(input[..n], b, w).streams, PassOver(input[..n], b, w).records, b, w)
    ensures Known(input, n + 1, PassOver(input[..n], b, w).streams, PassOver(input[..n], b, w).records + [input[n]],
                  b, w)
  {
    var p := PassOver(input[..n], b, w);
    hide PassOver, WithKey, IsLate, OvertakenGone, OvertakenFrom, HasChain, Sorted;
    forall k | IsLate(p.streams, k) && WithKey(p.records + [input[n]], k) != []
      ensures OvertakenFrom(input, n + 1, k, |WithKey(p.records + [input[n]], k)|, b, w)
    {
      ReadOvertaken(input, n, k, b, w);
    }
    forall m | m in p.streams.misordered ensures OvertakenGone(input, n + 1, m.key, p.records + [input[n]], b, w) {
      ReadGone(input, n, m.key, p.records, b, w);
    }
    ChainGrows(input, n, b, w);
    forall m, r | m in p.streams.misordered && r in p.records + [input[n]] && Less(r.key, m.key)
      ensures HasChain(input, n + 1, b, w)
    {
      if r !in p.records {
        ReadChain(input, n, m, b, w);
      }
    }
  }

  lemma ChainGrows(input: seq<Record>, n: nat, b: nat, w: nat)
    requires 1 <= w <= b
    ensures HasChain(input, n, b, w) ==> HasChain(input, n + 1, b, w)
  {
  }

  // ----- Writing a record -----

  lemma KnownWrite(input: seq<Record>, n: nat, s: Streams, x: Record, rest: seq<Record>, b: nat, w: nat)
    requires 1 <= w <= b && n <= |input| && Known(input, n, s, [x] + rest, b, w)
    requires forall r :: r in rest ==> LessEq(x.key, r.key)
    ensures Known(input, n, Save(s, x), rest, b, w)
  {
    hide WithKey, OvertakenGone, OvertakenFrom, HasChain;
    WriteBuffer(input, n, s, x, rest, b, w);
    WriteMisordered(input, n, s, x, rest, b, w);
    WriteFaults(input, n, s, x, rest, b, w);
  }

  lemma WriteBuffer(input: seq<Record>, n: nat, s: Streams, x: Record, rest: seq<Record>, b: nat, w: nat)
    requires 1 <= w <= b && n <= |input| && BufferOvertaken(input, n, s, [x] + rest, b, w)
    requires forall r :: r in rest ==> LessEq(x.key, r.key)
    ensures BufferOvertaken(input, n, Save(s, x), rest, b, w)
  {
    hide WithKey, OvertakenFrom;
    forall k | IsLate(Save(s, x), k) && WithKey(rest, k) != []
      ensures OvertakenFrom(input, n, k, |WithKey(rest, k)|, b, w)
    {
      WithKeyMembers(rest, k);
      assert WithKey(rest, k)[0] in WithKey(rest, k);
      assert LessEq(x.key, k);
      WithKeyConcat([x], rest, k);
      WithKeyOne(x, k);
      assert IsLate(s, k);
      if x.key == k {
        NextOvertaken(input, n, k, |WithKey(rest, k)|, b, w);
      }
    }
  }

  /** With a record the next one with the same key has been overtaken as well. */
  lemma NextOvertaken(input: seq<Record>, n: nat, k: Key, c: nat, b: nat, w: nat)
    requires 1 <= w <= b && n <= |input| && c >= 1 && OvertakenFrom(input, n, k, c + 1, b, w)
    ensures OvertakenFrom(input, n, k, c, b, w)
  {
    hide IsWritten;
    var i, j :| 0 <= j < n && input[j].key == k && |WithKey(input[j..n], k)| == c + 1 && Overtakes(input, i, j, b, w);
    var t := FromTheEnd(input[j..n], k, c);
    assert input[j..n][t..] == input[j + t..n];
    WrittenStays(input, i, j, j + t, b, w);
    assert Overtakes(input, i, j + t, b, w);
  }

  lemma WriteMisordered(input: seq<Record>, n: nat, s: Streams, x: Record, rest: seq<Record>, b: nat, w: nat)
    requires 1 <= w <= b && n <= |input| && BufferOvertaken(input, n, s, [x] + rest, b, w)
    requires MisorderedOvertaken(input, n, s, [x] + rest, b, w)
    ensures MisorderedOvertaken(input, n, Save(s, x), rest, b, w)
  {
    hide WithKey, OvertakenGone, OvertakenFrom;
    forall m | m in Save(s, x).misordered ensures OvertakenGone(input, n, m.key, rest, b, w) {
      if m in s.misordered {
        StillGone(input, n, m.key, x, rest, b, w);
      } else {
        WithKeyConcat([x], rest, x.key);
        WithKeyOne(x, x.key);
        assert IsLate(s, x.key);
        NowGone(input, n, x, rest, b, w);
      }
    }
  }

  lemma StillGone(input: seq<Record>, n: nat, k: Key, x: Record, rest: seq<Record>, b: nat, w: nat)
    requires 1 <= w <= b && n <= |input| && OvertakenGone(input, n, k, [x] + rest, b, w)
    ensures OvertakenGone(input, n, k, rest, b, w)
  {
    hide Gone, Overtakes;
    var i, j :| 0 <= j < n && input[j].key == k && Gone(input, j, n, [x] + rest) && Overtakes(input, i, j, b, w);
    GoneDrop(input, j, n, [x], rest);
  }

  lemma NowGone(input: seq<Record>, n: nat, x: Record, rest: seq<Record>, b: nat, w: nat)
    requires 1 <= w <= b && n <= |input| && OvertakenFrom(input, n, x.key, |WithKey([x] + rest, x.key)|, b, w)
    ensures OvertakenGone(input, n, x.key, rest, b, w)
  {
    hide Overtakes;
    var i, j :| 0 <= j < n && input[j].key == x.key && |WithKey(input[j..n], x.key)| == |WithKey([x] + rest, x.key)|
                && Overtakes(input, i, j, b, w);
    WithKeyConcat([x], rest, x.key);
    WithKeyOne(x, x.key);
    assert Gone(input, j, n, rest);
  }

  lemma WriteFaults(input: seq<Record>, n: nat, s: Streams, x: Record, rest: seq<Record>, b: nat, w: nat)
    requires 1 <= w <= b && n <= |input| && FaultsAreChains(input, n, s, [x] + rest, b, w)
    requires forall r :: r in rest ==> LessEq(x.key, r.key)
    ensures FaultsAreChains(input, n, Save(s, x), rest, b, w)
  {
    hide HasChain, Less;
    var s' := Save(s, x);
    assert x in [x] + rest && forall r :: r in rest ==> r in [x] + rest;
    if Sorted(s.misordered) && !Sorted(s'.misordered) {
      if s.misordered != [] && Less(x.key, s.misordered[|s.misordered| - 1].key) {
        assert s.misordered[|s.misordered| - 1] in s.misordered;
      } else {
        SortedAppend(s.misordered, x);
      }
    }
  }

  // ----- A run -----

  lemma {:induction false} KnownWriteAll(input: seq<Record>, n: nat, s: Streams, sorted: seq<Record>, c: nat,
                                         b: nat, w: nat)
    requires 1 <= w <= b && n <= |input| && c <= |sorted| && Sorted(sorted) && Known(input, n, s, sorted, b, w)
    ensures Known(input, n, SaveAll(s, sorted[..c]), sorted[c..], b, w)
    decreases c
  {
    hide Known, LessEq, Save;
    if c == 0 {
      assert sorted[0..] == sorted;
    } else {
      KnownWriteAll(input, n, s, sorted, c - 1, b, w);
      assert sorted[..c][..c - 1] == sorted[..c - 1];
      assert sorted[c - 1..] == [sorted[c - 1]] + sorted[c..];
      KnownWrite(input, n, SaveAll(s, sorted[..c - 1]), sorted[c - 1], sorted[c..], b, w);
    }
  }

  lemma KnownSort(input: seq<Record>, n: nat, s: Streams, records: seq<Record>, b: nat, w: nat)
    requires 1 <= w <= b && n <= |input| && Known(input, n, s, records, b, w)
    ensures Known(input, n, s, SortByKey(records), b, w)
  {
    SortFacts(records);
    var sorted := SortByKey(records);
    StableIsPermutation(sorted, records);
    hide SortByKey, WithKey, OvertakenFrom, OvertakenGone, HasChain, Less;
    assert forall r :: r in sorted ==> r in multiset(sorted);
    forall m | m in s.misordered ensures OvertakenGone(input, n, m.key, sorted, b, w) {
      SortGone(input, n, m.key, records, b, w);
    }
  }

  lemma SortGone(input: seq<Record>, n: nat, k: Key, records: seq<Record>, b: nat, w: nat)
    requires 1 <= w <= b && n <= |input| && OvertakenGone(input, n, k, records, b, w)
    ensures OvertakenGone(input, n, k, SortByKey(records), b, w)
  {
    hide Overtakes, SortByKey, WithKey;
    SortFacts(records);
    var i, j :| 0 <= j < n && input[j].key == k && Gone(input, j, n, records) && Overtakes(input, i, j, b, w);
    assert Gone(input, j, n, SortByKey(records));
  }

  lemma {:induction false} KnownAfter(input: seq<Record>, n: nat, b: nat, w: nat)
    requires 1 <= w <= b && n <= |input|
    ensures Known(input, n, PassOver(input[..n], b, w).streams, PassOver(input[..n], b, w).records, b, w)
    decreases n
  {
    if n == 0 {
      assert PassOver(input[..0], b, w) == Pass(Streams([], []), []);
    } else {
      KnownAfter(input, n - 1, b, w);
      KnownRead(input, n - 1, b, w);
      PassNext(input, n - 1, b, w);
      hide Known, PassOver, ReadOne;
      KnownFlush(input, n, PassOver(input[..n - 1], b, w), input[n - 1], b, w);
    }
  }

  lemma KnownFlush(input: seq<Record>, n: nat, p: Pass, r: Record, b: nat, w: nat)
    requires 1 <= w <= b && n <= |input| && Known(input, n, p.streams, p.records + [r], b, w)
    ensures Known(input, n, ReadOne(p, r, b, w).streams, ReadOne(p, r, b, w).records, b, w)
  {
    hide Known, SaveAll, SortByKey, Sorted, StablePermutation;
    var records := p.records + [r];
    if |records| >= b {
      SortFacts(records);
      KnownSort(input, n, p.streams, records, b, w);
      KnownWriteAll(input, n, p.streams, SortByKey(records), w, b, w);
    }
  }

  // ----- What an overtaken record does -----

  /** The output takes no more records with a late key, and the misordered file only grows. */
  ghost predicate Extends(s: Streams, s': Streams) {
    && |s.misordered| <= |s'.misordered| && s'.misordered[..|s.misordered|] == s.misordered
    && forall k :: IsLate(s, k) ==> IsLate(s', k) && WithKey(s'.out, k) == WithKey(s.out, k)
  }

  lemma SaveExtends(s: Streams, x: Record)
    ensures Extends(s, Save(s, x))
  {
    hide WithKey, Less;
    if s.out != [] && !Less(x.key, s.out[|s.out| - 1].key) {
      forall k | IsLate(s, k) ensures IsLate(Save(s, x), k) && WithKey(s.out + [x], k) == WithKey(s.out, k) {
        LessThenLessEq(k, s.out[|s.out| - 1].key, x.key);
        LessEqTotal(k, x.key);
        WithKeyConcat(s.out, [x], k);
        WithKeyOne(x, k);
      }
    }
  }

  lemma ExtendsTransitive(a: Streams, b: Streams, c: Streams)
    requires Extends(a, b) && Extends(b, c)
    ensures Extends(a, c)
  {
    hide WithKey, IsLate;
    assert c.misordered[..|a.misordered|] == b.misordered[..|a.misordered|];
  }

  lemma {:induction false} SaveAllExtends(s: Streams, records: seq<Record>)
    ensures Extends(s, SaveAll(s, records))
    decreases |records|
  {
    if records != [] {
      var front, last := records[..|records| - 1], records[|records| - 1];
      SaveAllExtends(s, front);
      SaveExtends(SaveAll(s, front), last);
      ExtendsTransitive(s, SaveAll(s, front), SaveAll(s, records));
    }
  }

  lemma ReadExtends(p: Pass, r: Record, b: nat, w: nat)
    requires 1 <= w <= b
    ensures Extends(p.streams, ReadOne(p, r, b, w).streams)
  {
    SaveAllExtends(p.streams, []);
    SortFacts(p.records + [r]);
    hide Extends, SortByKey;
    if |p.records| + 1 >= b {
      SaveAllExtends(p.streams, SortByKey(p.records + [r])[..w]);
    }
  }

  lemma {:induction false} PassExtends(input: seq<Record>, n: nat, m: nat, b: nat, w: nat)
    requires 1 <= w <= b && n <= m <= |input|
    ensures Extends(PassOver(input[..n], b, w).streams, PassOver(input[..m], b, w).streams)
    decreases m
  {
    hide Extends, SaveAll, ReadOne;
    if n == m {
      ExtendsSelf(PassOver(input[..n], b, w).streams);
    } else {
      PassExtends(input, n, m - 1, b, w);
      PassNext(input, m - 1, b, w);
      hide PassOver;
      ReadExtends(PassOver(input[..m - 1], b, w), input[m - 1], b, w);
      ExtendsTransitive(PassOver(input[..n], b, w).streams, PassOver(input[..m - 1], b, w).streams,
                        PassOver(input[..m], b, w).streams);
    }
  }

  lemma ExtendsSelf(s: Streams)
    ensures Extends(s, s)
  {
    hide WithKey, IsLate;
  }

  lemma FirstPassExtends(input: seq<Record>, n: nat, b: nat, w: nat)
    requires 1 <= w <= b && n <= |input|
    ensures Extends(PassOver(input[..n], b, w).streams, FirstPassOf(input, b, w))
  {
    PassExtends(input, n, |input|, b, w);
    assert input[..|input|] == input;
    hide Extends, SaveAll, PassOver;
    var p := PassOver(input, b, w);
    SaveAllExtends(p.streams, SortByKey(p.records));
    ExtendsTransitive(PassOver(input[..n], b, w).streams, p.streams, FirstPassOf(input, b, w));
  }

  /** Once a record is written, smaller keys are late. */
  lemma WrittenMakesLate(input: seq<Record>, i: nat, n: nat, k: Key, b: nat, w: nat)
    requires 1 <= w <= b && n <= |input| && IsWritten(input, i, n, b, w) && Less(k, input[i].key)
    ensures IsLate(PassOver(input[..n], b, w).streams, k)
  {
    PassFacts(input, n, b, w);
    hide PassOver;
    var p, key := PassOver(input[..n], b, w), input[i].key;
    WrittenIsSomewhere(input, i, n, p);
    hide Gone, WithKey;
    var last := p.streams.out[|p.streams.out| - 1];
    if r :| r in p.streams.out && r.key == key {
      LastIsGreatest(p.streams.out, r);
      LessThenLessEq(k, key, last.key);
    } else {
      KeyOrder(k, key, last.key);
    }
  }

  /** A record with the key of a written record is in one of the files. */
  lemma WrittenIsSomewhere(input: seq<Record>, i: nat, n: nat, p: Pass)
    requires Gone(input, i, n, p.records) && PassInvariant(input[..n], p.streams, p.records)
    ensures (exists r :: r in p.streams.out && r.key == input[i].key) ||
            (exists r :: r in p.streams.misordered && r.key == input[i].key)
  {
    var k := input[i].key;
    WithKeyMembers(p.streams.out, k);
    WithKeyMembers(p.streams.misordered, k);
    assert input[..n] == input[..i] + input[i..n];
    WithKeyConcat(input[..i], input[i..n], k);
    assert WithKey(p.streams.out, k) + WithKey(p.streams.misordered, k) + WithKey(p.records, k)
        == WithKey(input[..n], k);
    if WithKey(p.streams.out, k) != [] {
      assert WithKey(p.streams.out, k)[0] in WithKey(p.streams.out, k);
    } else {
      assert WithKey(p.streams.misordered, k) != [];
      assert WithKey(p.streams.misordered, k)[0] in WithKey(p.streams.misordered, k);
    }
  }

  lemma Conserved(done: seq<Record>, s: Streams, records: seq<Record>, k: Key)
    requires PassInvariant(done, s, records)
    ensures |WithKey(s.out, k)| + |WithKey(s.misordered, k)| + |WithKey(records, k)| == |WithKey(done, k)|
  {
    hide WithKey;
    assert WithKey(s.out, k) + WithKey(s.misordered, k) + WithKey(records, k) == WithKey(done, k);
  }

  lemma Occurs(s: seq<Record>, k: Key)
    requires |WithKey(s, k)| > 0
    ensures exists r :: r in s && r.key == k
  {
    WithKeyMembers(s, k);
    assert WithKey(s, k)[0] in WithKey(s, k);
  }

  /** Of the records with a late key only those read before can be in the output, now or later. */
  lemma LateOutput(input: seq<Record>, j: nat, k: Key, s: Streams, b: nat, w: nat)
    requires 1 <= w <= b && j <= |input| && IsLate(PassOver(input[..j], b, w).streams, k)
    requires Extends(PassOver(input[..j], b, w).streams, s)
    ensures IsLate(s, k) && |WithKey(s.out, k)| <= |WithKey(input[..j], k)|
    ensures |WithKey(s.out, k)| +
            |WithKey(PassOver(input[..j], b, w).streams.misordered, k)| <= |WithKey(input[..j], k)|
  {
    PassFacts(input, j, b, w);
    hide PassOver, WithKey, IsLate, PassInvariant;
    var p := PassOver(input[..j], b, w);
    Conserved(input[..j], p.streams, p.records, k);
  }

  /** An overtaken record goes to the misordered file. */
  lemma OvertakenIsMisordered(input: seq<Record>, i: nat, j: nat, m: nat, b: nat, w: nat)
    requires 1 <= w <= b && Overtakes(input, i, j, b, w) && m <= |input| && IsWritten(input, j, m, b, w)
    ensures exists r :: r in PassOver(input[..m], b, w).streams.misordered && r.key == input[j].key
  {
    var k := input[j].key;
    WrittenMakesLate(input, i, j, k, b, w);
    PassExtends(input, j, m, b, w);
    PassFacts(input, m, b, w);
    hide PassOver, IsLate, Extends, WithKey, PassInvariant, OrderedAtDistance, Ahead, Less;
    var p := PassOver(input[..m], b, w);
    LateOutput(input, j, k, p.streams, b, w);
    assert input[..m] == input[..j] + input[j..m];
    WithKeyConcat(input[..j], input[j..m], k);
    Conserved(input[..m], p.streams, p.records, k);
    Occurs(p.streams.misordered, k);
  }

  /** An overtaken record comes after what the misordered file holds when it is read. */
  lemma OvertakenIsAppended(input: seq<Record>, i: nat, j: nat, b: nat, w: nat)
    requires 1 <= w <= b && Overtakes(input, i, j, b, w)
    ensures Extends(PassOver(input[..j], b, w).streams, FirstPassOf(input, b, w))
    ensures exists r :: r in FirstPassOf(input, b, w).misordered[|PassOver(input[..j], b, w).streams.misordered|..]
                        && r.key == input[j].key
  {
    var k := input[j].key;
    WrittenMakesLate(input, i, j, k, b, w);
    FirstPassExtends(input, j, b, w);
    FirstPassFacts(input, b, w);
    hide PassOver, FirstPassOf, IsLate, WithKey, PassInvariant, OrderedAtDistance, IsWritten;
    var s, p := FirstPassOf(input, b, w), PassOver(input[..j], b, w);
    LateOutput(input, j, k, s, b, w);
    var n := |p.streams.misordered|;
    assert s.misordered == p.streams.misordered + s.misordered[n..];
    hide Extends;
    WithKeyConcat(p.streams.misordered, s.misordered[n..], k);
    MoreWithKey(input, j);
    Conserved(input, s, [], k);
    WithKeyNone([], k);
    Occurs(s.misordered[n..], k);
  }

  lemma MoreWithKey(input: seq<Record>, j: nat)
    requires j < |input|
    ensures |WithKey(input[..j], input[j].key)| < |WithKey(input, input[j].key)|
  {
    hide WithKey;
    var k := input[j].key;
    assert input == input[..j] + ([input[j]] + input[j + 1..]);
    WithKeyConcat(input[..j], [input[j]] + input[j + 1..], k);
    WithKeyConcat([input[j]], input[j + 1..], k);
    WithKeyOne(input[j], k);
  }

  // ----- The exact conditions -----

  lemma FinalKnown(input: seq<Record>, b: nat, w: nat)
    requires 1 <= w <= b
    ensures Known(input, |input|, FirstPassOf(input, b, w), [], b, w)
  {
    KnownAfter(input, |input|, b, w);
    assert input[..|input|] == input;
    hide Known, PassOver, SaveAll, SortByKey, Sorted;
    var p := PassOver(input, b, w);
    SortFacts(p.records);
    KnownSort(input, |input|, p.streams, p.records, b, w);
    var sorted := SortByKey(p.records);
    KnownWriteAll(input, |input|, p.streams, sorted, |sorted|, b, w);
    assert sorted[..|sorted|] == sorted && sorted[|sorted|..] == [];
  }

  /** The first pass misorders something exactly when some record overtakes a later one. */
  lemma MisorderedExactly(input: seq<Record>, b: nat, w: nat)
    requires 1 <= w <= b
    ensures FirstPassOf(input, b, w).misordered != [] <==> exists i, j :: Overtakes(input, i, j, b, w)
  {
    FinalKnown(input, b, w);
    hide FirstPassOf, Overtakes;
    var s := FirstPassOf(input, b, w);
    if s.misordered != [] {
      assert s.misordered[0] in s.misordered;
    }
    if i, j :| Overtakes(input, i, j, b, w) {
      OvertakenIsAppended(input, i, j, b, w);
    }
  }

  /** A chain leaves the greater of two misordered records in front of the smaller. */
  lemma ChainIsFault(input: seq<Record>, i: nat, j: nat, l: nat, b: nat, w: nat)
    requires 1 <= w <= b && Overtakes(input, i, j, b, w) && Overtakes(input, j, l, b, w)
    ensures !Sorted(FirstPassOf(input, b, w).misordered)
  {
    OvertakenIsMisordered(input, i, j, l, b, w);
    OvertakenIsAppended(input, j, l, b, w);
    hide PassOver, FirstPassOf, IsWritten;
    NotSorted(PassOver(input[..l], b, w).streams.misordered, FirstPassOf(input, b, w).misordered, input[j].key,
              input[l].key) by { hide WithKey, IsLate; }
  }

  lemma NotSorted(front: seq<Record>, all: seq<Record>, great: Key, small: Key)
    requires |front| <= |all| && all[..|front|] == front && Less(small, great)
    requires exists r :: r in front && r.key == great
    requires exists r :: r in all[|front|..] && r.key == small
    ensures !Sorted(all)
  {
    hide Less;
    var c :| 0 <= c < |front| && front[c].key == great;
    var e :| 0 <= e < |all[|front|..]| && all[|front|..][e].key == small;
    assert all[..|front|][c] == all[c] && all[|front| + e] == all[|front|..][e];
    assert !LessEq(all[c].key, all[|front| + e].key);
  }

  /**
   * The file that sortfiledata leaves is sorted exactly when no record that has been overtaken overtakes
   * another one.
   */
  lemma SortedExactly(input: seq<Record>, b: nat, w: nat)
    requires 1 <= w <= b
    ensures SortFileOf(input, b, w) == SortByKey(input) <==>
            !exists i, j, l :: Overtakes(input, i, j, b, w) && Overtakes(input, j, l, b, w)
  {
    FinalKnown(input, b, w);
    SortFileFacts(input, b, w);
    hide FirstPassOf, SortFileOf, SortByKey, Sorted;
    if i, j, l :| Overtakes(input, i, j, b, w) && Overtakes(input, j, l, b, w) {
      ChainIsFault(input, i, j, l, b, w);
    }
  }
}
