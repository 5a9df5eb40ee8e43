/**
 * When a record leaves the buffer of sortfiledata, computed from the keys of the input alone: how many
 * records are in front of it. With that the condition under which the result is sorted needs no run.
 */
module SorterBacklog {
  import opened Arithmetic
  import opened Totals
  import opened RecordOrder
  import opened LogSorter
  import opened SorterChains

  /** The buffer is flushed after `b` records and then after every `w` more. */
  predicate Flushes(n: nat, b: nat, w: nat)
    requires 1 <= w <= b
  {
    n >= b && (n - b) % w == 0
  }

  /** Record `p` goes out before record `i` when both are in the buffer. */
  predicate Precedes(input: seq<Record>, p: nat, i: nat)
    requires p < |input| && i < |input|
  {
    Less(input[p].key, input[i].key) || (input[p].key == input[i].key && p < i)
  }

  function LessFlushed(count: nat, n: nat, b: nat, w: nat): nat
    requires 1 <= w <= b
  {
    if !Flushes(n, b, w) then count else if count > w then count - w else 0
  }

  /** The records in front of record `i` in the buffer after reading `n` records, before the flush that may follow. */
  function InFront(input: seq<Record>, i: nat, n: nat, b: nat, w: nat): nat
    requires 1 <= w <= b && i < |input| && n <= |input|
  {
    if n == 0 then 0
    else
      LessFlushed(InFront(input, i, n - 1, b, w), n - 1, b, w) + if Precedes(input, n - 1, i) then 1 else 0
  }

  /** A flush after record `i` has been read, and when at most `n` have been, reaches it. */
  predicate IsReached(input: seq<Record>, i: nat, n: nat, b: nat, w: nat)
    requires 1 <= w <= b && i < |input| && n <= |input|
  {
    exists m :: i < m <= n && Flushes(m, b, w) && InFront(input, i, m, b, w) < w
  }

  // ----- The size of the buffer -----

  function SizeAfter(n: nat, b: nat, w: nat): int
    requires 1 <= w <= b
  {
    if n < b then n else b - w + (n - b) % w
  }

  lemma SizeNext(n: nat, b: nat, w: nat)
    requires 1 <= w <= b
    ensures Flushes(n + 1, b, w) <==> SizeAfter(n, b, w) + 1 >= b
    ensures SizeAfter(n + 1, b, w) == if Flushes(n + 1, b, w) then b - w else SizeAfter(n, b, w) + 1
  {
    if n + 1 == b {
      MulDiv(w, 0);
    } else if n >= b {
      NextRemainder(n - b, w);
    }
  }

  lemma ReadSize(p: Pass, r: Record, b: nat, w: nat)
    requires 1 <= w <= b
    ensures |ReadOne(p, r, b, w).records| == |p.records| + 1 - if |p.records| + 1 >= b then w else 0
  {
    hide SaveAll, SortByKey;
    SortFacts(p.records + [r]);
  }

  lemma SizeFacts(n: nat, b: nat, w: nat)
    requires 1 <= w <= b
    ensures 0 <= SizeAfter(n, b, w) < b && SizeAfter(0, b, w) == 0
  {
  }

  lemma {:induction false} BufferSize(input: seq<Record>, n: nat, b: nat, w: nat)
    requires 1 <= w <= b && n <= |input|
    ensures |PassOver(input[..n], b, w).records| == SizeAfter(n, b, w)
    decreases n
  {
    hide SizeAfter, Flushes, ReadOne;
    if n == 0 {
      assert PassOver(input[..0], b, w).records == [];
      SizeFacts(0, b, w);
    } else {
      BufferSize(input, n - 1, b, w);
      PassNext(input, n - 1, b, w);
      SizeNext(n - 1, b, w);
      SizeFacts(n - 1, b, w);
      ReadSize(PassOver(input[..n - 1], b, w), input[n - 1], b, w);
    }
  }

  /** A flush comes just when the buffer is full. */
  lemma FlushesWhenFull(input: seq<Record>, n: nat, b: nat, w: nat)
    requires 1 <= w <= b && n < |input|
    ensures |PassOver(input[..n], b, w).records| + 1 >= b <==> Flushes(n + 1, b, w)
  {
    BufferSize(input, n, b, w);
    SizeNext(n, b, w);
  }

  // ----- Counting keys -----

  predicate UpTo(r: Record, k: Key, equal: bool) {
    Less(r.key, k) || (equal && r.key == k)
  }

  /** 1 for keys less than `k`, or at most `k`. */
  function One(k: Key, equal: bool): Record -> int {
    (r: Record) => if UpTo(r, k, equal) then 1 else 0
  }

  ghost function Count(s: seq<Record>, k: Key, equal: bool): int {
    Total(s, One(k, equal))
  }

  lemma {:induction false} CountNone(s: seq<Record>, k: Key, equal: bool)
    ensures Count(s, k, equal) >= 0
    ensures (forall r :: r in s ==> !UpTo(r, k, equal)) ==> Count(s, k, equal) == 0
    decreases |s|
  {
    if s != [] {
      CountNone(s[..|s| - 1], k, equal);
      assert s[|s| - 1] in s;
    }
  }

  lemma {:induction false} CountSplit(s: seq<Record>, k: Key)
    ensures Count(s, k, true) == Count(s, k, false) + |WithKey(s, k)|
    decreases |s|
  {
    if s != [] {
      CountSplit(s[..|s| - 1], k);
      LessEqTotal(s[|s| - 1].key, k);
    }
  }

  /** The first of the sorted records counts when any does. */
  lemma CountTail(s: seq<Record>, k: Key, equal: bool)
    requires Sorted(s) && s != []
    ensures Count(s[1..], k, equal) == if Count(s, k, equal) > 0 then Count(s, k, equal) - 1 else 0
  {
    hide Less;
    assert s == [s[0]] + s[1..];
    TotalConcat([s[0]], s[1..], One(k, equal));
    TotalOne(s[0], One(k, equal));
    CountNone(s[1..], k, equal);
    if !UpTo(s[0], k, equal) {
      forall r | r in s[1..] ensures !UpTo(r, k, equal) {
        LessEqTransitive(k, s[0].key, r.key) by { LessEqTotal(s[0].key, k); }
        LessEqTotal(s[0].key, k);
      }
    }
  }

  lemma {:induction false} CountDrop(s: seq<Record>, w: nat, k: Key, equal: bool)
    requires Sorted(s) && w <= |s|
    ensures Count(s[w..], k, equal) == if Count(s, k, equal) > w then Count(s, k, equal) - w else 0
    decreases w
  {
    hide Count, LessEq;
    CountNone(s, k, equal);
    if w == 0 {
      assert s[0..] == s;
    } else {
      CountDrop(s, w - 1, k, equal);
      assert s[w - 1..][1..] == s[w..];
      CountTail(s[w - 1..], k, equal);
    }
  }

  lemma CountSort(s: seq<Record>, k: Key, equal: bool)
    ensures Count(SortByKey(s), k, equal) == Count(s, k, equal)
  {
    SortFacts(s);
    StableIsPermutation(SortByKey(s), s);
    TotalPermutation(SortByKey(s), s, One(k, equal));
  }

  // ----- What the numbers say about the buffer -----

  /** The records from record `i` on with its key, among the first `n`. */
  ghost function Since(input: seq<Record>, i: nat, n: nat): nat
    requires i < |input| && n <= |input|
  {
    if n <= i then 0 else |WithKey(input[i..n], input[i].key)|
  }

  /** Until record `i` goes out it has `front` records in front of it, and all with its key since then are there. */
  ghost predicate Holds(input: seq<Record>, i: nat, n: nat, records: seq<Record>, front: nat)
    requires i < |input| && n <= |input|
  {
    && Count(records, input[i].key, true) == front + Since(input, i, n)
    && |WithKey(records, input[i].key)| >= Since(input, i, n)
  }

  lemma HoldsRead(input: seq<Record>, i: nat, n: nat, records: seq<Record>, front: nat)
    requires i < |input| && n < |input| && Holds(input, i, n, records, front)
    ensures Holds(input, i, n + 1, records + [input[n]], front + if Precedes(input, n, i) then 1 else 0)
  {
    var k := input[i].key;
    SinceNext(input, i, n);
    WithKeyConcat(records, [input[n]], k);
    WithKeyOne(input[n], k);
    TotalConcat(records, [input[n]], One(k, true));
    TotalOne(input[n], One(k, true));
    LessEqTotal(input[n].key, k);
    hide WithKey, Less;
  }

  lemma SinceNext(input: seq<Record>, i: nat, n: nat)
    requires i < |input| && n < |input|
    ensures Since(input, i, n + 1) == Since(input, i, n) + if n >= i && input[n].key == input[i].key then 1 else 0
  {
    WithKeyOne(input[n], input[i].key);
    if n >= i {
      assert input[i..n + 1] == input[i..n] + [input[n]];
      WithKeyConcat(input[i..n], [input[n]], input[i].key);
      assert input[i..i] == [];
    }
  }

  /** What flushing leaves of the counts. */
  lemma FlushCounts(records: seq<Record>, k: Key, w: nat)
    requires w <= |SortByKey(records)|
    ensures var rest := SortByKey(records)[w..];
            && Count(rest, k, true) == (if Count(records, k, true) > w then Count(records, k, true) - w else 0)
            && Count(rest, k, false) == (if Count(records, k, false) > w then Count(records, k, false) - w else 0)
            && |WithKey(rest, k)| == Count(rest, k, true) - Count(rest, k, false)
            && |WithKey(records, k)| == Count(records, k, true) - Count(records, k, false)
            && Count(records, k, false) >= 0
  {
    hide SortByKey, Count, WithKey;
    SortFacts(records);
    CountDrop(SortByKey(records), w, k, true);
    CountDrop(SortByKey(records), w, k, false);
    CountSort(records, k, true);
    CountSort(records, k, false);
    CountSplit(SortByKey(records)[w..], k);
    CountSplit(records, k);
    CountNone(records, k, false);
  }

  /** A flush either takes record `i` along, when fewer than `w` are in front of it, or takes `w` of those. */
  lemma HoldsFlush(input: seq<Record>, i: nat, n: nat, records: seq<Record>, front: nat, w: nat)
    requires i < |input| && n <= |input| && Holds(input, i, n, records, front) && w <= |SortByKey(records)|
    ensures n <= i || front >= w ==>
              Holds(input, i, n, SortByKey(records)[w..], if front > w then front - w else 0)
    ensures n > i && front < w ==> Gone(input, i, n, SortByKey(records)[w..])
  {
    SinceOne(input, i, n);
    hide WithKey, SortByKey, Count;
    FlushCounts(records, input[i].key, w);
  }

  lemma SinceOne(input: seq<Record>, i: nat, n: nat)
    requires i < n <= |input| || (i < |input| && n <= i)
    ensures n > i ==> Since(input, i, n) >= 1
  {
    if n > i {
      assert input[i..n] == [input[i]] + input[i + 1..n];
      WithKeyConcat([input[i]], input[i + 1..n], input[i].key);
      WithKeyOne(input[i], input[i].key);
    }
  }

  /** Either a flush has reached record `i` and it is gone, or the number in front of it is right. */
  ghost predicate BacklogRight(input: seq<Record>, i: nat, n: nat, b: nat, w: nat)
    requires 1 <= w <= b && i < |input| && n <= |input|
  {
    var records := PassOver(input[..n], b, w).records;
    if IsReached(input, i, n, b, w) then Gone(input, i, n, records)
    else Holds(input, i, n, records, LessFlushed(InFront(input, i, n, b, w), n, b, w))
  }

  lemma ReachedNext(input: seq<Record>, i: nat, n: nat, b: nat, w: nat)
    requires 1 <= w <= b && i < |input| && n < |input|
    ensures IsReached(input, i, n + 1, b, w) <==>
            IsReached(input, i, n, b, w) || (i <= n && Flushes(n + 1, b, w) && InFront(input, i, n + 1, b, w) < w)
  {
    hide InFront, Flushes;
  }

  lemma BacklogStep(input: seq<Record>, i: nat, n: nat, b: nat, w: nat)
    requires 1 <= w <= b && i < |input| && n < |input| && BacklogRight(input, i, n, b, w)
    ensures BacklogRight(input, i, n + 1, b, w)
  {
    ReachedNext(input, i, n, b, w);
    if IsReached(input, i, n, b, w) {
      assert IsWritten(input, i, n, b, w);
      WrittenStays(input, i, n, n + 1, b, w);
    } else {
      PassNext(input, n, b, w);
      FlushesWhenFull(input, n, b, w);
      HoldsNext(input, i, n, PassOver(input[..n], b, w), LessFlushed(InFront(input, i, n, b, w), n, b, w), b, w);
      hide PassOver, IsReached, Holds, Gone, ReadOne, Precedes, Flushes;
    }
  }

  /** One more record is read and the buffer, when it is full then, is flushed. */
  lemma HoldsNext(input: seq<Record>, i: nat, n: nat, p: Pass, front: nat, b: nat, w: nat)
    requires 1 <= w <= b && i < |input| && n < |input| && Holds(input, i, n, p.records, front)
    ensures var before := front + if Precedes(input, n, i) then 1 else 0;
            var records := ReadOne(p, input[n], b, w).records;
            if |p.records| + 1 < b then Holds(input, i, n + 1, records, before)
            else if i <= n && before < w then Gone(input, i, n + 1, records)
            else Holds(input, i, n + 1, records, if before > w then before - w else 0)
  {
    HoldsRead(input, i, n, p.records, front);
    SortFacts(p.records + [input[n]]);
    hide Holds, Gone, SaveAll, SortByKey, Precedes, Sorted, StablePermutation;
    if |p.records| + 1 >= b {
      HoldsFlush(input, i, n + 1, p.records + [input[n]], front + if Precedes(input, n, i) then 1 else 0, w);
    }
  }

  lemma {:induction false} BacklogAfter(input: seq<Record>, i: nat, n: nat, b: nat, w: nat)
    requires 1 <= w <= b && i < |input| && n <= |input|
    ensures BacklogRight(input, i, n, b, w)
    decreases n
  {
    if n == 0 {
      assert PassOver(input[..0], b, w).records == [];
      assert Count([], input[i].key, true) == 0;
    } else {
      BacklogAfter(input, i, n - 1, b, w);
      BacklogStep(input, i, n - 1, b, w);
    }
  }

  /** A record has been written exactly when a flush has reached it. */
  lemma WrittenExactly(input: seq<Record>, i: nat, n: nat, b: nat, w: nat)
    requires 1 <= w <= b && i < |input| && n <= |input|
    ensures IsWritten(input, i, n, b, w) <==> IsReached(input, i, n, b, w)
  {
    BacklogAfter(input, i, n, b, w);
    hide PassOver, WithKey, IsReached, Count;
  }

  // ----- The exact conditions, on the input -----

  /** Record `i` is greater than the later record `j` and is reached by a flush before that is read. */
  predicate OvertakesByKeys(input: seq<Record>, i: nat, j: nat, b: nat, w: nat)
    requires 1 <= w <= b
  {
    i < j < |input| && Less(input[j].key, input[i].key) && IsReached(input, i, j, b, w)
  }

  lemma OvertakesExactly(input: seq<Record>, i: nat, j: nat, b: nat, w: nat)
    requires 1 <= w <= b
    ensures Overtakes(input, i, j, b, w) <==> OvertakesByKeys(input, i, j, b, w)
  {
    if i < j < |input| {
      WrittenExactly(input, i, j, b, w);
    }
  }

  /** No record goes to the misordered file exactly when none overtakes another. */
  lemma MisorderedByKeys(input: seq<Record>, b: nat, w: nat)
    requires 1 <= w <= b
    ensures FirstPassOf(input, b, w).misordered != [] <==> exists i, j :: OvertakesByKeys(input, i, j, b, w)
  {
    hide FirstPassOf, Overtakes, OvertakesByKeys;
    MisorderedExactly(input, b, w);
    if i, j :| Overtakes(input, i, j, b, w) {
      OvertakesExactly(input, i, j, b, w);
    }
    if i, j :| OvertakesByKeys(input, i, j, b, w) {
      OvertakesExactly(input, i, j, b, w);
    }
  }

  /**
   * sortfiledata leaves the sorted input exactly when no overtaken record overtakes another: when there are
   * no three records with falling keys of which the first is reached by a flush before the second is read,
   * and the second before the third.
   */
  lemma SortedByKeys(input: seq<Record>, b: nat, w: nat)
    requires 1 <= w <= b
    ensures SortFileOf(input, b, w) == SortByKey(input) <==>
            !exists i, j, l :: OvertakesByKeys(input, i, j, b, w) && OvertakesByKeys(input, j, l, b, w)
  {
    hide SortFileOf, SortByKey, Overtakes, OvertakesByKeys;
    SortedExactly(input, b, w);
    if i, j, l :| Overtakes(input, i, j, b, w) && Overtakes(input, j, l, b, w) {
      OvertakesExactly(input, i, j, b, w);
      OvertakesExactly(input, j, l, b, w);
    }
    if i, j, l :| OvertakesByKeys(input, i, j, b, w) && OvertakesByKeys(input, j, l, b, w) {
      OvertakesExactly(input, i, j, b, w);
      OvertakesExactly(input, j, l, b, w);
    }
  }
}
