/** Inputs that reach the limits of sortfiledata, for every buffer size and write batch size. */
module SorterLimits {
  import opened RecordOrder
  import opened LogSorter

  function Copies(r: Record, count: nat): seq<Record> {
    seq(count, _ => r)
  }

  // ----- Runs of the first pass -----

  /** Records that do not fill the buffer are only added to it. */
  lemma {:induction false} PassFill(a: seq<Record>, block: seq<Record>, b: nat, w: nat)
    requires 1 <= w <= b && |PassOver(a, b, w).records| + |block| < b
    ensures PassOver(a + block, b, w) == Pass(PassOver(a, b, w).streams, PassOver(a, b, w).records + block)
    decreases |block|
  {
    if block == [] {
      assert a + block == a;
    } else {
      var front := block[..|block| - 1];
      assert (a + block)[..|a + block| - 1] == a + front;
      PassFill(a, front, b, w);
    }
  }

  /** Records that just fill the buffer flush it. */
  lemma PassFlush(a: seq<Record>, block: seq<Record>, b: nat, w: nat)
    requires 1 <= w <= b && block != [] && |PassOver(a, b, w).records| + |block| == b
    ensures var p := PassOver(a, b, w);
            var sorted := SortByKey(p.records + block);
            |sorted| == b && PassOver(a + block, b, w) == Pass(SaveAll(p.streams, sorted[..w]), sorted[w..])
  {
    hide *;
    var front, last := block[..|block| - 1], block[|block| - 1];
    PassFill(a, front, b, w);
    Reassociate(a, block);
    PassAppend(a + front, last, b, w);
    Reassociate(PassOver(a, b, w).records, block);
    FullBuffer(Pass(PassOver(a, b, w).streams, PassOver(a, b, w).records + front), last, b, w);
  }

  lemma Reassociate(a: seq<Record>, block: seq<Record>)
    requires block != []
    ensures (a + block[..|block| - 1]) + [block[|block| - 1]] == a + block
  {
  }

  lemma PassAppend(a: seq<Record>, r: Record, b: nat, w: nat)
    requires 1 <= w <= b
    ensures PassOver(a + [r], b, w) == ReadOne(PassOver(a, b, w), r, b, w)
  {
    assert (a + [r])[..|a|] == a;
  }

  lemma FullBuffer(p: Pass, r: Record, b: nat, w: nat)
    requires 1 <= w <= b && |p.records| + 1 == b
    ensures var sorted := SortByKey(p.records + [r]);
            |sorted| == b && ReadOne(p, r, b, w) == Pass(SaveAll(p.streams, sorted[..w]), sorted[w..])
  {
    hide SortByKey, SaveAll;
    SortFacts(p.records + [r]);
  }

  lemma {:induction false} SaveAllConcat(s: Streams, x: seq<Record>, y: seq<Record>)
    ensures SaveAll(s, x + y) == SaveAll(SaveAll(s, x), y)
    decreases |y|
  {
    if y == [] {
      assert x + y == x;
    } else {
      assert (x + y)[..|x + y| - 1] == x + y[..|y| - 1];
      SaveAllConcat(s, x, y[..|y| - 1]);
    }
  }

  lemma SortedParts(s: seq<Record>, w: nat)
    requires Sorted(s) && w <= |s|
    ensures Sorted(s[..w]) && Sorted(s[w..])
  {
    hide LessEq;
  }

  /** Flushing the first records of a sorted buffer and then all others writes them all in order. */
  lemma FlushInParts(s: Streams, sorted: seq<Record>, w: nat)
    requires Sorted(sorted) && w <= |sorted|
    ensures SaveAll(SaveAll(s, sorted[..w]), SortByKey(sorted[w..])) == SaveAll(s, sorted)
  {
    hide Sorted, SaveAll, SortByKey;
    SortedParts(sorted, w);
    SortedOnce(sorted[w..]);
    SaveAllConcat(s, sorted[..w], sorted[w..]);
    assert sorted[..w] + sorted[w..] == sorted;
  }

  /** With the last record the whole sorted buffer goes out, whether or not it is full. */
  lemma LastRead(a: seq<Record>, r: Record, b: nat, w: nat)
    requires 1 <= w <= b
    ensures var p := PassOver(a, b, w);
            FirstPassOf(a + [r], b, w) == SaveAll(p.streams, SortByKey(p.records + [r]))
  {
    var p := PassOver(a, b, w);
    PassAppend(a, r, b, w);
    hide SortByKey, SaveAll, PassOver, WithKey, Sorted, StablePermutation;
    SortFacts(p.records + [r]);
    if |p.records| + 1 >= b {
      FlushInParts(p.streams, SortByKey(p.records + [r]), w);
    }
  }

  lemma SortedOnce(s: seq<Record>)
    requires Sorted(s)
    ensures SortByKey(s) == s
  {
    SortFacts(s);
    StableSortUnique(SortByKey(s), s);
  }

  // ----- Copies of a record and one with a smaller key -----

  lemma {:induction false} CopiesWithKey(r: Record, count: nat, k: Key)
    ensures WithKey(Copies(r, count), k) == if k == r.key then Copies(r, count) else []
    decreases count
  {
    if count > 0 {
      assert Copies(r, count)[..count - 1] == Copies(r, count - 1);
      CopiesWithKey(r, count - 1, k);
    }
  }

  /** The smaller record moves to the front of the sorted buffer. */
  lemma SortLate(y: Record, z: Record, n: nat, m: nat)
    requires Less(y.key, z.key)
    ensures SortByKey(Copies(z, n) + ([y] + Copies(z, m))) == [y] + Copies(z, n + m)
  {
    hide SortByKey, WithKey, Sorted, Less, LessEq;
    var s, t := Copies(z, n) + ([y] + Copies(z, m)), [y] + Copies(z, n + m);
    forall k ensures WithKey(t, k) == WithKey(s, k) {
      LateStable(y, z, n, m, k);
    }
    LateSorted(y, z, n + m);
    SortFacts(s);
    StableSortUnique(SortByKey(s), t);
  }

  lemma LateStable(y: Record, z: Record, n: nat, m: nat, k: Key)
    requires Less(y.key, z.key)
    ensures WithKey([y] + Copies(z, n + m), k) == WithKey(Copies(z, n) + ([y] + Copies(z, m)), k)
  {
    LessEqTotal(y.key, z.key);
    hide WithKey, Less, LessEq;
    WithKeyConcat(Copies(z, n), [y] + Copies(z, m), k);
    WithKeyConcat([y], Copies(z, m), k);
    WithKeyConcat([y], Copies(z, n + m), k);
    WithKeyOne(y, k);
    CopiesWithKey(z, n, k);
    CopiesWithKey(z, m, k);
    CopiesWithKey(z, n + m, k);
    assert Copies(z, n) + Copies(z, m) == Copies(z, n + m);
  }

  lemma LateSorted(y: Record, z: Record, m: nat)
    requires Less(y.key, z.key)
    ensures Sorted([y] + Copies(z, m))
  {
    LessEqTotal(y.key, z.key);
    LessEqTotal(z.key, z.key);
    hide LessEq, Less;
  }

  /** After a greater record has been written, the smaller record is misordered and the others go out. */
  lemma {:induction false} SaveLate(s: Streams, y: Record, z: Record, count: nat)
    requires Less(y.key, z.key) && s.out != [] && s.out[|s.out| - 1] == z
    ensures SaveAll(s, [y] + Copies(z, count)) == Streams(s.out + Copies(z, count), s.misordered + [y])
    decreases count
  {
    LessEqTotal(z.key, z.key);
    var block := [y] + Copies(z, count);
    if count == 0 {
      assert block[..0] == [] && block == [y] && s.out + Copies(z, 0) == s.out;
    } else {
      assert block[..count] == [y] + Copies(z, count - 1) && block[count] == z;
      SaveLate(s, y, z, count - 1);
      assert s.out + Copies(z, count - 1) + [z] == s.out + Copies(z, count);
    }
  }

  // ----- The distance bound is the best possible -----

  /** Writing the first records of a sorted first buffer leaves them as the output. */
  lemma FirstFlush(block: seq<Record>, b: nat, w: nat)
    requires 1 <= w <= b == |block| && Sorted(block)
    ensures PassOver(block, b, w) == Pass(Streams(block[..w], []), block[w..])
  {
    assert PassOver([], b, w) == Pass(Streams([], []), []);
    assert Ahead([], block[..w]);
    hide *;
    PassFlush([], block, b, w);
    SortedOnce(block);
    SortedParts(block, w);
    SaveAllInOrder(Streams([], []), block[..w]);
    Prepend(block);
    Prepend(block[..w]);
  }

  lemma Prepend(s: seq<Record>)
    ensures [] + s == s
  {
  }

  /** W - 1 small records, then B - W + 1 great ones, then one between. */
  function TightInput(x: Record, y: Record, z: Record, b: nat, w: nat): seq<Record>
    requires 1 <= w <= b
  {
    Copies(x, w - 1) + Copies(z, b - w + 1) + [y]
  }

  lemma TightOrder(x: Record, y: Record, z: Record, b: nat, w: nat)
    requires 1 <= w <= b && Less(x.key, y.key) && Less(y.key, z.key)
    ensures OrderedAtDistance(TightInput(x, y, z, b, w), b - w + 2)
    ensures Sorted(Copies(x, w - 1) + Copies(z, b - w + 1))
  {
    LessEqTotal(x.key, y.key);
    LessEqTotal(x.key, x.key);
    LessEqTotal(z.key, z.key);
    LessEqTransitive(x.key, y.key, z.key) by { LessEqTotal(y.key, z.key); }
    hide Less, LessEq;
  }

  /** At the next larger distance an input exists, of any records with three different keys, that is misordered. */
  lemma DistanceIsTight(x: Record, y: Record, z: Record, b: nat, w: nat)
    requires 1 <= w <= b && Less(x.key, y.key) && Less(y.key, z.key)
    ensures OrderedAtDistance(TightInput(x, y, z, b, w), b - w + 2)
    ensures FirstPassOf(TightInput(x, y, z, b, w), b, w).misordered == [y]
  {
    hide SortByKey, SaveAll, PassOver, WithKey, LessEq, Less;
    var block := Copies(x, w - 1) + Copies(z, b - w + 1);
    TightOrder(x, y, z, b, w);
    hide Sorted, OrderedAtDistance;
    FirstFlush(block, b, w);
    assert block[w..] == Copies(z, b - w) && block[..w][w - 1] == z;
    LastRead(block, y, b, w);
    SortLate(y, z, b - w, 0);
    assert Copies(z, b - w) + ([y] + Copies(z, 0)) == Copies(z, b - w) + [y];
    SaveLate(Streams(block[..w], []), y, z, b - w);
  }

  // ----- The misordered file can be unsorted -----

  /** B great records, one of the middle, W - 1 more great ones, and a small one. */
  function UnsortedInput(x: Record, y: Record, z: Record, b: nat, w: nat): seq<Record>
    requires 1 <= w <= b
  {
    Copies(z, b) + ([y] + Copies(z, w - 1)) + [x]
  }

  /**
   * For all sizes and any records with three different keys an input exists that sortfiledata does not
   * sort: its misordered records come in the wrong order.
   */
  lemma SortCanFail(x: Record, y: Record, z: Record, b: nat, w: nat)
    requires 1 <= w <= b && Less(x.key, y.key) && Less(y.key, z.key)
    ensures FirstPassOf(UnsortedInput(x, y, z, b, w), b, w).misordered == [y, x]
    ensures SortFileOf(UnsortedInput(x, y, z, b, w), b, w) != SortByKey(UnsortedInput(x, y, z, b, w))
  {
    hide *;
    UnsortedMiddle(y, z, b, w);
    KeyOrder(x.key, y.key, z.key);
    UnsortedEnd(Copies(z, b) + ([y] + Copies(z, w - 1)), x, y, z, b, w);
    UnsortedPair(x, y);
    SortFileFacts(Copies(z, b) + ([y] + Copies(z, w - 1)) + [x], b, w);
    UnsortedInputIs(x, y, z, b, w);
  }

  lemma UnsortedInputIs(x: Record, y: Record, z: Record, b: nat, w: nat)
    requires 1 <= w <= b
    ensures UnsortedInput(x, y, z, b, w) == Copies(z, b) + ([y] + Copies(z, w - 1)) + [x]
  {
  }

  /** Up to its last record: the record of the middle has been misordered. */
  lemma UnsortedMiddle(y: Record, z: Record, b: nat, w: nat)
    requires 1 <= w <= b && Less(y.key, z.key)
    ensures PassOver(Copies(z, b) + ([y] + Copies(z, w - 1)), b, w) ==
            Pass(Streams(Copies(z, 2 * w - 1), [y]), Copies(z, b - w))
  {
    hide SortByKey, SaveAll, PassOver;
    UnsortedHead(z, b, w);
    PassFlush(Copies(z, b), [y] + Copies(z, w - 1), b, w);
    SortLate(y, z, b - w, w - 1);
    var sorted := [y] + Copies(z, b - 1);
    assert sorted[..w] == [y] + Copies(z, w - 1) && sorted[w..] == Copies(z, b - w);
    SaveLate(Streams(Copies(z, w), []), y, z, w - 1);
    assert Copies(z, w) + Copies(z, w - 1) == Copies(z, 2 * w - 1);
    Prepend([y]);
  }

  lemma UnsortedHead(z: Record, b: nat, w: nat)
    requires 1 <= w <= b
    ensures PassOver(Copies(z, b), b, w) == Pass(Streams(Copies(z, w), []), Copies(z, b - w))
  {
    LessEqTotal(z.key, z.key);
    hide SortByKey, SaveAll, PassOver, LessEq;
    assert Sorted(Copies(z, b));
    FirstFlush(Copies(z, b), b, w);
    assert Copies(z, b)[w..] == Copies(z, b - w) && Copies(z, b)[..w] == Copies(z, w);
  }

  /** The last record is misordered after it, although its key is smaller. */
  lemma UnsortedEnd(a: seq<Record>, x: Record, y: Record, z: Record, b: nat, w: nat)
    requires 1 <= w <= b && Less(x.key, z.key)
    requires PassOver(a, b, w) == Pass(Streams(Copies(z, 2 * w - 1), [y]), Copies(z, b - w))
    ensures FirstPassOf(a + [x], b, w).misordered == [y, x]
  {
    hide SortByKey, SaveAll, PassOver, FirstPassOf, WithKey, LessEq, Less;
    LastRead(a, x, b, w);
    SortLate(x, z, b - w, 0);
    assert Copies(z, b - w) + ([x] + Copies(z, 0)) == Copies(z, b - w) + [x];
    SaveLate(Streams(Copies(z, 2 * w - 1), [y]), x, z, b - w);
    assert [y] + [x] == [y, x];
  }

  lemma UnsortedPair(x: Record, y: Record)
    requires Less(x.key, y.key)
    ensures !Sorted([y, x])
  {
    assert !LessEq([y, x][0].key, [y, x][1].key);
  }
}
