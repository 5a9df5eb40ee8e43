/** The key order of the traffic-control log records, sortedness and stability. */
module RecordOrder {

  /**
   * A record key: the begin time, fetch time and run time as lists of character codes, then the list of
   * bucket counts. Lists are compared element by element, as Python does.
   */
  type Key = seq<seq<int>>

  /** A record with the lines of its text. */
  datatype Record = Record(key: Key, lines: seq<string>)

  predicate ElementLess(a: seq<int>, b: seq<int>) {
    b != [] && (a == [] || a[0] < b[0] || (a[0] == b[0] && ElementLess(a[1..], b[1..])))
  }

  predicate Less(a: Key, b: Key) {
    b != [] && (a == [] || ElementLess(a[0], b[0]) || (a[0] == b[0] && Less(a[1..], b[1..])))
  }

  predicate LessEq(a: Key, b: Key) {
    !Less(b, a)
  }

  lemma {:induction false} ElementOrder(a: seq<int>, b: seq<int>, c: seq<int>)
    ensures ElementLess(a, b) || a == b || ElementLess(b, a)
    ensures ElementLess(a, b) ==> !ElementLess(b, a) && a != b
    ensures ElementLess(a, b) && ElementLess(b, c) ==> ElementLess(a, c)
    decreases |a|
  {
    if a != [] && b != [] {
      ElementOrder(a[1..], b[1..], if c != [] then c[1..] else []);
      assert a == [a[0]] + a[1..] && b == [b[0]] + b[1..];
    }
  }

  lemma {:induction false} KeyOrder(a: Key, b: Key, c: Key)
    ensures Less(a, b) || a == b || Less(b, a)
    ensures Less(a, b) ==> !Less(b, a) && a != b
    ensures Less(a, b) && Less(b, c) ==> Less(a, c)
    decreases |a|
  {
    if a != [] && b != [] {
      KeyOrder(a[1..], b[1..], if c != [] then c[1..] else []);
      ElementOrder(a[0], b[0], if c != [] then c[0] else []);
      ElementOrder(b[0], a[0], []);
      assert a == [a[0]] + a[1..] && b == [b[0]] + b[1..];
    }
  }

  /** The lists agree before place `i`, where the first one has ended or has the smaller number. */
  ghost predicate SmallerAt(a: seq<int>, b: seq<int>, i: int) {
    && 0 <= i < |b| && i <= |a| && (forall k :: 0 <= k < i ==> a[k] == b[k])
    && (i == |a| || a[i] < b[i])
  }

  lemma SmallerAtNext(a: seq<int>, b: seq<int>, i: int)
    requires a != [] && b != [] && a[0] == b[0] && i > 0
    ensures SmallerAt(a, b, i) <==> SmallerAt(a[1..], b[1..], i - 1)
  {
    if SmallerAt(a[1..], b[1..], i - 1) {
      assert forall k :: 0 < k < i ==> a[k] == a[1..][k - 1] && b[k] == b[1..][k - 1];
    }
  }

  /** Lists are compared at the first place where they differ, and one that ends there comes first. */
  lemma {:induction false} ElementLessExactly(a: seq<int>, b: seq<int>)
    ensures ElementLess(a, b) <==> exists i :: SmallerAt(a, b, i)
    decreases |a|
  {
    if a != [] && b != [] && a[0] == b[0] {
      ElementLessExactly(a[1..], b[1..]);
      if i :| SmallerAt(a, b, i) {
        SmallerAtNext(a, b, i);
      }
      if i :| SmallerAt(a[1..], b[1..], i) {
        SmallerAtNext(a, b, i + 1);
      }
    } else if ElementLess(a, b) {
      assert SmallerAt(a, b, 0);
    }
  }

  /** The same for keys, by their parts. */
  ghost predicate LessAt(a: Key, b: Key, i: int) {
    && 0 <= i < |b| && i <= |a| && (forall k :: 0 <= k < i ==> a[k] == b[k])
    && (i == |a| || ElementLess(a[i], b[i]))
  }

  lemma LessAtNext(a: Key, b: Key, i: int)
    requires a != [] && b != [] && a[0] == b[0] && i > 0
    ensures LessAt(a, b, i) <==> LessAt(a[1..], b[1..], i - 1)
  {
    if LessAt(a[1..], b[1..], i - 1) {
      assert forall k :: 0 < k < i ==> a[k] == a[1..][k - 1] && b[k] == b[1..][k - 1];
    }
  }

  /** Keys are compared at the first of their parts that differs. */
  lemma {:induction false} LessExactly(a: Key, b: Key)
    ensures Less(a, b) <==> exists i :: LessAt(a, b, i)
    decreases |a|
  {
    if a != [] && b != [] && a[0] == b[0] {
      ElementOrder(a[0], b[0], []);
      LessExactly(a[1..], b[1..]);
      if i :| LessAt(a, b, i) {
        LessAtNext(a, b, i);
      }
      if i :| LessAt(a[1..], b[1..], i) {
        LessAtNext(a, b, i + 1);
      }
    } else if Less(a, b) {
      assert LessAt(a, b, 0);
    }
  }

  lemma LessEqTransitive(a: Key, b: Key, c: Key)
    requires LessEq(a, b) && LessEq(b, c)
    ensures LessEq(a, c)
  {
    KeyOrder(a, b, c);
    KeyOrder(b, c, a);
    KeyOrder(c, a, b);
  }

  lemma LessEqTotal(a: Key, b: Key)
    ensures LessEq(a, b) || LessEq(b, a)
    ensures LessEq(a, b) && LessEq(b, a) ==> a == b
    ensures Less(a, b) ==> LessEq(a, b) && a != b
    ensures LessEq(a, a)
  {
    KeyOrder(a, b, a);
    KeyOrder(b, a, b);
    KeyOrder(a, a, a);
  }

  lemma LessThenLessEq(a: Key, b: Key, c: Key)
    requires Less(a, b) && LessEq(b, c)
    ensures Less(a, c)
  {
    LessEqTotal(a, b);
    LessEqTransitive(a, b, c);
    LessEqTotal(a, c);
    LessEqTotal(b, c);
    if !Less(a, c) {
      KeyOrder(a, c, b);
      KeyOrder(c, a, b);
    }
  }

  ghost predicate Sorted(s: seq<Record>) {
    forall i, j :: 0 <= i < j < |s| ==> LessEq(s[i].key, s[j].key)
  }

  lemma SortedAppend(s: seq<Record>, r: Record)
    requires Sorted(s) && (s != [] ==> LessEq(s[|s| - 1].key, r.key))
    ensures Sorted(s + [r])
    ensures forall x :: x in s ==> LessEq(x.key, r.key)
  {
    forall i | 0 <= i < |s| ensures LessEq(s[i].key, r.key) {
      if i < |s| - 1 {
        LessEqTransitive(s[i].key, s[|s| - 1].key, r.key);
      }
    }
  }

  /** The records with key `k`, in order. */
  ghost function WithKey(s: seq<Record>, k: Key): seq<Record> {
    if s == [] then []
    else WithKey(s[..|s| - 1], k) + if s[|s| - 1].key == k then [s[|s| - 1]] else []
  }

  lemma {:induction false} WithKeyConcat(a: seq<Record>, b: seq<Record>, k: Key)
    ensures WithKey(a + b, k) == WithKey(a, k) + WithKey(b, k)
    decreases |b|
  {
    if b == [] {
      assert a + b == a;
    } else {
      var n := |b| - 1;
      assert (a + b)[..|a + b| - 1] == a + b[..n];
      WithKeyConcat(a, b[..n], k);
    }
  }

  lemma WithKeyOne(r: Record, k: Key)
    ensures WithKey([r], k) == if r.key == k then [r] else []
  {
    assert [r][..0] == [];
  }

  lemma WithKeyPop(s: seq<Record>, k: Key)
    requires s != []
    ensures var last, all := s[|s| - 1], WithKey(s, k);
            if last.key == k then all != [] && all[|all| - 1] == last && WithKey(s[..|s| - 1], k) == all[..|all| - 1]
            else WithKey(s[..|s| - 1], k) == all
  {
  }

  lemma {:induction false} WithKeyMembers(s: seq<Record>, k: Key)
    ensures forall x :: x in WithKey(s, k) <==> x in s && x.key == k
  {
    if s != [] {
      WithKeyMembers(s[..|s| - 1], k);
      assert s == s[..|s| - 1] + [s[|s| - 1]];
    }
  }

  lemma {:induction false} WithKeyNone(s: seq<Record>, k: Key)
    requires forall x :: x in s ==> x.key != k
    ensures WithKey(s, k) == []
  {
    if s != [] {
      WithKeyNone(s[..|s| - 1], k);
    }
  }

  /** The same records, and those with equal keys in the same order. */
  ghost predicate StablePermutation(a: seq<Record>, b: seq<Record>) {
    forall k :: WithKey(a, k) == WithKey(b, k)
  }

  lemma {:induction false} WithKeyCount(s: seq<Record>, x: Record)
    ensures multiset(s)[x] == multiset(WithKey(s, x.key))[x]
  {
    if s != [] {
      WithKeyCount(s[..|s| - 1], x);
      assert s == s[..|s| - 1] + [s[|s| - 1]];
    }
  }

  lemma StableIsPermutation(a: seq<Record>, b: seq<Record>)
    requires StablePermutation(a, b)
    ensures multiset(a) == multiset(b)
  {
    forall x ensures multiset(a)[x] == multiset(b)[x] {
      WithKeyCount(a, x);
      WithKeyCount(b, x);
    }
  }

  lemma SameLast(a: seq<Record>, b: seq<Record>)
    requires Sorted(a) && Sorted(b) && StablePermutation(a, b) && a != []
    ensures b != [] && a[|a| - 1] == b[|b| - 1]
  {
    StableIsPermutation(a, b);
    var x := a[|a| - 1];
    assert x in multiset(b);
    var y := b[|b| - 1];
    assert y in multiset(a);
    LastIsGreatest(b, x);
    LastIsGreatest(a, y);
    LessEqTotal(x.key, y.key);
    WithKeyPop(a, x.key);
    WithKeyPop(b, x.key);
  }

  lemma StablePop(a: seq<Record>, b: seq<Record>)
    requires StablePermutation(a, b) && a != [] && b != [] && a[|a| - 1] == b[|b| - 1]
    ensures StablePermutation(a[..|a| - 1], b[..|b| - 1])
  {
    var a', b' := a[..|a| - 1], b[..|b| - 1];
    forall k ensures WithKey(a', k) == WithKey(b', k) {
      WithKeyPop(a, k);
      WithKeyPop(b, k);
    }
  }

  /** A stable sort has only one possible result. */
  lemma {:induction false} StableSortUnique(a: seq<Record>, b: seq<Record>)
    requires Sorted(a) && Sorted(b) && StablePermutation(a, b)
    ensures a == b
    decreases |a|
  {
    if a == [] {
      StableIsPermutation(a, b);
      assert |multiset(b)| == |b|;
    } else {
      SameLast(a, b);
      StablePop(a, b);
      StableSortUnique(a[..|a| - 1], b[..|b| - 1]);
      assert a == a[..|a| - 1] + [a[|a| - 1]] && b == b[..|b| - 1] + [b[|b| - 1]];
    }
  }

  lemma LastIsGreatest(s: seq<Record>, x: Record)
    requires Sorted(s) && x in s
    ensures LessEq(x.key, s[|s| - 1].key)
  {
    LessEqTotal(x.key, x.key);
  }

  // ----- The stable sort -----

  /** Places `r` after everything that does not exceed it. */
  function Insert(s: seq<Record>, r: Record): seq<Record> {
    if s != [] && Less(r.key, s[|s| - 1].key) then Insert(s[..|s| - 1], r) + [s[|s| - 1]] else s + [r]
  }

  /** list.sort(key=...): the stable sort by key. */
  function SortByKey(s: seq<Record>): seq<Record> {
    if s == [] then [] else Insert(SortByKey(s[..|s| - 1]), s[|s| - 1])
  }

  lemma {:induction false} InsertMembers(s: seq<Record>, r: Record)
    ensures multiset(Insert(s, r)) == multiset(s) + multiset{r}
    decreases |s|
  {
    if s != [] && Less(r.key, s[|s| - 1].key) {
      InsertMembers(s[..|s| - 1], r);
      assert s == s[..|s| - 1] + [s[|s| - 1]];
    }
  }

  lemma {:induction false} InsertSorted(s: seq<Record>, r: Record)
    requires Sorted(s)
    ensures Sorted(Insert(s, r))
    decreases |s|
  {
    if s != [] && Less(r.key, s[|s| - 1].key) {
      var front, last := s[..|s| - 1], s[|s| - 1];
      InsertSorted(front, r);
      InsertMembers(front, r);
      LessEqTotal(r.key, last.key);
      forall x | x in Insert(front, r) ensures LessEq(x.key, last.key) {
        assert x in multiset(Insert(front, r));
        if x != r { LastIsGreatest(s, x); }
      }
      if Insert(front, r) != [] { SortedAppend(Insert(front, r), last); }
    } else {
      SortedAppend(s, r);
    }
  }

  lemma {:induction false} InsertStable(s: seq<Record>, r: Record, k: Key)
    requires Sorted(s)
    ensures WithKey(Insert(s, r), k) == WithKey(s, k) + if r.key == k then [r] else []
    decreases |s|
  {
    if s != [] && Less(r.key, s[|s| - 1].key) {
      var front, last := s[..|s| - 1], s[|s| - 1];
      InsertStable(front, r, k);
      LessEqTotal(r.key, last.key);
      WithKeyConcat(Insert(front, r), [last], k);
      WithKeyOne(last, k);
    } else {
      WithKeyConcat(s, [r], k);
      WithKeyOne(r, k);
    }
  }

  lemma {:induction false} SortFacts(s: seq<Record>)
    ensures Sorted(SortByKey(s)) && StablePermutation(SortByKey(s), s)
    ensures |SortByKey(s)| == |s| && multiset(SortByKey(s)) == multiset(s)
    decreases |s|
  {
    if s != [] {
      var front, last := s[..|s| - 1], s[|s| - 1];
      SortFacts(front);
      forall k ensures WithKey(SortByKey(s), k) == WithKey(s, k) {
        InsertStable(SortByKey(front), last, k);
      }
      InsertSorted(SortByKey(front), last);
    }
    StableIsPermutation(SortByKey(s), s);
    assert |multiset(SortByKey(s))| == |SortByKey(s)|;
  }
}
