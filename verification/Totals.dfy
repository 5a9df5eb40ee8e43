/** Totals over sequences. */
module Totals {

  ghost function Total<T>(s: seq<T>, part: T -> int): int {
    if s == [] then 0 else Total(s[..|s| - 1], part) + part(s[|s| - 1])
  }

  lemma {:induction false} TotalConcat<T>(a: seq<T>, b: seq<T>, part: T -> int)
    ensures Total(a + b, part) == Total(a, part) + Total(b, part)
    decreases |b|
  {
    if b == [] {
      assert a + b == a;
    } else {
      var n := |b| - 1;
      assert (a + b)[..|a + b| - 1] == a + b[..n];
      TotalConcat(a, b[..n], part);
    }
  }

  lemma TotalOne<T>(x: T, part: T -> int)
    ensures Total([x], part) == part(x)
  {
    assert [x][..0] == [];
  }

  lemma TotalUpdate<T>(s: seq<T>, i: nat, x: T, part: T -> int)
    requires i < |s|
    ensures Total(s[i := x], part) == Total(s, part) - part(s[i]) + part(x)
  {
    assert s == s[..i] + ([s[i]] + s[i + 1..]);
    assert s[i := x] == s[..i] + ([x] + s[i + 1..]);
    TotalConcat(s[..i], [s[i]] + s[i + 1..], part);
    TotalConcat([s[i]], s[i + 1..], part);
    TotalConcat(s[..i], [x] + s[i + 1..], part);
    TotalConcat([x], s[i + 1..], part);
    TotalOne(s[i], part);
    TotalOne(x, part);
  }

  lemma SameRest<T>(a: seq<T>, b: seq<T>, front: seq<T>, x: T, before: seq<T>, after: seq<T>)
    requires multiset(a) == multiset(b) && a == front + [x] && b == before + ([x] + after)
    ensures multiset(front) == multiset(before + after)
  {
    assert multiset(front) == multiset(a) - multiset{x};
    assert multiset(before + after) == multiset(b) - multiset{x};
  }

  /** The total does not depend on the order. */
  lemma {:induction false} TotalPermutation<T>(a: seq<T>, b: seq<T>, part: T -> int)
    requires multiset(a) == multiset(b)
    ensures Total(a, part) == Total(b, part)
    decreases |a|
  {
    if a == [] {
      assert |multiset(b)| == 0;
    } else {
      var front, last := a[..|a| - 1], a[|a| - 1];
      assert a == front + [last];
      assert last in multiset(b);
      var i :| 0 <= i < |b| && b[i] == last;
      var before, after := b[..i], b[i + 1..];
      assert b == before + ([last] + after);
      SameRest(a, b, front, last, before, after);
      TotalPermutation(front, before + after, part);
      TotalConcat(before, after, part);
      TotalConcat(before, [last] + after, part);
      TotalConcat([last], after, part);
      TotalOne(last, part);
    }
  }

  ghost function Filter<T>(s: seq<T>, p: T -> bool): seq<T> {
    if s == [] then [] else Filter(s[..|s| - 1], p) + if p(s[|s| - 1]) then [s[|s| - 1]] else []
  }

  lemma {:induction false} FilterCount<T>(s: seq<T>, p: T -> bool, x: T)
    ensures multiset(Filter(s, p))[x] == if p(x) then multiset(s)[x] else 0
  {
    if s != [] {
      FilterCount(s[..|s| - 1], p, x);
      assert s == s[..|s| - 1] + [s[|s| - 1]];
    }
  }

  // ----- Totals of several parts -----

  /** The totals of the first `n` parts together. */
  ghost function TotalOfParts<T>(s: seq<T>, parts: int -> (T -> int), n: nat): int {
    if n == 0 then 0 else TotalOfParts(s, parts, n - 1) + Total(s, parts(n - 1))
  }

  /** The first `n` parts of one element together. */
  ghost function PartsOf<T>(x: T, parts: int -> (T -> int), n: nat): int {
    if n == 0 then 0 else PartsOf(x, parts, n - 1) + parts(n - 1)(x)
  }

  lemma {:induction false} TotalOfPartsAppend<T>(s: seq<T>, x: T, parts: int -> (T -> int), n: nat)
    ensures TotalOfParts(s + [x], parts, n) == TotalOfParts(s, parts, n) + PartsOf(x, parts, n)
    decreases n
  {
    if n > 0 {
      TotalOfPartsAppend(s, x, parts, n - 1);
      TotalConcat(s, [x], parts(n - 1));
      TotalOne(x, parts(n - 1));
    }
  }

  lemma {:induction false} TotalOfPartsEmpty<T>(parts: int -> (T -> int), n: nat)
    ensures TotalOfParts<T>([], parts, n) == 0
  {
    if n > 0 {
      TotalOfPartsEmpty<T>(parts, n - 1);
    }
  }

  /** When every element is the sum of its parts, so is the total. */
  lemma {:induction false} TotalIsSumOfParts<T>(s: seq<T>, whole: T -> int, parts: int -> (T -> int), n: nat)
    requires forall x :: x in s ==> whole(x) == PartsOf(x, parts, n)
    ensures Total(s, whole) == TotalOfParts(s, parts, n)
    decreases |s|
  {
    if s == [] {
      TotalOfPartsEmpty<T>(parts, n);
    } else {
      var front, last := s[..|s| - 1], s[|s| - 1];
      assert s == front + [last];
      TotalIsSumOfParts(front, whole, parts, n);
      TotalOfPartsAppend(front, last, parts, n);
    }
  }
}
