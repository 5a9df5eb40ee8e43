/**
 * When the containment loop of UserEmailPattern accepts every pattern that is contained: exactly for the
 * parents of two shapes. Every other parent has a child that it contains and the loop rejects.
 */
module GlobCompleteness {
  import opened Wrappers
  import opened UserEmails

  /** A pattern as UserEmail.get_instance produces it, over the mail characters. */
  ghost predicate ParsedPattern(s: string) {
    ValidPattern(s) && '*' in s && s[0] != '@' && !IsMatchAll(s)
  }

  lemma ParsedPatternIs(s: string, language: iset<string>)
    requires ValidPattern(s)
    ensures ParsedPattern(s) <==> GetInstance(s, language) == Success(Some(UserEmailPattern(s)))
  {
  }

  /** There is a star at a position from `lo` up to, but not including, `hi`. */
  predicate StarIn(s: string, lo: nat, hi: nat)
    requires hi <= |s|
  {
    exists i :: lo <= i < hi && s[i] == '*'
  }

  // ----- The two shapes -----

  /** Literal text and one star at its end. */
  predicate IsPrefixPattern(p: string) {
    p != "" && p[|p| - 1] == '*' && !StarIn(p, 0, |p| - 1)
  }

  /** Two neighbours between two stars are equal, so every piece between two stars repeats one character. */
  predicate UniformPieces(p: string) {
    forall i :: 0 <= i < |p| - 1 && p[i] != '*' && p[i + 1] != '*' && StarIn(p, 0, i) && StarIn(p, i + 2, |p|) ==>
      p[i] == p[i + 1]
  }

  /** The text after the last star starts with '@'. */
  predicate EndsAtDomain(p: string) {
    exists q :: 0 <= q < |p| - 1 && p[q] == '*' && p[q + 1] == '@' && !StarIn(p, q + 1, |p|)
  }

  predicate IsCompleteParent(p: string) {
    IsPrefixPattern(p) || (EndsAtDomain(p) && UniformPieces(p))
  }

  // ----- Literal characters -----

  function Literals(s: string): nat {
    if s == "" then 0 else (if s[0] == '*' then 0 else 1) + Literals(s[1..])
  }

  lemma {:induction false} LiteralsLength(p: string, x: string)
    requires GlobMatch(p, x)
    ensures Literals(p) <= |x|
    decreases |p| + |x|
  {
    if p != "" {
      if p[0] == '*' && GlobMatch(p[1..], x) {
        LiteralsLength(p[1..], x);
      } else {
        LiteralsLength(if p[0] == '*' then p else p[1..], x[1..]);
      }
    }
  }

  lemma {:induction false} LiteralsAfter(s: string, i: nat, j: nat)
    requires i <= j <= |s|
    ensures Literals(s[j..]) <= Literals(s[i..])
    ensures forall k :: i <= k < j && s[k] != '*' ==> Literals(s[j..]) < Literals(s[i..])
    decreases j - i
  {
    if i < j {
      assert s[i..][1..] == s[i + 1..];
      LiteralsAfter(s, i + 1, j);
    }
  }

  /** Text without a star is matched literally. */
  lemma {:induction false} LiteralHead(w: string, tail: string, y: string)
    requires '*' !in w && GlobMatch(w + tail, y)
    ensures |w| <= |y| && y[..|w|] == w && GlobMatch(tail, y[|w|..])
    ensures forall i :: 0 <= i < |w| ==> y[i] == w[i]
  {
    if w == "" {
      assert w + tail == tail && y[0..] == y;
    } else {
      assert (w + tail)[1..] == w[1..] + tail && w[0] in w;
      assert forall c :: c in w[1..] ==> c in w;
      LiteralHead(w[1..], tail, y[1..]);
      assert y[1..][..|w| - 1] == y[..|w|][1..] && y[1..][|w| - 1..] == y[|w|..];
      assert y[..|w|] == [y[0]] + y[..|w|][1..] && w == [w[0]] + w[1..];
    }
  }

  // ----- The widest match of a child -----

  /** The string in which every star of the child stands for '+', a character that no pattern contains. */
  function Filled(s: string): string {
    seq(|s|, i requires 0 <= i < |s| => if s[i] == '*' then '+' else s[i])
  }

  lemma {:induction false} FilledMatches(s: string)
    ensures GlobMatch(s, Filled(s))
  {
    if s != "" {
      FilledMatches(s[1..]);
      assert Filled(s)[1..] == Filled(s[1..]);
    }
  }

  /** A star takes in a leading '+'. */
  lemma {:induction false} StarSkipsPlus(q: string, y: string)
    requires q != "" && q[0] == '*' && '+' !in q && y != "" && y[0] == '+' && GlobMatch(q, y)
    ensures GlobMatch(q, y[1..])
  {
    if GlobMatch(q[1..], y) {
      assert q[1..] != "" && q[1..][0] in q;
      assert forall c :: c in q[1..] ==> c in q;
      StarSkipsPlus(q[1..], y);
    }
  }

  lemma {:induction false} StarAbsorbs(q: string, a: string, b: string)
    requires q != "" && q[0] == '*' && AllStarChars(a) && GlobMatch(q, b)
    ensures GlobMatch(q, a + b)
  {
    if a == "" {
      assert a + b == b;
    } else {
      assert (a + b)[1..] == a[1..] + b;
      StarAbsorbs(q, a[1..], b);
    }
  }

  /** The leftmost match of a piece is as good as any other. */
  lemma NextStar(w: string, q: string, z: string)
    requires '*' !in w && AllStarChars(w) && q != "" && q[0] == '*' && GlobMatch("*" + w + q, w + z)
    ensures GlobMatch(q, z)
  {
    var k := GlobSplit("*" + w, q, w + z);
    var head, rest := (w + z)[..k], (w + z)[k..];
    StarCharsOnly("*" + w, head);
    var j := GlobSplit("*", w, head);
    assert w + "" == w;
    LiteralHead(w, "", head[j..]);
    assert k >= |w|;
    assert z == z[..k - |w|] + rest;
    assert forall i :: 0 <= i < k - |w| ==> z[i] == head[|w| + i];
    StarAbsorbs(q, z[..k - |w|], rest);
  }

  /** After a mismatch in a piece that repeats one character no match can start before it. */
  lemma {:induction false} UniformMismatch(w: string, q: string, y: string, m: nat, ch: char)
    requires '*' !in w && (forall i :: 0 <= i < |w| ==> w[i] == ch)
    requires m < |w| && m < |y| && (forall i :: 0 <= i < m ==> y[i] == ch) && y[m] != ch
    requires GlobMatch("*" + (w + q), y)
    ensures GlobMatch("*" + (w + q), y[m + 1..])
    decreases m
  {
    assert ("*" + (w + q))[1..] == w + q;
    if GlobMatch(w + q, y) {
      LiteralHead(w, q, y);
    }
    if m > 0 {
      UniformMismatch(w, q, y[1..], m - 1, ch);
      assert y[1..][m..] == y[m + 1..];
    }
  }

  /** The last piece starts with the only '@', so a mismatch there is at its first character. */
  lemma DomainMismatch(t: string, y: string, m: nat)
    requires '*' !in t && t != "" && t[0] == '@' && GlobMatch("*" + t, y)
    requires m <= |t| && m < |y| && y[..m] == t[..m] && (m < |t| ==> y[m] != t[m])
    ensures m == 0 && GlobMatch("*" + t, y[m + 1..])
  {
    assert ("*" + t)[1..] == t && t + "" == t;
    SamePrefix(t, y, m);
    if GlobMatch(t, y) {
      LiteralHead(t, "", y);
    }
  }

  lemma SamePrefix(t: string, y: string, m: nat)
    requires t != "" && m <= |t| && m <= |y| && y[..m] == t[..m]
    ensures m > 0 ==> y[0] == t[0]
  {
    if m > 0 {
      assert y[..m][0] == t[..m][0];
    }
  }

  // ----- Parents of the second shape -----

  /** How far the piece after a star that is followed by another star reaches: all its characters are equal. */
  lemma {:induction false} UniformPiece(p: string, star: nat, k: nat)
    requires UniformPieces(p) && star < k < |p| && p[star] == '*' && !StarIn(p, star + 1, k + 1) &&
             StarIn(p, k + 1, |p|)
    ensures forall i :: star < i <= k ==> p[i] == p[k]
    decreases k
  {
    if k > star + 1 {
      assert p[k] != '*' && p[k - 1] != '*' && p[star] == '*';
      UniformPiece(p, star, k - 1);
      assert StarIn(p, 0, k - 1);
    }
  }

  /** The scan is at `p`, and the parent from its last star on matches the child from where that star ended. */
  ghost predicate OnTrack(parent: string, x: string, p: nat, star: int, c: nat)
    requires p <= |parent| && -1 <= star < p && c <= |x|
  {
    && !StarIn(parent, star + 1, p)
    && if star < 0 then GlobMatch(parent[p..], x[c..])
       else
         var m := p - star - 1;
         && parent[star] == '*' && m <= c && x[c - m..c] == parent[star + 1..p]
         && GlobMatch(parent[star..], x[c - m..])
  }

  ghost predicate DomainParent(parent: string) {
    ValidPattern(parent) && EndsAtDomain(parent) && UniformPieces(parent)
  }

  /** The text after the last star, as a fact about any star without a star after it. */
  lemma AfterLastStar(parent: string, star: nat)
    requires DomainParent(parent) && star < |parent| && parent[star] == '*' && !StarIn(parent, star + 1, |parent|)
    ensures star + 1 < |parent| && parent[star + 1] == '@' && '*' !in parent[star + 1..]
  {
    var q :| 0 <= q < |parent| - 1 && parent[q] == '*' && parent[q + 1] == '@' && !StarIn(parent, q + 1, |parent|);
    assert q == star;
    NoStarSlice(parent, star + 1, |parent|);
    assert parent[star + 1..] == parent[star + 1..|parent|];
  }

  lemma NoStarSlice(s: string, lo: nat, hi: nat)
    requires lo <= hi <= |s| && !StarIn(s, lo, hi)
    ensures '*' !in s[lo..hi]
  {
    forall i | 0 <= i < hi - lo ensures s[lo..hi][i] != '*' {
      assert s[lo..hi][i] == s[lo + i];
    }
  }

  /** At a star the child may be taken up anywhere after the piece that has just been matched. */
  lemma TrackStar(parent: string, x: string, p: nat, star: int, c: nat)
    requires DomainParent(parent) && p < |parent| && -1 <= star < p && c <= |x|
    requires OnTrack(parent, x, p, star, c) && parent[p] == '*'
    ensures OnTrack(parent, x, p + 1, p, c)
    ensures c < |x| && x[c] == '+' ==> OnTrack(parent, x, p + 1, p, c + 1)
  {
    var q := parent[p..];
    if star >= 0 {
      var m := p - star - 1;
      var w := parent[star + 1..p];
      BeforeDomain(parent, star, p);
      assert parent[star..] == "*" + w + q && x[c - m..] == w + x[c..];
      NextStar(w, q, x[c..]);
    }
    assert forall i :: p <= i < |parent| ==> parent[i] != '+';
    if c < |x| && x[c] == '+' {
      StarSkipsPlus(q, x[c..]);
      assert x[c..][1..] == x[c + 1..];
    }
  }

  /** Pieces before the last star have no '@'. */
  lemma BeforeDomain(parent: string, star: nat, p: nat)
    requires DomainParent(parent) && star < p < |parent| && parent[p] == '*' && !StarIn(parent, star + 1, p)
    ensures '*' !in parent[star + 1..p] && AllStarChars(parent[star + 1..p])
  {
    var q :| 0 <= q < |parent| - 1 && parent[q] == '*' && parent[q + 1] == '@' && !StarIn(parent, q + 1, |parent|);
    assert q >= p;
    var w := parent[star + 1..p];
    forall i | 0 <= i < |w| ensures w[i] != '*' && IsStarChar(w[i]) {
      assert w[i] == parent[star + 1 + i];
    }
  }

  /** After a mismatch the last star takes in one more character. */
  lemma TrackMismatch(parent: string, x: string, p: nat, star: int, c: nat)
    requires DomainParent(parent) && p <= |parent| && 0 <= star < p && c < |x|
    requires OnTrack(parent, x, p, star, c) && (p < |parent| ==> parent[p] != '*' && parent[p] != x[c])
    ensures OnTrack(parent, x, star + 1, star, c + 1)
  {
    var m := p - star - 1;
    var y := x[c - m..];
    assert y[..m] == x[c - m..c] && y[m] == x[c] && y[m + 1..] == x[c + 1..];
    if StarIn(parent, p, |parent|) {
      PieceMismatch(parent, y, p, star);
    } else {
      LastMismatch(parent, y, p, star);
    }
  }

  lemma PieceMismatch(parent: string, y: string, p: nat, star: nat)
    requires DomainParent(parent) && star < p < |parent| && p - star - 1 < |y| && parent[star] == '*'
    requires !StarIn(parent, star + 1, p) && StarIn(parent, p, |parent|) && parent[p] != '*' &&
             parent[p] != y[p - star - 1]
    requires y[..p - star - 1] == parent[star + 1..p] && GlobMatch(parent[star..], y)
    ensures GlobMatch(parent[star..], y[p - star..])
  {
    hide *;
    PieceFacts(parent, p, star);
    PieceChars(parent, y, p, star);
    SplitPiece(parent, p, star);
    UniformMismatch(parent[star + 1..p + 1], parent[p + 1..], y, p - star - 1, parent[p]);
  }

  lemma PieceFacts(parent: string, p: nat, star: nat)
    requires DomainParent(parent) && star < p < |parent| && parent[star] == '*'
    requires !StarIn(parent, star + 1, p) && StarIn(parent, p, |parent|) && parent[p] != '*'
    ensures '*' !in parent[star + 1..p + 1] && forall i :: star < i <= p ==> parent[i] == parent[p]
  {
    assert !StarIn(parent, star + 1, p + 1);
    assert StarIn(parent, p + 1, |parent|);
    UniformPiece(parent, star, p);
    NoStarSlice(parent, star + 1, p + 1);
  }

  lemma SplitPiece(parent: string, p: nat, star: nat)
    requires star < p < |parent| && parent[star] == '*'
    ensures parent[star..] == "*" + (parent[star + 1..p + 1] + parent[p + 1..])
  {
  }

  lemma PieceChars(parent: string, y: string, p: nat, star: nat)
    requires star < p < |parent| && p - star - 1 <= |y| && y[..p - star - 1] == parent[star + 1..p]
    requires forall i :: star < i <= p ==> parent[i] == parent[p]
    ensures var w := parent[star + 1..p + 1]; forall i :: 0 <= i < |w| ==> w[i] == parent[p]
    ensures forall i :: 0 <= i < p - star - 1 ==> y[i] == parent[p]
  {
    forall i | 0 <= i < p - star - 1 ensures y[i] == parent[p] {
      assert y[i] == y[..p - star - 1][i] == parent[star + 1 + i];
    }
  }

  lemma LastMismatch(parent: string, y: string, p: nat, star: nat)
    requires DomainParent(parent) && star < p <= |parent| && p - star - 1 < |y| && parent[star] == '*'
    requires !StarIn(parent, star + 1, p) && !StarIn(parent, p, |parent|) &&
             (p < |parent| ==> parent[p] != y[p - star - 1])
    requires y[..p - star - 1] == parent[star + 1..p] && GlobMatch(parent[star..], y)
    ensures GlobMatch(parent[star..], y[p - star..])
  {
    NoStarAfter(parent, star, p);
    AfterLastStar(parent, star);
    var m := p - star - 1;
    var t := parent[star + 1..];
    assert parent[star..] == "*" + t && t[..m] == parent[star + 1..p];
    hide GlobMatch;
    DomainMismatch(t, y, m);
  }

  lemma NoStarAfter(s: string, star: int, p: nat)
    requires 0 <= star < p <= |s| && !StarIn(s, star + 1, p) && !StarIn(s, p, |s|)
    ensures !StarIn(s, star + 1, |s|)
  {
  }

  /** When the child has been used up on track, so has the parent. */
  lemma TrackEnd(parent: string, x: string, p: nat, star: int)
    requires DomainParent(parent) && p <= |parent| && -1 <= star < p && OnTrack(parent, x, p, star, |x|)
    ensures p == |parent|
  {
    var q :| 0 <= q < |parent| - 1 && parent[q] == '*' && parent[q + 1] == '@' && !StarIn(parent, q + 1, |parent|);
    assert parent[|parent| - 1] != '*';
    if star < 0 {
      LiteralsLength(parent[p..], x[|x|..]);
      LiteralsAfter(parent, p, |parent|);
    } else {
      var m := p - star - 1;
      LiteralsLength(parent[star..], x[|x| - m..]);
      PieceLiterals(parent, star + 1, p);
      LiteralsAfter(parent, p, |parent|);
      LiteralsAfter(parent, star, star + 1);
    }
  }

  lemma {:induction false} PieceLiterals(s: string, i: nat, j: nat)
    requires i <= j <= |s| && !StarIn(s, i, j)
    ensures Literals(s[i..]) == j - i + Literals(s[j..])
    decreases j - i
  {
    if i < j {
      assert s[i..][1..] == s[i + 1..] && s[i] != '*';
      PieceLiterals(s, i + 1, j);
    }
  }

  /** On track the scan answers True. */
  lemma {:induction false} TrackScans(parent: string, child: string, p: nat, star: int, c: nat)
    requires DomainParent(parent) && ValidPattern(child)
    requires p <= |parent| && -1 <= star < p && c <= |child| && OnTrack(parent, Filled(child), p, star, c)
    ensures Scan(parent, child, p, star, c)
    decreases |child| - c, |parent| - p
  {
    var x := Filled(child);
    if c == |child| {
      TrackEnd(parent, x, p, star);
    } else if star != |parent| - 1 {
      if p < |parent| && parent[p] == '*' {
        TrackStar(parent, x, p, star, c);
        TrackScans(parent, child, p + 1, p, if child[c] == '*' then c + 1 else c);
      } else if child[c] != '*' && p < |parent| && parent[p] == child[c] {
        TrackMatch(parent, x, p, star, c);
        TrackScans(parent, child, p + 1, star, c + 1);
      } else {
        NotInPattern(parent, child, p, c);
        if star < 0 {
          TrackStarts(parent, x, p, c);
        } else {
          TrackMismatch(parent, x, p, star, c);
          TrackScans(parent, child, star + 1, star, c + 1);
        }
      }
    }
  }

  lemma NotInPattern(parent: string, child: string, p: nat, c: nat)
    requires ValidPattern(parent) && p <= |parent| && c < |child|
    requires !(child[c] != '*' && p < |parent| && parent[p] == child[c])
    ensures p < |parent| && parent[p] != '*' ==> parent[p] != Filled(child)[c]
  {
  }

  lemma TrackMatch(parent: string, x: string, p: nat, star: int, c: nat)
    requires p < |parent| && -1 <= star < p && c < |x| && OnTrack(parent, x, p, star, c) && parent[p] == x[c] != '*'
    ensures OnTrack(parent, x, p + 1, star, c + 1)
  {
    if star < 0 {
      assert parent[p..][1..] == parent[p + 1..] && x[c..][1..] == x[c + 1..];
    } else {
      var m := p - star - 1;
      GrowSlice(x, c - m, c);
      GrowSlice(parent, star + 1, p);
    }
  }

  lemma GrowSlice(s: string, lo: nat, hi: nat)
    requires lo <= hi < |s|
    ensures s[lo..hi + 1] == s[lo..hi] + [s[hi]]
  {
  }

  /** Before the first star of the parent a child on track cannot mismatch. */
  lemma TrackStarts(parent: string, x: string, p: nat, c: nat)
    requires DomainParent(parent) && p <= |parent| && c < |x| && OnTrack(parent, x, p, -1, c)
    ensures p < |parent| && (parent[p] == '*' || parent[p] == x[c])
  {
    var q :| 0 <= q < |parent| - 1 && parent[q] == '*' && parent[q + 1] == '@' && !StarIn(parent, q + 1, |parent|);
    assert !StarIn(parent, 0, p);
    assert q >= p;
    assert parent[p..][0] == parent[p];
  }

  // ----- Parents of the first shape -----

  /** A contained child with a star starts with the literal text of the parent. */
  lemma PrefixOfChild(parent: string, child: string)
    requires ValidPattern(parent) && ValidPattern(child) && IsPrefixPattern(parent) && Sub(child, parent)
    ensures |parent| - 1 <= |child| && child[..|parent| - 1] == parent[..|parent| - 1]
  {
    var text := parent[..|parent| - 1];
    FilledMatches(child);
    NoStarSlice(parent, 0, |parent| - 1);
    assert parent == text + "*";
    LiteralHead(text, "*", Filled(child));
    forall i | 0 <= i < |text| ensures child[i] == text[i] {
      assert Filled(child)[i] == text[i] == parent[i];
    }
  }

  lemma {:induction false} PrefixScans(parent: string, child: string, c: nat)
    requires IsPrefixPattern(parent) && c <= |parent| - 1 <= |child| && child[..|parent| - 1] == parent[..|parent| - 1]
    requires StarIn(child, 0, |child|)
    ensures Scan(parent, child, c, -1, c)
    decreases |parent| - c
  {
    assert forall i :: 0 <= i < |parent| - 1 ==>
           child[i] == child[..|parent| - 1][i] == parent[..|parent| - 1][i] == parent[i];
    if c < |parent| - 1 {
      PrefixScans(parent, child, c + 1);
    } else {
      assert c < |child|;
      assert Scan(parent, child, |parent|, |parent| - 1, if child[c] == '*' then c + 1 else c);
    }
  }

  // ----- The loop decides containment for both shapes -----

  lemma StarIsIn(s: string)
    requires '*' in s
    ensures StarIn(s, 0, |s|)
  {
    var i :| 0 <= i < |s| && s[i] == '*';
  }

  /** For these parents the loop answers True exactly for the contained patterns, also for a domain with a star before
      it. */
  lemma CompleteParent(parent: string, child: string)
    requires ValidPattern(parent) && ValidPattern(child) && '*' in child && IsCompleteParent(parent)
    ensures GlobContain(parent, child) <==> Sub(child, parent)
  {
    if GlobContain(parent, child) {
      GlobContainSound(parent, child);
    }
    if Sub(child, parent) {
      if IsPrefixPattern(parent) {
        PrefixOfChild(parent, child);
        StarIsIn(child);
        PrefixScans(parent, child, 0);
      } else {
        FilledMatches(child);
        assert parent[0..] == parent && Filled(child)[0..] == Filled(child);
        TrackScans(parent, child, 0, -1, 0);
      }
    }
  }

  // ----- A rejected child for every other parent -----

  /** Parent and child share their first `n` characters: the scan runs through them side by side. */
  lemma {:induction false} SharedPrefix(parent: string, child: string, i: nat, star: int, n: nat) returns (star': int)
    requires i <= n <= |parent| && n <= |child| && -1 <= star < i && star < |parent| - 1
    requires forall k :: 0 <= k < n ==> parent[k] == child[k]
    requires n < |parent|
    requires star >= 0 ==> parent[star] == '*'
    requires !StarIn(parent, star + 1, i)
    ensures -1 <= star' < n && !StarIn(parent, star' + 1, n) && (star' >= 0 ==> parent[star'] == '*')
    ensures Scan(parent, child, i, star, i) == Scan(parent, child, n, star', n)
    decreases n - i
  {
    if i == n {
      star' := star;
    } else if parent[i] == '*' {
      star' := SharedPrefix(parent, child, i + 1, i, n);
    } else {
      star' := SharedPrefix(parent, child, i + 1, star, n);
    }
  }

  /** A parent with a second star before its last one rejects itself without that last star. */
  lemma TrailingStarRejected(parent: string)
    requires ParsedPattern(parent) && parent[|parent| - 1] == '*' && StarIn(parent, 0, |parent| - 1)
    ensures var child := parent[..|parent| - 1];
            ParsedPattern(child) && Sub(child, parent) && !GlobContain(parent, child)
  {
    var child := parent[..|parent| - 1];
    assert parent == child + "*" && child + "" == child;
    SubAbsorb(child, child, "");
    var _ := SharedPrefix(parent, child, 0, -1, |child|);
    ShorterParsed(parent);
  }

  /** With one '@' the text matches everything when all else is stars, on both sides. */
  lemma MatchAllIs(s: string)
    requires OneAt(s)
    ensures IsMatchAll(s) <==>
            s[0] != '@' && s[|s| - 1] != '@' && forall k :: 0 <= k < |s| ==> s[k] == '*' || s[k] == '@'
  {
    var at :| 0 <= at < |s| && s[at] == '@';
    if s[0] != '@' && s[|s| - 1] != '@' && forall k :: 0 <= k < |s| ==> s[k] == '*' || s[k] == '@' {
      assert AllStars(s[..at]) && AllStars(s[at + 1..]);
    }
    if IsMatchAll(s) {
      forall k | 0 <= k < |s| && k != at ensures s[k] == '*' {
        if k < at { assert s[..at][k] == s[k]; } else { assert s[at + 1..][k - at - 1] == s[k]; }
      }
    }
  }

  lemma ShorterParsed(parent: string)
    requires ParsedPattern(parent) && parent[|parent| - 1] == '*' && StarIn(parent, 0, |parent| - 1)
    ensures ParsedPattern(parent[..|parent| - 1])
  {
    var n := |parent| - 1;
    var child := parent[..n];
    var at :| 0 <= at < |parent| && parent[at] == '@';
    assert child[at] == '@';
    var star :| 0 <= star < n && parent[star] == '*';
    assert child[star] == '*';
    MatchAllIs(parent);
    MatchAllIs(child);
    hide IsMatchAll;
  }

  // ----- A piece that can be entered too early -----

  /**
   * The piece after the star at `q` starts with `n` copies of a character other than '@', and then comes
   * another character of the piece or the end of the pattern, which does not end with a star.
   */
  ghost predicate EarlyEntry(p: string, q: nat, n: nat)
    requires q < |p|
  {
    && p[q] == '*' && p[|p| - 1] != '*' && n > 0 && q + 1 + n <= |p| && p[q + 1] != '*' && p[q + 1] != '@'
    && (forall i :: q < i <= q + n ==> p[i] == p[q + 1])
    && (q + 1 + n < |p| ==> p[q + 1 + n] != p[q + 1] && p[q + 1 + n] != '*')
  }

  /** The parent with the first character of that piece written once more. */
  function Doubled(p: string, q: nat): string
    requires q + 1 < |p|
  {
    p[..q + 1] + [p[q + 1]] + p[q + 1..]
  }

  lemma DoubledChars(p: string, q: nat)
    requires q + 1 < |p|
    ensures |Doubled(p, q)| == |p| + 1
    ensures forall i :: 0 <= i < q + 2 ==> Doubled(p, q)[i] == p[i]
    ensures forall i :: q + 1 < i <= |p| ==> Doubled(p, q)[i] == p[i - 1]
    ensures Doubled(p, q)[q + 2..] == p[q + 1..]
  {
  }

  /** It is contained, since the star takes in the doubled character. */
  lemma DoubledIsContained(p: string, q: nat)
    requires q + 1 < |p| && p[q] == '*' && IsMailChar(p[q + 1])
    ensures Sub(Doubled(p, q), p)
  {
    var head, d, tail := p[..q], p[q + 1], p[q + 1..];
    SubAbsorb(head, head, "*" + [d]);
    assert head + "*" == p[..q + 1] && head + ("*" + [d]) == p[..q + 1] + [d];
    SubAppend(p[..q + 1] + [d], p[..q + 1], tail);
    assert p[..q + 1] + tail == p && p[..q + 1] + [d] + tail == Doubled(p, q);
  }

  lemma DoubledParsed(p: string, q: nat)
    requires ParsedPattern(p) && q + 1 < |p| && p[q] == '*' && p[q + 1] != '*' && p[q + 1] != '@'
    ensures ParsedPattern(Doubled(p, q)) && IsMailChar(p[q + 1])
  {
    var child := Doubled(p, q);
    DoubledChars(p, q);
    var at :| 0 <= at < |p| && p[at] == '@';
    assert child[if at <= q then at else at + 1] == '@';
    assert child[q] == '*';
    MatchAllIs(child);
    hide IsMatchAll, Doubled;
  }

  lemma LiteralsStep(s: string, i: nat)
    requires i < |s|
    ensures Literals(s[i..]) == Literals(s[i + 1..]) + if s[i] == '*' then 0 else 1
  {
    assert s[i..][1..] == s[i + 1..];
  }

  /** From a state whose rest of the parent has more literal characters than the rest of the child, the scan fails. */
  lemma {:induction false} TooShort(parent: string, child: string, p: nat, star: int, c: nat)
    requires p <= |parent| && -1 <= star < p && c <= |child| && star < |parent| - 1 && parent != "" &&
             parent[|parent| - 1] != '*'
    ensures Scan(parent, child, p, star, c) ==> Literals(parent[p..]) <= Literals(child[c..])
    decreases |child| - c, |parent| - p
  {
    if c < |child| {
      LiteralsStep(child, c);
      if p < |parent| && parent[p] == '*' {
        LiteralsStep(parent, p);
        TooShort(parent, child, p + 1, p, if child[c] == '*' then c + 1 else c);
      } else if child[c] != '*' && p < |parent| && parent[p] == child[c] {
        LiteralsStep(parent, p);
        TooShort(parent, child, p + 1, star, c + 1);
      } else if star >= 0 {
        hide Literals;
        TooShort(parent, child, star + 1, star, c + 1);
        LiteralsAfter(parent, star + 1, p);
      }
    }
  }

  /** The scan enters the piece one character too early, and the mismatch costs it the characters it has passed. */
  lemma {:induction false} EntersEarly(parent: string, q: nat, n: nat, k: nat)
    requires q < |parent| && EarlyEntry(parent, q, n) && k <= n
    ensures var child := Doubled(parent, q);
            Scan(parent, child, q + 1 + k, q, q + 1 + k) == Scan(parent, child, q + 1, q, q + 2 + n)
    decreases n - k
  {
    DoubledChars(parent, q);
    hide Doubled;
    if k < n {
      EntersEarly(parent, q, n, k + 1);
    }
  }

  lemma DoubledRejected(parent: string, q: nat, n: nat)
    requires ParsedPattern(parent) && q < |parent| && EarlyEntry(parent, q, n)
    ensures ParsedPattern(Doubled(parent, q)) && Sub(Doubled(parent, q), parent) &&
            !GlobContain(parent, Doubled(parent, q))
  {
    DoubledParsed(parent, q);
    DoubledIsContained(parent, q);
    hide *;
    DoubledFails(parent, q, n);
  }

  lemma DoubledFails(parent: string, q: nat, n: nat)
    requires q < |parent| && EarlyEntry(parent, q, n)
    ensures q + 1 < |parent| && !GlobContain(parent, Doubled(parent, q))
  {
    DoubledStarts(parent, q);
    hide Doubled, Scan, Literals;
    EntersEarly(parent, q, n, 0);
    TooShort(parent, Doubled(parent, q), q + 1, q, q + 2 + n);
    DoubledRest(parent, q, n);
    LiteralsAfter(parent, q + 1, q + 1 + n);
  }

  /** The scan reaches the star at `q` in the parent and in the child together. */
  lemma DoubledStarts(parent: string, q: nat)
    requires q + 1 < |parent| && parent[q] == '*'
    ensures GlobContain(parent, Doubled(parent, q)) == Scan(parent, Doubled(parent, q), q + 1, q, q + 1)
    ensures |Doubled(parent, q)| == |parent| + 1
  {
    DoubledChars(parent, q);
    hide Doubled, Scan;
    var star := SharedPrefix(parent, Doubled(parent, q), 0, -1, q + 1);
    assert star == q;
  }

  lemma DoubledRest(p: string, q: nat, n: nat)
    requires q + 1 + n <= |p| && n > 0
    ensures Doubled(p, q)[q + 2 + n..] == p[q + 1 + n..]
  {
  }

  // ----- Every other parent has such a piece or ends with a second star -----

  /** How often the character at `from` stands there in a row. */
  function RunLength(s: string, from: nat): (n: nat)
    requires from < |s|
    ensures n > 0 && from + n <= |s| && (forall i :: from <= i < from + n ==> s[i] == s[from])
    ensures from + n < |s| ==> s[from + n] != s[from]
    decreases |s| - from
  {
    if from + 1 < |s| && s[from + 1] == s[from] then 1 + RunLength(s, from + 1) else 1
  }

  lemma {:induction false} LastStar(s: string, hi: nat) returns (q: nat)
    requires hi <= |s| && StarIn(s, 0, hi)
    ensures q < hi && s[q] == '*' && !StarIn(s, q + 1, hi)
    decreases hi
  {
    if s[hi - 1] == '*' {
      q := hi - 1;
    } else {
      q := LastStar(s, hi - 1);
    }
  }

  lemma UnevenPiece(p: string, last: nat, i: nat) returns (q: nat, n: nat)
    requires ValidPattern(p) && p[|p| - 1] != '*' && last < |p| - 1 && p[last] == '*' && p[last + 1] == '@' &&
             !StarIn(p, last + 1, |p|)
    requires i < |p| - 1 && p[i] != '*' && p[i + 1] != '*' && StarIn(p, 0, i) && StarIn(p, i + 2, |p|) &&
             p[i] != p[i + 1]
    ensures q < |p| && EarlyEntry(p, q, n)
  {
    q := LastStar(p, i);
    n := RunLength(p, q + 1);
    assert i + 2 <= last;
    assert !StarIn(p, q + 1, i + 2);
    assert p[q + 1] != '@';
    RunStops(p, q + 1, i);
  }

  lemma RunStops(s: string, from: nat, i: nat)
    requires from <= i < |s| - 1 && s[i] != s[i + 1]
    ensures from + RunLength(s, from) <= i + 1
  {
  }

  /** A parent of neither shape rejects a pattern that it contains. */
  lemma IncompleteParent(parent: string) returns (child: string)
    requires ParsedPattern(parent) && !IsCompleteParent(parent)
    ensures ParsedPattern(child) && Sub(child, parent) && !GlobContain(parent, child)
  {
    StarIsIn(parent);
    if parent[|parent| - 1] == '*' {
      child := parent[..|parent| - 1];
      TrailingStarRejected(parent);
    } else {
      var q := LastStar(parent, |parent|);
      var n: nat;
      if parent[q + 1] != '@' {
        n := RunLength(parent, q + 1);
        assert parent[q + 1] != '*';
      } else {
        var i :| 0 <= i < |parent| - 1 && parent[i] != '*' && parent[i + 1] != '*' && StarIn(parent, 0, i)
                 && StarIn(parent, i + 2, |parent|) && parent[i] != parent[i + 1];
        q, n := UnevenPiece(parent, q, i);
      }
      DoubledRejected(parent, q, n);
      child := Doubled(parent, q);
    }
  }

  // ----- The exact condition -----

  /**
   * The loop accepts every pattern that the parent contains exactly when the parent is literal text with
   * one star at its end, or has '@' right after its last star and repeats one character in every piece
   * between two stars.
   */
  lemma CompleteExactly(parent: string)
    requires ParsedPattern(parent)
    ensures (forall child :: ParsedPattern(child) && Sub(child, parent) ==> GlobContain(parent, child)) <==>
            IsCompleteParent(parent)
  {
    if IsCompleteParent(parent) {
      forall child | ParsedPattern(child) && Sub(child, parent) ensures GlobContain(parent, child) {
        CompleteParent(parent, child);
      }
    } else {
      var child := IncompleteParent(parent);
      assert ParsedPattern(child) && Sub(child, parent) && !GlobContain(parent, child);
    }
  }

  /** The config is what the text is parsed to, and a pattern. */
  ghost predicate ParsesToPattern(s: string, u: UserEmail) {
    exists language :: GetInstance(s, language) == Success(Some(u)) && u.UserEmailPattern?
  }

  lemma ParsesToItself(s: string, u: UserEmail)
    requires ValidPattern(s)
    ensures ParsesToPattern(s, u) <==> u == UserEmailPattern(s) && ParsedPattern(s)
  {
    ParsedPatternIs(s, iset{});
    if language :| GetInstance(s, language) == Success(Some(u)) && u.UserEmailPattern? {
      ParsedPatternIs(s, language);
    }
  }

  /**
   * The same for the objects: `contain` of a parsed pattern answers True for all parsed patterns that it
   * contains exactly for these parents.
   */
  lemma ContainExactly(s: string, parent: UserEmail)
    requires ValidPattern(s) && ParsesToPattern(s, parent)
    ensures (forall t, child :: ValidPattern(t) && ParsesToPattern(t, child) && Sub(t, s) ==>
               UserEmails.Contain(parent, child) == Some(true)) <==> IsCompleteParent(s)
  {
    ParsesToItself(s, parent);
    CompleteExactly(s);
    hide GetInstance, ParsedPattern, ValidPattern, IsCompleteParent, Sub, GlobContain, ParsesToPattern;
    if IsCompleteParent(s) {
      forall t, child | ValidPattern(t) && ParsesToPattern(t, child) && Sub(t, s)
        ensures UserEmails.Contain(parent, child) == Some(true)
      {
        ParsesToItself(t, child);
      }
    } else {
      var t :| ParsedPattern(t) && Sub(t, s) && !GlobContain(s, t);
      assert ValidPattern(t) by { ParsedIsPattern(t); }
      ParsesToItself(t, UserEmailPattern(t));
      assert UserEmails.Contain(parent, UserEmailPattern(t)) == Some(false);
    }
  }

  lemma ParsedIsPattern(s: string)
    requires ParsedPattern(s)
    ensures ValidPattern(s)
  {
  }
}
