/** The email configurations of a user group: what each one matches, and when one contains another. */
module UserEmails {
  import opened Wrappers

  datatype UserEmail =
    | AllUserEmail
    | ExactUserEmail(config: string)
    | DomainEmail(config: string)
    | UserEmailPattern(config: string)
    | RegexUserEmail(config: string, language: iset<string>)  // the regex is abstracted to what it matches

  // ----- Matching -----

  /** The characters that one '*' of a pattern stands for. */
  predicate IsStarChar(c: char) {
    'a' <= c <= 'z' || 'A' <= c <= 'Z' || '0' <= c <= '9' || c in "._-+#"
  }

  /** The anchored expression that a pattern is compiled to, with '*' for any run of star characters. */
  predicate GlobMatch(pattern: string, email: string)
    decreases |pattern| + |email|
  {
    if pattern == "" then email == ""
    else if pattern[0] == '*' then
      GlobMatch(pattern[1..], email) || (email != "" && IsStarChar(email[0]) && GlobMatch(pattern, email[1..]))
    else email != "" && email[0] == pattern[0] && GlobMatch(pattern[1..], email[1..])
  }

  predicate EndsWith(s: string, suffix: string) {
    |suffix| <= |s| && s[|s| - |suffix|..] == suffix
  }

  predicate Match(u: UserEmail, email: string) {
    match u
    case AllUserEmail => true
    case ExactUserEmail(config) => config == email
    case DomainEmail(config) => EndsWith(email, config)
    case UserEmailPattern(config) => GlobMatch(config, email)
    case RegexUserEmail(_, language) => email in language
  }

  // ----- Parsing -----

  datatype ConfigError = InvalidEmail | WildcardInDomain

  predicate AllStars(s: string) {
    s != "" && forall i :: 0 <= i < |s| ==> s[i] == '*'
  }

  /** One or more stars, alone or on both sides of an '@'. */
  predicate IsMatchAll(s: string) {
    AllStars(s) || exists i :: 0 < i < |s| && s[i] == '@' && AllStars(s[..i]) && AllStars(s[i + 1..])
  }

  /** UserEmail.get_instance, for text that is already stripped and in lower case; None for the empty text. */
  function GetInstance(s: string, language: iset<string>): Result<Option<UserEmail>, ConfigError> {
    if s == "" then Success(None)
    else if IsMatchAll(s) then Success(Some(AllUserEmail))
    else if '@' !in s then Failure(InvalidEmail)
    else if s[0] == '@' then if '*' in s then Failure(WildcardInDomain) else Success(Some(DomainEmail(s)))
    else if s[0] == '^' && s[|s| - 1] == '$' then Success(Some(RegexUserEmail(s, language)))
    else if '*' in s then Success(Some(UserEmailPattern(s)))
    else Success(Some(ExactUserEmail(s)))
  }

  // ----- Containment -----

  /** One run of the containment loop of UserEmailPattern from the given indexes; -1 is "no star seen yet". */
  predicate Scan(parent: string, child: string, p: nat, star: int, c: nat)
    requires p <= |parent| && -1 <= star < p && c <= |child|
    decreases |child| - c, |parent| - p
  {
    if c == |child| then p == |parent|
    else if star == |parent| - 1 then true
    else if p < |parent| && parent[p] == '*' then Scan(parent, child, p + 1, p, if child[c] == '*' then c + 1 else c)
    else if child[c] == '*' then star >= 0 && Scan(parent, child, star + 1, star, c + 1)
    else if p < |parent| && parent[p] == child[c] then Scan(parent, child, p + 1, star, c + 1)
    else star >= 0 && Scan(parent, child, star + 1, star, c + 1)
  }

  predicate GlobContain(parent: string, child: string) {
    Scan(parent, child, 0, -1, 0)
  }

  /** The config text that the code keeps in every instance. */
  function ConfigOf(u: UserEmail): string {
    if u.AllUserEmail? then "*" else u.config
  }

  /** `contain` of each class: Some(answer), or None where the code answers None because a regex is involved. */
  function Contain(u: UserEmail, other: UserEmail): Option<bool> {
    match u
    case AllUserEmail => Some(true)
    case ExactUserEmail(config) =>
      if other.RegexUserEmail? then None else Some(config == ConfigOf(other))
    case DomainEmail(config) =>
      (match other
       case AllUserEmail => Some(false)
       case ExactUserEmail(email) => Some(Match(u, email))
       case DomainEmail(domain) => Some(config == domain)
       case UserEmailPattern(pattern) => Some(EndsWith(pattern, config))
       case RegexUserEmail(_, _) => None)
    case UserEmailPattern(config) =>
      (match other
       case AllUserEmail => Some(false)
       case ExactUserEmail(email) => Some(Match(u, email))
       case DomainEmail(domain) => Some(GlobContain(config, "*" + domain))
       case UserEmailPattern(pattern) => Some(GlobContain(config, pattern))
       case RegexUserEmail(_, _) => None)
    case RegexUserEmail(_, _) => None
  }

  /** The containment loop as written, with its three indexes. */
  method ComputeGlobContain(parent: string, child: string) returns (r: bool)
    ensures r == GlobContain(parent, child)
  {
    var p, star, c := 0, -1, 0;
    while c < |child|
      invariant p <= |parent| && -1 <= star < p && c <= |child|
      invariant Scan(parent, child, p, star, c) == GlobContain(parent, child)
      decreases |child| - c, |parent| - p
    {
      if star == |parent| - 1 {
        return true;
      } else if p < |parent| && parent[p] == '*' {
        star := p;
        p := p + 1;
        if child[c] == '*' {
          c := c + 1;
        }
      } else if child[c] == '*' {
        if star >= 0 {
          p := star + 1;
          c := c + 1;
        } else {
          return false;
        }
      } else if p < |parent| && parent[p] == child[c] {
        p := p + 1;
        c := c + 1;
      } else if star >= 0 {
        p := star + 1;
        c := c + 1;
      } else {
        return false;
      }
    }
    return p >= |parent|;
  }

  // ----- The characters the containment theorem speaks about -----

  /** Characters with the same meaning in a pattern and in the expression it is compiled to. */
  predicate IsMailChar(c: char) {
    'a' <= c <= 'z' || 'A' <= c <= 'Z' || '0' <= c <= '9' || c in "._-#"
  }

  /** There is an '@' at a position from `lo` up to, but not including, `hi`. */
  ghost predicate AtIn(s: string, lo: nat, hi: nat)
    requires hi <= |s|
  {
    exists i :: lo <= i < hi && s[i] == '@'
  }

  ghost predicate OneAt(s: string) {
    AtIn(s, 0, |s|) && forall i, j :: 0 <= i < |s| && 0 <= j < |s| && s[i] == '@' && s[j] == '@' ==> i == j
  }

  ghost predicate ValidEmail(e: string) {
    OneAt(e) && forall i :: 0 <= i < |e| ==> IsMailChar(e[i]) || e[i] == '@'
  }

  ghost predicate ValidPattern(p: string) {
    OneAt(p) && forall i :: 0 <= i < |p| ==> IsMailChar(p[i]) || p[i] == '@' || p[i] == '*'
  }

  /** A regex-free configuration over these characters. */
  ghost predicate ValidConfig(u: UserEmail) {
    match u
    case AllUserEmail => true
    case ExactUserEmail(config) => ValidEmail(config) && config[0] != '@'
    case DomainEmail(config) => ValidEmail(config) && config[0] == '@'
    case UserEmailPattern(config) => ValidPattern(config)
    case RegexUserEmail(_, _) => false
  }

  /**
   * Of text over these characters only a domain with a star is rejected; everything else is parsed to a
   * regex-free configuration that the theorems below cover, and a pattern does not start with '@'.
   */
  lemma ParsedIsValid(s: string, language: iset<string>)
    requires ValidPattern(s)
    ensures GetInstance(s, language) == Failure(WildcardInDomain) <==> GetInstance(s, language).Failure?
    ensures GetInstance(s, language).Failure? <==> s[0] == '@' && '*' in s
    ensures GetInstance(s, language).Success? ==>
              var u := GetInstance(s, language).value;
              && u.Some? && ValidConfig(u.value)
              && (u.value.UserEmailPattern? ==> u.value.config == s && '*' in s && s[0] != '@')
              && (u.value.DomainEmail? ==> GetInstance("*" + s, language) == Success(Some(UserEmailPattern("*" + s))))
  {
    if s[0] == '@' && '*' !in s {
      var t := "*" + s;
      assert t[1] == '@' && forall k :: 1 <= k < |t| ==> t[k] == s[k - 1] && t[k] != '*';
      forall i | 0 < i < |t| && t[i] == '@' ensures !AllStars(t[i + 1..]) {
        assert t[i + 1..] != "" ==> t[i + 1..][0] == t[i + 1];
      }
    }
  }

  // ----- Splitting and joining matches -----

  lemma {:induction false} GlobSplit(a: string, b: string, x: string) returns (k: nat)
    requires GlobMatch(a + b, x)
    ensures k <= |x| && GlobMatch(a, x[..k]) && GlobMatch(b, x[k..])
    decreases |a| + |x|
  {
    if a == "" {
      assert a + b == b && x[0..] == x;
      k := 0;
    } else {
      assert (a + b)[1..] == a[1..] + b;
      if a[0] == '*' && GlobMatch(a[1..] + b, x) {
        k := GlobSplit(a[1..], b, x);
      } else {
        var k' := GlobSplit(if a[0] == '*' then a else a[1..], b, x[1..]);
        k := k' + 1;
        assert x[..k][1..] == x[1..][..k'] && x[k..] == x[1..][k'..];
      }
    }
  }

  lemma {:induction false} GlobJoin(a: string, b: string, x: string, y: string)
    requires GlobMatch(a, x) && GlobMatch(b, y)
    ensures GlobMatch(a + b, x + y)
    decreases |a| + |x|
  {
    if a == "" {
      assert a + b == b && x + y == y;
    } else {
      assert (a + b)[1..] == a[1..] + b;
      if a[0] == '*' && GlobMatch(a[1..], x) {
        GlobJoin(a[1..], b, x, y);
      } else {
        assert (x + y)[1..] == x[1..] + y;
        GlobJoin(if a[0] == '*' then a else a[1..], b, x[1..], y);
      }
    }
  }

  ghost predicate AllStarChars(s: string) {
    forall i :: 0 <= i < |s| ==> IsStarChar(s[i])
  }

  lemma {:induction false} StarMatches(x: string)
    requires AllStarChars(x)
    ensures GlobMatch("*", x)
  {
    if x != "" {
      assert forall i :: 0 <= i < |x[1..]| ==> x[1..][i] == x[i + 1];
      StarMatches(x[1..]);
    } else {
      assert GlobMatch("*"[1..], x);
    }
  }

  /** A pattern without '@' matches star characters only. */
  lemma {:induction false} StarCharsOnly(s: string, x: string)
    requires forall i :: 0 <= i < |s| ==> IsStarChar(s[i]) || s[i] == '*'
    requires GlobMatch(s, x)
    ensures AllStarChars(x)
    decreases |s| + |x|
  {
    if s != "" {
      assert forall i :: 0 <= i < |s[1..]| ==> s[1..][i] == s[i + 1];
      if s[0] == '*' && GlobMatch(s[1..], x) {
        StarCharsOnly(s[1..], x);
      } else {
        StarCharsOnly(if s[0] == '*' then s else s[1..], x[1..]);
        assert forall i :: 1 <= i < |x| ==> x[i] == x[1..][i - 1];
      }
    }
  }

  /** Everything `a` matches, `b` matches too. */
  ghost predicate Sub(a: string, b: string) {
    forall x :: GlobMatch(a, x) ==> GlobMatch(b, x)
  }

  lemma SubAppend(a: string, b: string, c: string)
    requires Sub(a, b)
    ensures Sub(a + c, b + c)
  {
    forall x | GlobMatch(a + c, x) ensures GlobMatch(b + c, x) {
      var k := GlobSplit(a, c, x);
      GlobJoin(b, c, x[..k], x[k..]);
      assert x[..k] + x[k..] == x;
    }
  }

  /** A star takes in any piece of the child that has no '@'. */
  lemma SubAbsorb(a: string, b: string, s: string)
    requires Sub(a, b) && forall i :: 0 <= i < |s| ==> IsStarChar(s[i]) || s[i] == '*'
    ensures Sub(a + s, b + "*")
  {
    forall x | GlobMatch(a + s, x) ensures GlobMatch(b + "*", x) {
      var k := GlobSplit(a, s, x);
      StarCharsOnly(s, x[k..]);
      StarMatches(x[k..]);
      GlobJoin(b, "*", x[..k], x[k..]);
      assert x[..k] + x[k..] == x;
    }
  }

  // ----- Soundness of the containment loop -----

  /** What has been consumed of the child is contained in what has been consumed of the parent, now and at the last
      star. */
  ghost predicate InStep(parent: string, child: string, p: nat, star: int, c: nat, atStar: nat)
    requires p <= |parent| && -1 <= star < p && c <= |child|
  {
    && Sub(child[..c], parent[..p])
    && (AtIn(child, 0, c) <==> AtIn(parent, 0, p))
    && (star >= 0 ==>
          && parent[star] == '*' && atStar <= c
          && Sub(child[..atStar], parent[..star])
          && (AtIn(child, 0, atStar) <==> AtIn(parent, 0, star)))
  }

  /** A star has swallowed the child's '@' while the parent's is still ahead: the loop can only answer False. */
  lemma {:induction false} LostFails(parent: string, child: string, p: nat, star: int, c: nat)
    requires p <= |parent| && -1 <= star < p && c <= |child|
    requires AtIn(parent, p, |parent|) && !AtIn(child, c, |child|)
    ensures !Scan(parent, child, p, star, c)
    decreases |child| - c, |parent| - p
  {
    if c < |child| {
      if parent[p] == '*' {
        LostFails(parent, child, p + 1, p, if child[c] == '*' then c + 1 else c);
      } else if child[c] != '*' && parent[p] == child[c] {
        LostFails(parent, child, p + 1, star, c + 1);
      } else if star >= 0 {
        LostFails(parent, child, star + 1, star, c + 1);
      }
    }
  }

  /** After a mismatch the star takes in the child's next character, unless that was the '@'. */
  lemma StarTakesNext(parent: string, child: string, p: nat, star: int, c: nat, atStar: nat)
    requires p <= |parent| && 0 <= star < p && c < |child| && ValidPattern(parent) && ValidPattern(child)
    requires InStep(parent, child, p, star, c, atStar)
    ensures InStep(parent, child, star + 1, star, c + 1, atStar) ||
            (AtIn(parent, star + 1, |parent|) && !AtIn(child, c + 1, |child|))
  {
    if AtIn(child, atStar, c + 1) {
      assert !AtIn(child, 0, atStar) && !AtIn(parent, 0, star);
    } else {
      var s := child[atStar..c + 1];
      SubAbsorb(child[..atStar], parent[..star], s);
      assert child[..atStar] + s == child[..c + 1];
      assert parent[..star] + "*" == parent[..star + 1];
    }
  }

  lemma {:induction false} ScanSound(parent: string, child: string, p: nat, star: int, c: nat, atStar: nat)
    requires p <= |parent| && -1 <= star < p && c <= |child| && ValidPattern(parent) && ValidPattern(child)
    requires InStep(parent, child, p, star, c, atStar) && Scan(parent, child, p, star, c)
    ensures Sub(child, parent)
    decreases |child| - c, |parent| - p
  {
    if c == |child| {
      assert child[..c] == child && parent[..p] == parent;
    } else if star == |parent| - 1 {
      assert AtIn(parent, 0, star) && !AtIn(child, atStar, |child|);
      var s := child[atStar..];
      SubAbsorb(child[..atStar], parent[..star], s);
      assert child[..atStar] + s == child && parent[..star] + "*" == parent;
    } else if p < |parent| && parent[p] == '*' {
      SubAbsorb(child[..c], parent[..p], child[c..c]);
      SubAppend(child[..c], parent[..p], "*");
      assert parent[..p] + "*" == parent[..p + 1] && child[..c] + child[c..c] == child[..c];
      assert child[c] == '*' ==> child[..c] + "*" == child[..c + 1];
      ScanSound(parent, child, p + 1, p, if child[c] == '*' then c + 1 else c, c);
    } else if child[c] != '*' && p < |parent| && parent[p] == child[c] {
      SubAppend(child[..c], parent[..p], [child[c]]);
      assert parent[..p] + [child[c]] == parent[..p + 1] && child[..c] + [child[c]] == child[..c + 1];
      ScanSound(parent, child, p + 1, star, c + 1, atStar);
    } else {
      StarTakesNext(parent, child, p, star, c, atStar);
      if InStep(parent, child, star + 1, star, c + 1, atStar) {
        ScanSound(parent, child, star + 1, star, c + 1, atStar);
      } else {
        LostFails(parent, child, star + 1, star, c + 1);
      }
    }
  }

  /** The containment loop never accepts a child pattern that matches an email its parent does not match. */
  lemma GlobContainSound(parent: string, child: string)
    requires ValidPattern(parent) && ValidPattern(child) && GlobContain(parent, child)
    ensures Sub(child, parent)
  {
    assert child[..0] == "" && parent[..0] == "";
    ScanSound(parent, child, 0, -1, 0, 0);
  }

  /** A domain matches exactly what the pattern with a star before it matches. */
  lemma DomainAsPattern(domain: string, e: string)
    requires ValidEmail(domain) && domain[0] == '@' && ValidEmail(e)
    ensures EndsWith(e, domain) ==> GlobMatch("*" + domain, e)
  {
    if EndsWith(e, domain) {
      var k := |e| - |domain|;
      assert e[k] == domain[0];
      StarMatches(e[..k]);
      GlobSelf(domain);
      GlobJoin("*", domain, e[..k], domain);
      assert e[..k] + domain == e;
    }
  }

  lemma {:induction false} GlobSelf(s: string)
    requires forall i :: 0 <= i < |s| ==> s[i] != '*'
    ensures forall x :: GlobMatch(s, x) <==> x == s
    decreases |s|
  {
    if s != "" {
      GlobSelf(s[1..]);
      forall x ensures GlobMatch(s, x) <==> x == s {
        if x != "" && x[0] == s[0] && x[1..] == s[1..] {
          assert x == [x[0]] + x[1..] && s == [s[0]] + s[1..];
        }
      }
    }
  }

  /** A pattern that ends with a domain matches only emails that end with it. */
  lemma PatternEndsWith(pattern: string, domain: string, e: string)
    requires ValidPattern(pattern) && ValidEmail(domain) && EndsWith(pattern, domain) && GlobMatch(pattern, e)
    ensures EndsWith(e, domain)
  {
    hide GlobMatch, ValidPattern;
    var k := |pattern| - |domain|;
    assert pattern[..k] + domain == pattern;
    LiteralSuffix(pattern[..k], domain, e);
  }

  lemma LiteralSuffix(a: string, suffix: string, e: string)
    requires (forall i :: 0 <= i < |suffix| ==> suffix[i] != '*') && GlobMatch(a + suffix, e)
    ensures EndsWith(e, suffix)
  {
    hide GlobMatch;
    var j := GlobSplit(a, suffix, e);
    GlobSelf(suffix);
  }

  /** When `contain` answers True, every email the argument matches is matched by the receiver. */
  lemma ContainSound(u: UserEmail, other: UserEmail, e: string)
    requires ValidConfig(u) && ValidConfig(other) && ValidEmail(e)
    requires Contain(u, other) == Some(true) && Match(other, e)
    ensures Match(u, e)
  {
    hide GlobMatch, GlobContain;
    match u
    case AllUserEmail =>
    case ExactUserEmail(config) =>
      if other.UserEmailPattern? {
        GlobSelf(config);
      }
    case DomainEmail(config) =>
      if other.UserEmailPattern? {
        PatternEndsWith(other.config, config, e);
      }
    case UserEmailPattern(config) =>
      if other.DomainEmail? {
        DomainAsPattern(other.config, e);
        assert OneAt("*" + other.config);
        GlobContainSound(config, "*" + other.config);
      } else if other.UserEmailPattern? {
        GlobContainSound(config, other.config);
      }
  }

  /**
   * The converse fails: the loop rejects this child although its parent matches everything it matches,
   * because after a mismatch it never looks again at the characters it has passed.
   */
  lemma ContainIncomplete()
    ensures Sub("*aab@x", "*ab@x") && !GlobContain("*ab@x", "*aab@x")
  {
    var parent, child := "*ab@x", "*aab@x";
    SubAbsorb("", "", "*a");
    assert "" + "*a" == "*a" && "" + "*" == "*";
    SubAppend("*a", "*", "ab@x");
    assert "*a" + "ab@x" == child && "*" + "ab@x" == parent;
    assert !Scan(parent, child, 1, 0, 5);
    assert !Scan(parent, child, 1, 0, 3);
  }
}
