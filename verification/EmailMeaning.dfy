/** What the email configurations mean: matching piece by piece, parsing, and containment outside the patterns. */
module EmailMeaning {
  import opened Wrappers
  import opened UserEmails
  import opened GlobCompleteness
  import opened GroupExclusions

  // ----- The emails and patterns the theorems speak about -----

  lemma {:induction false} AtCount(s: string)
    ensures multiset(s)['@'] == 0 <==> '@' !in s
    ensures multiset(s)['@'] == 1 <==> OneAt(s)
  {
    if s != "" {
      var rest := s[1..];
      assert s == [s[0]] + rest && forall i :: 0 < i < |s| ==> s[i] == rest[i - 1];
      AtCount(rest);
      if s[0] == '@' {
        assert OneAt(s) <==> '@' !in rest;
      } else {
        OneAtTail(s);
      }
    }
  }

  lemma OneAtTail(s: string)
    requires s != "" && s[0] != '@'
    ensures OneAt(s) <==> OneAt(s[1..])
  {
    var rest := s[1..];
    assert forall i :: 0 < i < |s| ==> s[i] == rest[i - 1];
    if OneAt(s) {
      var at :| 0 <= at < |s| && s[at] == '@';
      assert rest[at - 1] == '@';
    }
    if OneAt(rest) {
      var at :| 0 <= at < |rest| && rest[at] == '@';
      assert s[at + 1] == '@';
    }
  }

  /** Emails have one '@' among letters, digits and the characters . _ - #, and patterns stars as well. */
  lemma ValidMeaning(s: string)
    ensures ValidEmail(s) <==> multiset(s)['@'] == 1 && forall c :: c in s ==>
              'a' <= c <= 'z' || 'A' <= c <= 'Z' || '0' <= c <= '9' || c in {'.', '_', '-', '#', '@'}
    ensures ValidPattern(s) <==> multiset(s)['@'] == 1 && forall c :: c in s ==>
              'a' <= c <= 'z' || 'A' <= c <= 'Z' || '0' <= c <= '9' || c in {'.', '_', '-', '#', '@', '*'}
  {
    AtCount(s);
    hide OneAt;
    forall c ensures IsMailChar(c) <==>
        'a' <= c <= 'z' || 'A' <= c <= 'Z' || '0' <= c <= '9' || c in {'.', '_', '-', '#'}
    {
      MailCharMeaning(c);
    }
    hide IsMailChar;
    assert forall i :: 0 <= i < |s| ==> s[i] in s;
    assert (forall i :: 0 <= i < |s| ==> IsMailChar(s[i]) || s[i] == '@') <==>
           forall c :: c in s ==> IsMailChar(c) || c == '@';
    assert (forall i :: 0 <= i < |s| ==> IsMailChar(s[i]) || s[i] == '@' || s[i] == '*') <==>
           forall c :: c in s ==> IsMailChar(c) || c == '@' || c == '*';
  }

  lemma MailCharMeaning(c: char)
    ensures IsMailChar(c) <==>
            'a' <= c <= 'z' || 'A' <= c <= 'Z' || '0' <= c <= '9' || c in {'.', '_', '-', '#'}
  {
    assert "._-#"[0] == '.' && "._-#"[1] == '_' && "._-#"[2] == '-' && "._-#"[3] == '#';
  }

  // ----- Matching -----

  /** A pattern matches piece by piece. */
  lemma GlobPieces(a: string, b: string, x: string)
    ensures GlobMatch(a + b, x) <==> exists k :: 0 <= k <= |x| && GlobMatch(a, x[..k]) && GlobMatch(b, x[k..])
  {
    if GlobMatch(a + b, x) {
      var k := GlobSplit(a, b, x);
    }
    if k :| 0 <= k <= |x| && GlobMatch(a, x[..k]) && GlobMatch(b, x[k..]) {
      GlobJoin(a, b, x[..k], x[k..]);
      assert x[..k] + x[k..] == x;
    }
  }

  /** A star stands for any run of letters, digits and the characters . _ - + #, and text for itself. */
  lemma PieceMeaning(s: string, x: string)
    requires s == "*" || '*' !in s
    ensures GlobMatch(s, x) <==>
            if s == "*" then
              forall c :: c in x ==>
                'a' <= c <= 'z' || 'A' <= c <= 'Z' || '0' <= c <= '9' || c in {'.', '_', '-', '+', '#'}
            else x == s
  {
    assert "._-+#"[0] == '.' && "._-+#"[1] == '_' && "._-+#"[2] == '-' && "._-+#"[3] == '+' && "._-+#"[4] == '#';
    if s == "*" {
      if AllStarChars(x) { StarMatches(x); }
      if GlobMatch(s, x) { StarCharsOnly(s, x); }
      assert AllStarChars(x) <==> forall c :: c in x ==> IsStarChar(c);
    } else {
      GlobSelf(s);
    }
  }

  /** A domain is the end of the email. */
  lemma DomainMeaning(config: string, email: string)
    ensures Match(DomainEmail(config), email) <==> exists front :: email == front + config
  {
    if EndsWith(email, config) {
      assert email == email[..|email| - |config|] + config;
    }
  }

  // ----- Parsing -----

  lemma StarsMatch(stars: string, x: string)
    requires AllStars(stars) && AllStarChars(x)
    ensures GlobMatch(stars, x)
    decreases |stars|
  {
    if |stars| == 1 {
      assert stars == "*";
      StarMatches(x);
    } else {
      StarsMatch(stars[1..], x);
    }
  }

  /** Text that is parsed to match all matches every email. */
  lemma MatchAllMeaning(s: string, e: string)
    requires OneAt(s) && IsMatchAll(s) && ValidEmail(e)
    ensures GlobMatch(s, e)
  {
    var i :| 0 < i < |s| && s[i] == '@' && AllStars(s[..i]) && AllStars(s[i + 1..]);
    var a, b := SplitAt(e);
    assert e[|a|] == '@' && forall k :: 0 <= k < |e| && k != |a| ==> IsMailChar(e[k]);
    assert forall k :: 0 <= k < |a| ==> a[k] == e[k];
    assert forall k :: 0 <= k < |b| ==> b[k] == e[|a| + 1 + k];
    StarsMatch(s[..i], a);
    StarsMatch(s[i + 1..], b);
    GlobSelf("@");
    GlobJoin("@", s[i + 1..], "@", b);
    GlobJoin(s[..i], "@" + s[i + 1..], a, "@" + b);
    assert s == s[..i] + ("@" + s[i + 1..]);
  }

  /**
   * Whatever class text is parsed to, it matches the emails that the text describes: those that end with it
   * when it is a domain, and otherwise those that it matches as a pattern.
   */
  lemma ParsedMeaning(s: string, language: iset<string>, e: string)
    requires ValidPattern(s) && ValidEmail(e) && GetInstance(s, language).Success?
    ensures GetInstance(s, language).value.Some?
    ensures Match(GetInstance(s, language).value.value, e) <==> if s[0] == '@' then EndsWith(e, s) else GlobMatch(s, e)
  {
    if IsMatchAll(s) {
      MatchAllMeaning(s, e);
    } else if '*' !in s {
      GlobSelf(s);
    }
  }

  /** Other text: nothing is configured by an empty line, an address needs an '@', and '^' with '$' marks a regex. */
  lemma OtherText(s: string, language: iset<string>)
    ensures s == "" <==> GetInstance(s, language) == Success(None)
    ensures s != "" && '@' !in s ==>
              GetInstance(s, language) == if AllStars(s) then Success(Some(AllUserEmail)) else Failure(InvalidEmail)
    ensures '@' in s && s[0] == '^' && s[|s| - 1] == '$' ==>
              GetInstance(s, language) == Success(Some(RegexUserEmail(s, language)))
    ensures s != "" && (s[0] != '^' || s[|s| - 1] != '$') ==>
              GetInstance(s, language).Success? ==> !GetInstance(s, language).value.value.RegexUserEmail?
  {
  }

  // ----- Containment -----

  /** Every valid email that `other` matches is matched by `u`. */
  ghost predicate Includes(u: UserEmail, other: UserEmail) {
    forall e :: ValidEmail(e) && Match(other, e) ==> Match(u, e)
  }

  /** A regex-free configuration as it is parsed. */
  ghost predicate Parsed(u: UserEmail) {
    ValidConfig(u) && (u.UserEmailPattern? ==> ParsedPattern(u.config))
  }

  lemma Included(u: UserEmail, other: UserEmail)
    requires ValidConfig(u) && ValidConfig(other) && UserEmails.Contain(u, other) == Some(true)
    ensures Includes(u, other)
  {
    forall e | ValidEmail(e) && Match(other, e) ensures Match(u, e) {
      ContainSound(u, other, e);
    }
  }

  lemma Longer(config: string, c: char)
    requires ValidEmail(config) && IsMailChar(c)
    ensures ValidEmail(config + [c]) && ValidEmail([c] + config)
  {
    var at :| 0 <= at < |config| && config[at] == '@';
    assert (config + [c])[at] == '@' && ([c] + config)[at + 1] == '@';
    assert forall i :: 0 < i < |[c] + config| ==> ([c] + config)[i] == config[i - 1];
  }

  /** An email that `other` matches and an exact email does not. */
  lemma NotOnlyOne(config: string, other: UserEmail) returns (e: string)
    requires ValidEmail(config) && config[0] != '@' && Parsed(other) && other != ExactUserEmail(config)
    ensures ValidEmail(e) && Match(other, e) && e != config
  {
    match other
    case AllUserEmail =>
      e := config + "a";
      Longer(config, 'a');
    case ExactUserEmail(c) => e := c;
    case DomainEmail(d) =>
      e := if config == "a" + d then "b" + d else "a" + d;
      Longer(d, 'a');
      Longer(d, 'b');
      assert ("a" + d)[0] != ("b" + d)[0] && ("a" + d)[1..] == d == ("b" + d)[1..];
    case UserEmailPattern(p) => e := LongMatch(other, |config|);
  }

  /** Where the '@' of an email is, there its domain starts. */
  lemma DomainAt(e: string, d: string, at: nat)
    requires ValidEmail(e) && d != "" && d[0] == '@' && at < |e| && e[at] == '@'
    ensures EndsWith(e, d) <==> e[at..] == d
  {
    if EndsWith(e, d) {
      assert e[|e| - |d|] == e[|e| - |d|..][0] == '@';
    }
  }

  /** An email that `other` matches and that does not end with the domain. */
  lemma OutsideDomain(d: string, other: UserEmail) returns (e: string)
    requires ValidEmail(d) && d[0] == '@' && Parsed(other) && UserEmails.Contain(DomainEmail(d), other) == Some(false)
    ensures ValidEmail(e) && Match(other, e) && !EndsWith(e, d)
  {
    match other
    case AllUserEmail =>
      e := d + "a";
      Longer(d, 'a');
      DomainAt(e, d, 0);
    case ExactUserEmail(c) => e := c;
    case DomainEmail(d2) =>
      e := "a" + d2;
      Longer(d2, 'a');
      DomainAt(e, d, 1);
      assert e[1..] == d2;
    case UserEmailPattern(p) =>
      e := Fill(p, |d| + 1);
      PatternOutsideDomain(d, p);
  }

  /** With every star of the pattern filled beyond the length of the domain it only ends with it when the pattern
      does. */
  lemma PatternOutsideDomain(d: string, p: string)
    requires ValidEmail(d) && d[0] == '@' && ParsedPattern(p) && !EndsWith(p, d)
    ensures ValidEmail(Fill(p, |d| + 1)) && GlobMatch(p, Fill(p, |d| + 1)) && !EndsWith(Fill(p, |d| + 1), d)
  {
    var n := |d| + 1;
    var e := Fill(p, n);
    LongPatternMatch(p, n);
    var a, b := SplitAt(p);
    PatternParts(p, a, b);
    FillChars(b, n);
    hide GlobMatch;
    FillConcat(a, "@" + b, n);
    FillConcat("@", b, n);
    assert Fill("@", n) == "@" by { assert "@"[1..] == ""; }
    hide Fill, ValidEmail, ParsedPattern, ValidPattern, NoAt;
    assert e == Fill(a, n) + ("@" + Fill(b, n));
    assert e[|Fill(a, n)|] == '@' && e[|Fill(a, n)|..] == "@" + Fill(b, n);
    DomainAt(e, d, |Fill(a, n)|);
    if '*' !in b {
      FillLiteral(b, n);
      assert p[|p| - |"@" + b|..] == "@" + b;
    }
  }

  lemma {:induction false} FillLiteral(b: string, n: nat)
    requires '*' !in b
    ensures Fill(b, n) == b
  {
    if b != "" {
      FillLiteral(b[1..], n);
    }
  }

  lemma {:induction false} LiteralOccurs(p: string, e: string, c: char)
    requires GlobMatch(p, e) && c in p && c != '*'
    ensures c in e
    decreases |p| + |e|
  {
    if p[0] == '*' && !GlobMatch(p[1..], e) {
      LiteralOccurs(p, e[1..], c);
    } else if p[0] == '*' {
      LiteralOccurs(p[1..], e, c);
    } else if p[0] != c {
      LiteralOccurs(p[1..], e[1..], c);
    }
  }

  lemma TwoEmails()
    ensures ValidEmail("a@a") && ValidEmail("b@b")
    ensures 'a' !in "b@b" && forall c :: c in "a@a" ==> c == 'a' || c == '@'
  {
    assert "a@a"[1] == '@' && "b@b"[1] == '@';
    assert "b@b"[0] == 'b' && "b@b"[2] == 'b';
  }

  /** A pattern of stars and an '@' at its end. */
  lemma EndsWithAt(p: string)
    requires ParsedPattern(p) && forall k :: 0 <= k < |p| ==> p[k] == '*' || p[k] == '@'
    ensures !GlobMatch(p, "a@a")
  {
    MatchAllIs(p);
    hide GlobMatch, IsMatchAll;
    assert p[..|p| - 1] + "@" == p;
    if GlobMatch(p, "a@a") {
      LiteralSuffix(p[..|p| - 1], "@", "a@a");
    }
  }

  /** No parsed pattern matches every email. */
  lemma OutsidePattern(p: string) returns (e: string)
    requires ParsedPattern(p)
    ensures ValidEmail(e) && !GlobMatch(p, e)
  {
    hide GlobMatch, ValidEmail, ParsedPattern;
    TwoEmails();
    if c :| c in p && c != '*' && c != '@' {
      e := if c == 'a' then "b@b" else "a@a";
      if GlobMatch(p, e) { LiteralOccurs(p, e, c); }
    } else {
      e := "a@a";
      assert forall k :: 0 <= k < |p| ==> p[k] in p;
      EndsWithAt(p);
    }
  }

  /**
   * Outside the containment of one pattern in another, or of a domain in a pattern, `contain` is exact: it
   * answers True exactly when every email that the argument matches is matched by the receiver.
   */
  lemma ContainExactlyOthers(u: UserEmail, other: UserEmail)
    requires Parsed(u) && Parsed(other)
    requires u.UserEmailPattern? ==> other.AllUserEmail? || other.ExactUserEmail?
    ensures UserEmails.Contain(u, other) == Some(true) <==> Includes(u, other)
    ensures UserEmails.Contain(u, other).Some?
  {
    if UserEmails.Contain(u, other) == Some(true) {
      Included(u, other);
    } else {
      var e: string;
      match u
      case AllUserEmail => assert false;
      case ExactUserEmail(config) => e := NotOnlyOne(config, other);
      case DomainEmail(d) => e := OutsideDomain(d, other);
      case UserEmailPattern(p) =>
        if other.AllUserEmail? { e := OutsidePattern(p); } else { e := other.config; }
      assert ValidEmail(e) && Match(other, e) && !Match(u, e);
    }
  }

  /** A regex in the argument or the receiver makes it answer None, but for the receiver that matches all. */
  lemma ContainRegex(u: UserEmail, other: UserEmail)
    ensures UserEmails.Contain(u, other).None? <==> u.RegexUserEmail? || (other.RegexUserEmail? && !u.AllUserEmail?)
  {
  }
}
