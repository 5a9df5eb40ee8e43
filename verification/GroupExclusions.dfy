/** When the checks of UserGroup.clean keep every child inside its parent: exactly which exclusions allow it. */
module GroupExclusions {
  import opened Wrappers
  import opened UserEmails
  import opened UserGroups
  import opened GroupClean

  /** An email address: it has something before the '@'. */
  ghost predicate IsAddress(e: string) {
    ValidEmail(e) && e[0] != '@'
  }

  /** Patterns as UserEmail.get_instance produces them: with a star, and not starting with '@'. */
  ghost predicate HasParsedPatterns(configs: seq<UserEmail>) {
    forall x :: x in configs && x.UserEmailPattern? ==> '*' in x.config && x.config[0] != '@'
  }

  /** Every accepted child has all its members in the parent. */
  ghost predicate NestsChildren(parent: UserGroup) {
    forall child, e :: ValidGroup(child) && PairAccepted(parent, child) && IsAddress(e) && IsMember(child, e) ==>
      IsMember(parent, e)
  }

  /** An exclusion of the parent other than an exact email matches the address. */
  ghost predicate WidelyExcluded(parent: UserGroup, e: string) {
    exists x :: x in parent.excludedUsers && !x.ExactUserEmail? && Match(x, e)
  }

  /** What the wide exclusions take away from the users of the parent is also excluded address by address. */
  ghost predicate SpelledOut(parent: UserGroup) {
    forall e :: IsAddress(e) && MatchesAny(parent.users, e) && WidelyExcluded(parent, e) ==>
      ExactUserEmail(e) in parent.excludedUsers
  }

  // ----- The condition is enough -----

  lemma SpelledOutNests(parent: UserGroup, child: UserGroup, e: string)
    requires ValidGroup(parent) && SpelledOut(parent)
    requires ValidGroup(child) && PairAccepted(parent, child) && IsAddress(e) && IsMember(child, e)
    ensures IsMember(parent, e)
  {
    var u :| u in child.users && Match(u, e);
    var p :| p in parent.users && UserEmails.Contain(p, u) != Some(false);
    NotRuledOutSound(p, u, e);
    assert MatchesAny(parent.users, e);
    forall x | x in parent.excludedUsers ensures !Match(x, e) {
      if Match(x, e) {
        var exact := if x.ExactUserEmail? then x else ExactUserEmail(e);
        assert !x.ExactUserEmail? ==> WidelyExcluded(parent, e);
        ExclusionKept(parent, child, u, exact, e);
      }
    }
  }

  // ----- The condition is necessary -----

  /** A child with just the address is accepted by a parent that matches it and does not name it in an exclusion. */
  lemma SingleAccepted(parent: UserGroup, e: string)
    requires ValidGroup(parent) && HasParsedPatterns(parent.excludedUsers) && IsAddress(e)
    requires MatchesAny(parent.users, e) && ExactUserEmail(e) !in parent.excludedUsers
    ensures var child := UserGroup("c", [ExactUserEmail(e)], []);
            ValidGroup(child) && PairAccepted(parent, child) && IsMember(child, e)
  {
    var child := UserGroup("c", [ExactUserEmail(e)], []);
    var p :| p in parent.users && Match(p, e);
    ContainExact(p, ExactUserEmail(e));
    assert NotRuledOut(parent.users, ExactUserEmail(e));
    forall x | x in parent.excludedUsers ensures !ContainedBy(child.users, x) {
      NamesOther(x, e);
    }
    assert child.users[0] in child.users && Match(child.users[0], e);
  }

  lemma NamesOther(x: UserEmail, e: string)
    requires ValidConfig(x) && IsAddress(e) && x != ExactUserEmail(e)
    requires x.UserEmailPattern? ==> '*' in x.config
    ensures UserEmails.Contain(ExactUserEmail(e), x) != Some(true)
  {
    assert '*' !in e;
  }

  /**
   * All accepted children are inside the parent exactly when its wide exclusions take nothing away from its
   * users that is not excluded address by address as well.
   */
  lemma NestsExactly(parent: UserGroup)
    requires ValidGroup(parent) && HasParsedPatterns(parent.excludedUsers)
    ensures NestsChildren(parent) <==> SpelledOut(parent)
  {
    if SpelledOut(parent) {
      forall child, e | ValidGroup(child) && PairAccepted(parent, child) && IsAddress(e) && IsMember(child, e)
        ensures IsMember(parent, e)
      {
        SpelledOutNests(parent, child, e);
      }
    }
    forall e | IsAddress(e) && MatchesAny(parent.users, e) && WidelyExcluded(parent, e) &&
               ExactUserEmail(e) !in parent.excludedUsers
      ensures !NestsChildren(parent)
    {
      SingleAccepted(parent, e);
      var child := UserGroup("c", [ExactUserEmail(e)], []);
      assert !IsMember(parent, e);
    }
  }

  // ----- Wide exclusions match arbitrarily long addresses -----

  function Letters(n: nat): string {
    seq(n, _ => 'a')
  }

  predicate NoAt(s: string) {
    forall i :: 0 <= i < |s| ==> s[i] != '@'
  }

  predicate MailChars(s: string) {
    forall i :: 0 <= i < |s| ==> IsMailChar(s[i])
  }

  /** The pattern with `n` letters for every star. */
  function Fill(p: string, n: nat): string {
    if p == "" then "" else (if p[0] == '*' then Letters(n) else [p[0]]) + Fill(p[1..], n)
  }

  lemma {:induction false} FillMatches(p: string, n: nat)
    ensures GlobMatch(p, Fill(p, n))
  {
    if p != "" {
      FillMatches(p[1..], n);
      if p[0] == '*' {
        StarMatches(Letters(n));
        GlobJoin("*", p[1..], Letters(n), Fill(p[1..], n));
        assert "*" + p[1..] == p;
      } else {
        assert Fill(p, n)[1..] == Fill(p[1..], n);
      }
    }
  }

  lemma {:induction false} FillConcat(a: string, b: string, n: nat)
    ensures Fill(a + b, n) == Fill(a, n) + Fill(b, n)
  {
    if a == "" {
      assert a + b == b;
    } else {
      assert (a + b)[1..] == a[1..] + b;
      FillConcat(a[1..], b, n);
    }
  }

  lemma {:induction false} FillChars(p: string, n: nat)
    requires forall i :: 0 <= i < |p| ==> IsMailChar(p[i]) || p[i] == '*'
    ensures MailChars(Fill(p, n)) && ('*' in p ==> |Fill(p, n)| >= n)
  {
    if p != "" {
      assert forall i :: 0 <= i < |p[1..]| ==> p[1..][i] == p[i + 1];
      FillChars(p[1..], n);
      assert '*' in p ==> p[0] == '*' || '*' in p[1..];
    }
  }

  lemma AroundAt(a: string, b: string)
    requires MailChars(a) && MailChars(b)
    ensures ValidEmail(a + ("@" + b))
  {
    var s := a + ("@" + b);
    assert s[|a|] == '@';
    assert forall i :: 0 <= i < |s| && i != |a| ==> s[i] == if i < |a| then a[i] else b[i - |a| - 1];
  }

  lemma SplitAt(s: string) returns (a: string, b: string)
    requires OneAt(s)
    ensures s == a + ("@" + b) && NoAt(a) && NoAt(b)
  {
    var at :| 0 <= at < |s| && s[at] == '@';
    a, b := s[..at], s[at + 1..];
  }

  lemma LongPatternMatch(p: string, n: nat)
    requires ValidPattern(p) && '*' in p && p[0] != '@' && n > 0
    ensures IsAddress(Fill(p, n)) && |Fill(p, n)| >= n && GlobMatch(p, Fill(p, n))
  {
    FillMatches(p, n);
    var a, b := SplitAt(p);
    PatternParts(p, a, b);
    FillConcat(a, "@" + b, n);
    FillConcat("@", b, n);
    assert Fill("@", n) == "@" by { assert "@"[1..] == ""; }
    FillChars(a, n);
    FillChars(b, n);
    AroundAt(Fill(a, n), Fill(b, n));
    assert a != "";
    assert Fill(a, n)[0] == if a[0] == '*' then 'a' else a[0];
    assert '*' in a || '*' in b;
  }

  lemma PatternParts(p: string, a: string, b: string)
    requires ValidPattern(p) && p == a + ("@" + b) && NoAt(a) && NoAt(b)
    ensures forall i :: 0 <= i < |a| ==> IsMailChar(a[i]) || a[i] == '*'
    ensures forall i :: 0 <= i < |b| ==> IsMailChar(b[i]) || b[i] == '*'
  {
    assert forall i :: 0 <= i < |a| ==> a[i] == p[i];
    assert forall i :: 0 <= i < |b| ==> b[i] == p[|a| + 1 + i];
  }

  /** Every exclusion but an exact email matches addresses longer than any bound. */
  lemma LongMatch(x: UserEmail, n: nat) returns (e: string)
    requires ValidConfig(x) && !x.ExactUserEmail? && (x.UserEmailPattern? ==> '*' in x.config && x.config[0] != '@')
    ensures IsAddress(e) && |e| > n && Match(x, e)
  {
    match x
    case AllUserEmail =>
      e := Letters(n + 1) + ("@" + "");
      AroundAt(Letters(n + 1), "");
    case DomainEmail(config) =>
      var a, b := SplitAt(config);
      assert a == "";
      assert config == "@" + b;
      assert forall i :: 0 <= i < |b| ==> b[i] == config[i + 1];
      e := Letters(n + 1) + ("@" + b);
      AroundAt(Letters(n + 1), b);
    case UserEmailPattern(config) =>
      e := Fill(config, n + 1);
      LongPatternMatch(config, n + 1);
  }

  function MaxLength(configs: seq<UserEmail>): nat {
    if configs == [] then 0
    else
      var rest := MaxLength(configs[1..]);
      if |ConfigOf(configs[0])| > rest then |ConfigOf(configs[0])| else rest
  }

  lemma {:induction false} WithinMaxLength(configs: seq<UserEmail>, x: UserEmail)
    requires x in configs
    ensures |ConfigOf(x)| <= MaxLength(configs)
  {
    if x != configs[0] {
      WithinMaxLength(configs[1..], x);
    }
  }

  /**
   * A parent that `clean` has accepted covers its own exclusions; then all accepted children are inside it
   * exactly when it excludes exact emails only.
   */
  lemma AcceptedNestsExactly(parent: UserGroup)
    requires ValidGroup(parent) && HasParsedPatterns(parent.excludedUsers) && Covers(parent.users, parent.excludedUsers)
    ensures NestsChildren(parent) <==> ExactExclusions(parent)
  {
    NestsExactly(parent);
    if x :| x in parent.excludedUsers && !x.ExactUserEmail? {
      var e := LongMatch(x, MaxLength(parent.excludedUsers));
      var p :| p in parent.users && UserEmails.Contain(p, x) != Some(false);
      NotRuledOutSound(p, x, e);
      assert MatchesAny(parent.users, e) && WidelyExcluded(parent, e);
      if ExactUserEmail(e) in parent.excludedUsers {
        WithinMaxLength(parent.excludedUsers, ExactUserEmail(e));
      }
    }
  }
}
