/** Authorization of a user for a domain and a path, by the two evaluators of the repository. */
module Authorizations {
  import opened Wrappers
  import opened GroupTree
  import opened UserGroups

  datatype RequestDomain =
    | AllRequestDomain
    | ExactRequestDomain(config: string)
    | SufixRequestDomain(config: string)
    | RegexRequestDomain(config: string, language: iset<string>)

  datatype RequestPath =
    | AllRequestPath
    | ExactRequestPath(path: string)
    | PrefixRequestPath(config: string)
    | RegexRequestPath(config: string, language: iset<string>)
  {
    predicate MatchAll() {
      match this
      case AllRequestPath => true
      case ExactRequestPath(_) => false
      case PrefixRequestPath(config) => config == "/"
      case RegexRequestPath(config, _) => config == "^.*$"
    }

    predicate Match(path: string) {
      match this
      case AllRequestPath => true
      case ExactRequestPath(p) => p == path
      case PrefixRequestPath(config) => path != "" && config <= path
      case RegexRequestPath(_, language) => path != "" && path in language
    }
  }

  predicate DomainMatch(d: RequestDomain, domain: string) {
    match d
    case AllRequestDomain => true
    case ExactRequestDomain(config) => config == domain
    case SufixRequestDomain(config) => domain != "" && |config| <= |domain| && domain[|domain| - |config|..] == config
    case RegexRequestDomain(_, language) => domain != "" && domain in language
  }

  predicate AnyMatchAll(paths: seq<RequestPath>) {
    exists p :: p in paths && p.MatchAll()
  }

  predicate AnyMatch(paths: seq<RequestPath>, path: string) {
    exists p :: p in paths && p.Match(path)
  }

  datatype Authorization = Authorization(domain: RequestDomain, paths: seq<RequestPath>,
                                         excludedPaths: seq<RequestPath>) {
    predicate AllowAll() {
      (paths == [] || AnyMatchAll(paths)) && excludedPaths == []
    }

    predicate DenyAll() {
      AnyMatchAll(excludedPaths)
    }

    /** What AuthorizationMixin.allow answers. */
    predicate Allows(path: string) {
      AllowAll() || (!DenyAll() && (paths == [] || AnyMatch(paths, path)) && !AnyMatch(excludedPaths, path))
    }
  }

  // ----- What the configurations mean -----

  /** A suffix is the end of the domain. */
  lemma DomainMeaning(d: RequestDomain, domain: string)
    ensures d.AllRequestDomain? ==> DomainMatch(d, domain)
    ensures d.ExactRequestDomain? ==> (DomainMatch(d, domain) <==> domain == d.config)
    ensures d.SufixRequestDomain? ==>
              (DomainMatch(d, domain) <==> domain != "" && exists front :: domain == front + d.config)
    ensures d.RegexRequestDomain? ==> (DomainMatch(d, domain) <==> domain != "" && domain in d.language)
  {
    if d.SufixRequestDomain? && DomainMatch(d, domain) {
      assert domain == domain[..|domain| - |d.config|] + d.config;
    }
  }

  /** A prefix is the beginning of the path. */
  lemma PathMeaning(p: RequestPath, path: string)
    ensures p.AllRequestPath? ==> p.Match(path)
    ensures p.ExactRequestPath? ==> (p.Match(path) <==> path == p.path)
    ensures p.PrefixRequestPath? ==> (p.Match(path) <==> path != "" && exists rest :: path == p.config + rest)
    ensures p.RegexRequestPath? ==> (p.Match(path) <==> path != "" && path in p.language)
  {
    if p.PrefixRequestPath? && p.Match(path) {
      assert path == p.config + path[|p.config|..];
    }
  }

  /** The expression that the code takes for one that matches everything does. */
  predicate TrueRegexes(paths: seq<RequestPath>, path: string) {
    forall p :: p in paths && p.RegexRequestPath? && p.config == "^.*$" ==> path in p.language
  }

  /** The path is listed, when paths are listed, and not excluded. */
  predicate IsOpen(a: Authorization, path: string) {
    (a.paths == [] || exists p :: p in a.paths && p.Match(path)) && !exists p :: p in a.excludedPaths && p.Match(path)
  }

  lemma MatchAllMatches(paths: seq<RequestPath>, path: string)
    requires path != "" && path[0] == '/' && TrueRegexes(paths, path) && AnyMatchAll(paths)
    ensures AnyMatch(paths, path)
  {
    var p :| p in paths && p.MatchAll();
    assert p.Match(path);
  }

  /** For every path that starts with a slash the shortcuts for allow-all and deny-all change nothing. */
  lemma AllowsExactly(a: Authorization, path: string)
    requires path != "" && path[0] == '/' && TrueRegexes(a.paths, path) && TrueRegexes(a.excludedPaths, path)
    ensures a.Allows(path) <==> IsOpen(a, path)
  {
    if AnyMatchAll(a.paths) { MatchAllMatches(a.paths, path); }
    if AnyMatchAll(a.excludedPaths) { MatchAllMatches(a.excludedPaths, path); }
  }

  /** For any path they are the only other reason: an allow-all lets it through and a deny-all stops it. */
  lemma AllowsAnyPath(a: Authorization, path: string)
    ensures a.Allows(path) <==>
            || (a.excludedPaths == [] && (a.paths == [] || exists p :: p in a.paths && p.MatchAll()))
            || (IsOpen(a, path) && !exists p :: p in a.excludedPaths && p.MatchAll())
  {
  }

  method ComputeAnyMatch(paths: seq<RequestPath>, path: string) returns (matched: bool)
    ensures matched <==> AnyMatch(paths, path)
  {
    for i := 0 to |paths|
      invariant forall k :: 0 <= k < i ==> !paths[k].Match(path)
    {
      if paths[i].Match(path) {
        return true;
      }
    }
    return false;
  }

  method Allow(a: Authorization, path: string) returns (r: bool)
    ensures r <==> a.Allows(path)
  {
    if a.AllowAll() {
      return true;
    } else if a.DenyAll() {
      return false;
    }
    if a.paths != [] {
      var matched := ComputeAnyMatch(a.paths, path);
      if !matched {
        return false;
      }
    }
    if a.excludedPaths == [] {
      return true;
    }
    var excluded := ComputeAnyMatch(a.excludedPaths, path);
    return !excluded;
  }

  /** The authorizations of each group, most specific domain first. */
  type GroupAuthorizations = map<GroupId, seq<Authorization>>

  function AuthorizationsOf(auths: GroupAuthorizations, g: GroupId): seq<Authorization> {
    if g in auths then auths[g] else []
  }

  function FirstMatch(list: seq<Authorization>, domain: string): (r: Option<Authorization>)
    ensures r.Some? ==> r.value in list && DomainMatch(r.value.domain, domain)
    ensures r.None? <==> forall a :: a in list ==> !DomainMatch(a.domain, domain)
  {
    if list == [] then None
    else if DomainMatch(list[0].domain, domain) then Some(list[0])
    else FirstMatch(list[1..], domain)
  }

  /** The first domain-matching authorization of the nearest group, from `g` upwards, that has one. */
  ghost function Nearest(d: Directory, auths: GroupAuthorizations, g: GroupId, domain: string): Option<Authorization>
    requires ValidDirectory(d) && g in d.groups
    decreases Rank(d.tree)[g]
  {
    var a := FirstMatch(AuthorizationsOf(auths, g), domain);
    if a.Some? then a
    else if g in d.tree.parent then Nearest(d, auths, d.tree.parent[g], domain)
    else None
  }

  /** An authorization of the group matches the domain. */
  predicate HasMatch(auths: GroupAuthorizations, g: GroupId, domain: string) {
    g in auths && exists a :: a in auths[g] && DomainMatch(a.domain, domain)
  }

  lemma {:induction false} FirstMatchIsFirst(list: seq<Authorization>, domain: string) returns (i: nat)
    requires FirstMatch(list, domain).Some?
    ensures i < |list| && list[i] == FirstMatch(list, domain).value && DomainMatch(list[i].domain, domain)
    ensures forall j :: 0 <= j < i ==> !DomainMatch(list[j].domain, domain)
  {
    if DomainMatch(list[0].domain, domain) {
      i := 0;
    } else {
      var k := FirstMatchIsFirst(list[1..], domain);
      i := k + 1;
    }
  }

  /**
   * It is the first match of a group `h` on the way up, and no group between has any; there is none exactly
   * when no group on the way to the root has one.
   */
  lemma {:induction false} NearestIsFirst(d: Directory, auths: GroupAuthorizations, g: GroupId, domain: string)
    returns (h: GroupId, i: nat)
    requires ValidDirectory(d) && g in d.groups
    ensures h in Above(d.tree, g)
    ensures forall k :: k in Above(d.tree, g) && k !in Above(d.tree, h) ==> !HasMatch(auths, k, domain)
    ensures Nearest(d, auths, g, domain).None? <==> forall k :: k in Above(d.tree, g) ==> !HasMatch(auths, k, domain)
    ensures Nearest(d, auths, g, domain).Some? ==>
              && h in auths && i < |auths[h]| && Nearest(d, auths, g, domain) == Some(auths[h][i])
              && DomainMatch(auths[h][i].domain, domain)
              && forall j :: 0 <= j < i ==> !DomainMatch(auths[h][j].domain, domain)
    decreases Rank(d.tree)[g]
  {
    h, i := g, 0;
    if FirstMatch(AuthorizationsOf(auths, g), domain).Some? {
      i := FirstMatchIsFirst(AuthorizationsOf(auths, g), domain);
      assert auths[g][i] in auths[g];
    } else if g in d.tree.parent {
      h, i := NearestIsFirst(d, auths, d.tree.parent[g], domain);
    }
  }

  /** The uncached meaning: some group of the list has a nearest authorization that allows the path. */
  ghost predicate Grants(d: Directory, auths: GroupAuthorizations, usergroups: seq<GroupId>, domain: string,
                         path: string)
    requires ValidDirectory(d) && forall g :: g in usergroups ==> g in d.groups
  {
    exists g :: g in usergroups && Nearest(d, auths, g, domain).Some? && Nearest(d, auths, g, domain).value.Allows(path)
  }

  // ----- find_authorizations -----

  /** What find_authorizations returns when `found` has been collected from earlier groups. */
  ghost function Collect(d: Directory, auths: GroupAuthorizations, usergroups: seq<GroupId>, domain: string,
                         found: seq<Authorization>): seq<Authorization>
    requires ValidDirectory(d) && forall g :: g in usergroups ==> g in d.groups
    decreases |usergroups|
  {
    if usergroups == [] then found
    else
      var a := Nearest(d, auths, usergroups[0], domain);
      if a.None? || a.value.DenyAll() then Collect(d, auths, usergroups[1..], domain, found)
      else if a.value.AllowAll() then [a.value]
      else Collect(d, auths, usergroups[1..], domain, found + [a.value])
  }

  /** No group on the way from `g` up to `h`, without `h`, has a match. */
  ghost predicate NoMatchBefore(d: Directory, auths: GroupAuthorizations, g: GroupId, h: GroupId, domain: string)
    requires ValidDirectory(d) && g in d.groups && h in d.groups
  {
    forall k :: k in Above(d.tree, g) && k !in Above(d.tree, h) ==> !HasMatch(auths, k, domain)
  }

  /** The inner loops: the walk up from one group to its nearest match. */
  method FindNearest(d: Directory, auths: GroupAuthorizations, usergroup: GroupId, domain: string)
    returns (checkgroup: GroupId, r: Option<Authorization>)
    requires ValidDirectory(d) && usergroup in d.groups
    ensures r == Nearest(d, auths, usergroup, domain)
    ensures checkgroup in Above(d.tree, usergroup) && (r.None? ==> checkgroup == d.tree.root)
    ensures FirstMatch(AuthorizationsOf(auths, checkgroup), domain) == r
    ensures NoMatchBefore(d, auths, usergroup, checkgroup, domain)
  {
    checkgroup := usergroup;
    while true
      invariant checkgroup in Above(d.tree, usergroup)
      invariant NoMatchBefore(d, auths, usergroup, checkgroup, domain)
      invariant Nearest(d, auths, checkgroup, domain) == Nearest(d, auths, usergroup, domain)
      decreases Rank(d.tree)[checkgroup]
    {
      var authorizations := AuthorizationsOf(auths, checkgroup);
      for i := 0 to |authorizations|
        invariant FirstMatch(authorizations, domain) == FirstMatch(authorizations[i..], domain)
      {
        if DomainMatch(authorizations[i].domain, domain) {
          return checkgroup, Some(authorizations[i]);
        }
      }
      if checkgroup !in d.tree.parent {
        return checkgroup, None;
      }
      AboveTransitive(d.tree, usergroup, checkgroup);
      assert d.tree.parent[checkgroup] in Above(d.tree, d.tree.parent[checkgroup]);
      checkgroup := d.tree.parent[checkgroup];
    }
  }

  method FindAuthorizations(d: Directory, auths: GroupAuthorizations, usergroups: seq<GroupId>, domain: string)
    returns (matched: seq<Authorization>)
    requires ValidDirectory(d) && forall g :: g in usergroups ==> g in d.groups
    ensures matched == Collect(d, auths, usergroups, domain, [])
  {
    matched := [];
    for i := 0 to |usergroups|
      invariant Collect(d, auths, usergroups, domain, []) == Collect(d, auths, usergroups[i..], domain, matched)
    {
      var _, a := FindNearest(d, auths, usergroups[i], domain);
      if a.Some? {
        if a.value.DenyAll() {
        } else if a.value.AllowAll() {
          return [a.value];
        } else {
          matched := matched + [a.value];
        }
      }
    }
  }

  /** Some authorization of the list allows the path. */
  ghost predicate AnyAllows(found: seq<Authorization>, path: string) {
    exists a :: a in found && a.Allows(path)
  }

  /** Returning early on an allow-all and skipping the deny-alls does not change the answer for any path. */
  lemma {:induction false} CollectGrants(d: Directory, auths: GroupAuthorizations, usergroups: seq<GroupId>,
                                         domain: string, found: seq<Authorization>, path: string)
    requires ValidDirectory(d) && forall g :: g in usergroups ==> g in d.groups
    ensures AnyAllows(Collect(d, auths, usergroups, domain, found), path) <==>
            AnyAllows(found, path) || Grants(d, auths, usergroups, domain, path)
    decreases |usergroups|
  {
    if usergroups != [] {
      var g, rest := usergroups[0], usergroups[1..];
      var a := Nearest(d, auths, g, domain);
      assert forall x :: x in usergroups <==> x == g || x in rest;
      assert Grants(d, auths, usergroups, domain, path) <==>
             (a.Some? && a.value.Allows(path)) || Grants(d, auths, rest, domain, path);
      if a.None? || a.value.DenyAll() {
        CollectGrants(d, auths, rest, domain, found, path);
      } else if !a.value.AllowAll() {
        CollectGrants(d, auths, rest, domain, found + [a.value], path);
        assert AnyAllows(found + [a.value], path) <==> AnyAllows(found, path) || a.value.Allows(path);
      } else {
        assert a.value in [a.value];
      }
    }
  }

  // ----- find_all_authorizations and check_authorization -----

  datatype Checked = Checked(usergroup: GroupId, checkgroup: GroupId, allowed: bool)

  predicate IsSso(path: string) {
    "/sso/" <= path
  }

  lemma SsoMeaning(path: string)
    ensures IsSso(path) <==> exists rest :: path == "/sso/" + rest
  {
    if IsSso(path) {
      assert path == "/sso/" + path[5..];
    }
  }

  /** What check_authorization decides for one group of the user. */
  ghost predicate EntryAllows(d: Directory, auths: GroupAuthorizations, g: GroupId, domain: string, path: string)
    requires ValidDirectory(d) && g in d.groups
  {
    IsSso(path) || (Nearest(d, auths, g, domain).Some? && Nearest(d, auths, g, domain).value.Allows(path))
  }

  ghost predicate CheckAnswer(d: Directory, auths: GroupAuthorizations, usergroups: seq<GroupId>, domain: string,
                              path: string)
    requires ValidDirectory(d) && forall g :: g in usergroups ==> g in d.groups
  {
    exists g :: g in usergroups && EntryAllows(d, auths, g, domain, path)
  }

  /** check_authorization for the groups of a user, with the list that find_all_authorizations builds. */
  method CheckAuthorization(d: Directory, auths: GroupAuthorizations, usergroups: seq<GroupId>, domain: string,
                            path: string)
    returns (allow: bool, result: seq<Checked>)
    requires ValidDirectory(d) && forall g :: g in usergroups ==> g in d.groups
    ensures allow <==> CheckAnswer(d, auths, usergroups, domain, path)
    ensures |result| == |usergroups|
    ensures forall i :: 0 <= i < |result| ==>
              && result[i].usergroup == usergroups[i]
              && result[i].checkgroup in Above(d.tree, usergroups[i])
              && NoMatchBefore(d, auths, usergroups[i], result[i].checkgroup, domain)
              && FirstMatch(AuthorizationsOf(auths, result[i].checkgroup), domain) ==
                 Nearest(d, auths, usergroups[i], domain)
              && (result[i].allowed <==> EntryAllows(d, auths, usergroups[i], domain, path))
  {
    allow, result := false, [];
    for i := 0 to |usergroups|
      invariant |result| == i
      invariant allow <==> exists k :: 0 <= k < i && result[k].allowed
      invariant forall k :: 0 <= k < i ==>
              && result[k].usergroup == usergroups[k]
              && result[k].checkgroup in Above(d.tree, usergroups[k])
              && NoMatchBefore(d, auths, usergroups[k], result[k].checkgroup, domain)
              && FirstMatch(AuthorizationsOf(auths, result[k].checkgroup), domain) ==
                 Nearest(d, auths, usergroups[k], domain)
              && (result[k].allowed <==> EntryAllows(d, auths, usergroups[k], domain, path))
    {
      var checkgroup, a := FindNearest(d, auths, usergroups[i], domain);
      var allowed := false;
      if IsSso(path) {
        allowed := true;
      } else if a.Some? {
        allowed := Allow(a.value, path);
      }
      var result' := result + [Checked(usergroups[i], checkgroup, allowed)];
      assert result'[i].allowed == allowed && forall k :: 0 <= k < i ==> result'[k] == result[k];
      result := result';
      allow := allow || allowed;
    }
    if CheckAnswer(d, auths, usergroups, domain, path) {
      var g :| g in usergroups && EntryAllows(d, auths, g, domain, path);
      var k :| 0 <= k < |usergroups| && usergroups[k] == g;
      assert result[k].allowed;
    }
  }

  /** The two evaluators agree exactly when the path is not under /sso/, the user is in no group, or access is granted
      anyway. */
  lemma EvaluatorsAgree(d: Directory, auths: GroupAuthorizations, usergroups: seq<GroupId>, domain: string,
                        path: string)
    requires ValidDirectory(d) && forall g :: g in usergroups ==> g in d.groups
    ensures (CheckAnswer(d, auths, usergroups, domain, path) ==
             AnyAllows(Collect(d, auths, usergroups, domain, []), path)) <==>
            (!IsSso(path) || usergroups == [] || AnyAllows(Collect(d, auths, usergroups, domain, []), path))
  {
    CollectGrants(d, auths, usergroups, domain, [], path);
    if usergroups != [] {
      assert usergroups[0] in usergroups;
      assert IsSso(path) ==> EntryAllows(d, auths, usergroups[0], domain, path);
    }
  }

  /** can_access without its caches. */
  method CanAccessUncached(d: Directory, auths: GroupAuthorizations, usergroups: seq<GroupId>, domain: string,
                           path: string) returns (r: bool)
    requires ValidDirectory(d) && forall g :: g in usergroups ==> g in d.groups
    ensures r <==> Grants(d, auths, usergroups, domain, path)
  {
    var authorizations := FindAuthorizations(d, auths, usergroups, domain);
    r := AnyAllow(authorizations, path);
    CollectGrants(d, auths, usergroups, domain, [], path);
  }

  method AnyAllow(authorizations: seq<Authorization>, path: string) returns (r: bool)
    ensures r <==> AnyAllows(authorizations, path)
  {
    for i := 0 to |authorizations|
      invariant forall k :: 0 <= k < i ==> !authorizations[k].Allows(path)
    {
      var allowed := Allow(authorizations[i], path);
      if allowed {
        return true;
      }
    }
    return false;
  }
}
