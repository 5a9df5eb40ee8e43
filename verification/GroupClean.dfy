/** UserGroup.clean: the checks that keep every group inside its parent, and what they guarantee. */
module GroupClean {
  import opened Wrappers
  import opened UserEmails
  import opened GroupTree
  import opened GroupSearch
  import opened UserGroups

  datatype CleanError =
    | NameIsEmpty
    | NameHasTag
    | ParentIsItself
    | ParentIsDescendant
    | ExcludedNotContained
    | NotContainedByParent
    | ParentExclusionContained
    | ChildNotContained
    | ExclusionContainedByChild

  /**
   * The edit that is being validated: the id of an existing group or None for a new one, the name, whether
   * check_xssattack finds a tag in the stripped name, and the parsed fields. `publicGroup` is the public
   * group of the cache at that time, which need not be the root of the tree.
   */
  datatype Edit = Edit(id: Option<GroupId>, name: string, hasTag: bool, groupid: string,
                       users: seq<UserEmail>, excludedUsers: seq<UserEmail>, parent: Option<GroupId>,
                       publicGroup: Option<GroupId>)

  predicate IsBlank(name: string) {
    forall i :: 0 <= i < |name| ==> name[i] in " \t\n\r"
  }

  // ----- The checks as predicates -----

  /** Some config answers anything but False; None, the answer for a regex, counts as contained. */
  predicate NotRuledOut(configs: seq<UserEmail>, u: UserEmail) {
    exists p :: p in configs && UserEmails.Contain(p, u) != Some(false)
  }

  predicate Covers(configs: seq<UserEmail>, users: seq<UserEmail>) {
    forall u :: u in users ==> NotRuledOut(configs, u)
  }

  /** Some config answers True. */
  predicate ContainedBy(configs: seq<UserEmail>, u: UserEmail) {
    exists p :: p in configs && UserEmails.Contain(p, u) == Some(true)
  }

  /** Every exclusion of the parent that the child contains is excluded by the child as well. */
  predicate KeepsExclusions(parent: UserGroup, child: UserGroup) {
    forall x :: x in parent.excludedUsers && ContainedBy(child.users, x) ==> NotRuledOut(child.excludedUsers, x)
  }

  predicate PairAccepted(parent: UserGroup, child: UserGroup) {
    Covers(parent.users, child.users) && KeepsExclusions(parent, child)
  }

  function Cleaned(e: Edit): UserGroup {
    UserGroup(e.groupid,
              if AllUserEmail in e.users || e.users == [] then [AllUserEmail] else e.users,
              if AllUserEmail in e.excludedUsers then [AllUserEmail] else e.excludedUsers)
  }

  /** A group without a parent is put under the public group, unless it is the public group itself. */
  function CleanedParent(e: Edit): Option<GroupId> {
    if e.parent.None? && e.id != e.publicGroup then e.publicGroup else e.parent
  }

  /** Groups whose parent links have no cycle; any number of them may be without a parent, and none need be public. */
  ghost predicate ValidForest(d: Directory) {
    d.groups.Keys == d.tree.Ids() && Acyclic(d.tree) && ListsMirror(d.tree)
  }

  ghost predicate ValidEdit(d: Directory, e: Edit) {
    && ValidForest(d)
    && (e.id.Some? ==> e.id.value in d.groups)
    && (e.parent.Some? ==> e.parent.value in d.groups)
    && (e.publicGroup.Some? ==> e.publicGroup.value in d.groups)
  }

  /** The first failing check, in the order of the code. */
  ghost function CleanOutcome(d: Directory, e: Edit): Result<UserGroup, CleanError>
    requires ValidEdit(d, e)
  {
    var g, parent := Cleaned(e), CleanedParent(e);
    if IsBlank(e.name) then Failure(NameIsEmpty)
    else if e.hasTag then Failure(NameHasTag)
    else if e.id.Some? && parent == e.id then Failure(ParentIsItself)
    else if e.id.Some? && parent.Some? && e.id.value in Above(d.tree, parent.value) then Failure(ParentIsDescendant)
    else if !Covers(g.users, g.excludedUsers) then Failure(ExcludedNotContained)
    else if parent.Some? && !Covers(d.groups[parent.value].users, g.users) then Failure(NotContainedByParent)
    else if parent.Some? && !KeepsExclusions(d.groups[parent.value], g) then Failure(ParentExclusionContained)
    else if e.id.Some? then ChildrenOutcome(d, d.tree.children[e.id.value], g)
    else Success(g)
  }

  function ChildrenOutcome(d: Directory, children: seq<GroupId>, g: UserGroup): Result<UserGroup, CleanError>
    requires forall c :: c in children ==> c in d.groups
  {
    if children == [] then Success(g)
    else if !Covers(g.users, d.groups[children[0]].users) then Failure(ChildNotContained)
    else if !KeepsExclusions(g, d.groups[children[0]]) then Failure(ExclusionContainedByChild)
    else ChildrenOutcome(d, children[1..], g)
  }

  // ----- The checks as loops -----

  method IsNotRuledOut(configs: seq<UserEmail>, u: UserEmail) returns (contained: bool)
    ensures contained <==> NotRuledOut(configs, u)
  {
    contained := false;
    for i := 0 to |configs|
      invariant forall k :: 0 <= k < i ==> UserEmails.Contain(configs[k], u) == Some(false)
    {
      if UserEmails.Contain(configs[i], u) != Some(false) {
        return true;
      }
    }
  }

  method IsContainedBy(configs: seq<UserEmail>, u: UserEmail) returns (contained: bool)
    ensures contained <==> ContainedBy(configs, u)
  {
    contained := false;
    for i := 0 to |configs|
      invariant forall k :: 0 <= k < i ==> UserEmails.Contain(configs[k], u) != Some(true)
    {
      if UserEmails.Contain(configs[i], u) == Some(true) {
        return true;
      }
    }
  }

  method CheckCovers(configs: seq<UserEmail>, users: seq<UserEmail>) returns (r: bool)
    ensures r <==> Covers(configs, users)
  {
    for i := 0 to |users|
      invariant forall k :: 0 <= k < i ==> NotRuledOut(configs, users[k])
    {
      var contained := IsNotRuledOut(configs, users[i]);
      if !contained {
        assert users[i] in users;
        return false;
      }
    }
    return true;
  }

  method CheckKeepsExclusions(parent: UserGroup, child: UserGroup) returns (r: bool)
    ensures r <==> KeepsExclusions(parent, child)
  {
    for i := 0 to |parent.excludedUsers|
      invariant forall k :: 0 <= k < i && ContainedBy(child.users, parent.excludedUsers[k]) ==>
                              NotRuledOut(child.excludedUsers, parent.excludedUsers[k])
    {
      var x := parent.excludedUsers[i];
      var contained := IsContainedBy(child.users, x);
      if !contained {
        continue;
      }
      contained := IsNotRuledOut(child.excludedUsers, x);
      if !contained {
        assert x in parent.excludedUsers;
        return false;
      }
    }
    return true;
  }

  method Clean(d: Directory, e: Edit) returns (r: Result<UserGroup, CleanError>)
    requires ValidEdit(d, e)
    ensures r == CleanOutcome(d, e)
  {
    if IsBlank(e.name) {
      return Failure(NameIsEmpty);
    } else if e.hasTag {
      return Failure(NameHasTag);
    }
    var g, parent := Cleaned(e), CleanedParent(e);
    if e.id.Some? {
      var pgroup := parent;
      while pgroup.Some?
        invariant pgroup.Some? ==> pgroup.value in d.groups
        invariant parent.Some? ==> (e.id.value in Above(d.tree, parent.value) <==>
                                    pgroup.Some? && e.id.value in Above(d.tree, pgroup.value))
        invariant parent.None? ==> pgroup.None?
        decreases if pgroup.Some? then 1 + Rank(d.tree)[pgroup.value] else 0
      {
        if pgroup.value == e.id.value {
          return Failure(if parent == e.id then ParentIsItself else ParentIsDescendant);
        }
        pgroup := if pgroup.value in d.tree.parent then Some(d.tree.parent[pgroup.value]) else None;
      }
    }
    var ok := CheckCovers(g.users, g.excludedUsers);
    if !ok {
      return Failure(ExcludedNotContained);
    }
    if parent.Some? {
      ok := CheckCovers(d.groups[parent.value].users, g.users);
      if !ok {
        return Failure(NotContainedByParent);
      }
      ok := CheckKeepsExclusions(d.groups[parent.value], g);
      if !ok {
        return Failure(ParentExclusionContained);
      }
    }
    if e.id.Some? {
      r := CheckChildren(d, d.tree.children[e.id.value], g);
    } else {
      r := Success(g);
    }
  }

  method CheckChildren(d: Directory, children: seq<GroupId>, g: UserGroup) returns (r: Result<UserGroup, CleanError>)
    requires forall c :: c in children ==> c in d.groups
    ensures r == ChildrenOutcome(d, children, g)
  {
    for i := 0 to |children|
      invariant ChildrenOutcome(d, children, g) == ChildrenOutcome(d, children[i..], g)
    {
      var child := d.groups[children[i]];
      var ok := CheckCovers(g.users, child.users);
      if !ok {
        return Failure(ChildNotContained);
      }
      ok := CheckKeepsExclusions(g, child);
      if !ok {
        return Failure(ExclusionContainedByChild);
      }
    }
    return Success(g);
  }

  // ----- What acceptance means -----

  /** The members of the accepted group are those the edit names: its users, or everybody, without the excluded. */
  lemma CleanedMeaning(d: Directory, e: Edit, email: string)
    requires ValidEdit(d, e) && CleanOutcome(d, e).Success?
    ensures var g := CleanOutcome(d, e).value;
            && g.groupid == e.groupid
            && (IsMember(g, email) <==>
                  (e.users == [] || MatchesAny(e.users, email)) && !MatchesAny(e.excludedUsers, email))
  {
    SuccessIsCleaned(d, e);
    assert MatchesAny([AllUserEmail], email) by { assert Match([AllUserEmail][0], email); }
    if AllUserEmail in e.users { assert Match(AllUserEmail, email); }
    if AllUserEmail in e.excludedUsers { assert Match(AllUserEmail, email); }
  }

  lemma SuccessIsCleaned(d: Directory, e: Edit)
    requires ValidEdit(d, e) && CleanOutcome(d, e).Success?
    ensures CleanOutcome(d, e).value == Cleaned(e)
  {
    hide Cleaned, Covers, KeepsExclusions, Above;
    if e.id.Some? {
      ChildrenExactly(d, d.tree.children[e.id.value], Cleaned(e));
    }
  }

  lemma {:induction false} ChildrenExactly(d: Directory, children: seq<GroupId>, g: UserGroup)
    requires forall c :: c in children ==> c in d.groups
    ensures ChildrenOutcome(d, children, g).Success? ==> ChildrenOutcome(d, children, g).value == g
    ensures ChildrenOutcome(d, children, g).Success? <==> forall c :: c in children ==> PairAccepted(g, d.groups[c])
  {
    hide Covers, KeepsExclusions;
    if children != [] {
      ChildrenExactly(d, children[1..], g);
      assert forall c :: c in children <==> c == children[0] || c in children[1..];
    }
  }

  /** The parent that the group gets: the one that is given, and otherwise the public group, but not itself. */
  lemma ParentMeaning(e: Edit, p: GroupId)
    ensures CleanedParent(e) == Some(p) <==>
            e.parent == Some(p) || (e.parent.None? && e.publicGroup == Some(p) && e.id != Some(p))
  {
  }

  /** The name has no character but white space. */
  lemma BlankMeaning(name: string)
    ensures IsBlank(name) <==> !exists c :: c in name && c != ' ' && c != '\t' && c != '\n' && c != '\r'
  {
    if !IsBlank(name) {
      var i :| 0 <= i < |name| && name[i] !in " \t\n\r";
      assert name[i] in name && " \t\n\r"[0] == ' ' && " \t\n\r"[1] == '\t' && " \t\n\r"[2] == '\n' &&
             " \t\n\r"[3] == '\r';
    }
  }

  /**
   * An edit is accepted exactly when the name is given and has no tag, the new parent is not the group or
   * below it, every exclusion is inside the users, and the group is accepted under its parent and each child
   * under it.
   */
  lemma AcceptedExactly(d: Directory, e: Edit)
    requires ValidEdit(d, e)
    ensures CleanOutcome(d, e).Success? <==>
            && !IsBlank(e.name) && !e.hasTag
            && Covers(Cleaned(e).users, Cleaned(e).excludedUsers)
            && (forall p :: p in d.groups && CleanedParent(e) == Some(p) ==>
                  PairAccepted(d.groups[p], Cleaned(e)) && (e.id.Some? ==> e.id.value !in Above(d.tree, p)))
            && (forall c :: c in d.tree.parent && e.id == Some(d.tree.parent[c]) ==>
                  c in d.groups && PairAccepted(Cleaned(e), d.groups[c]))
  {
    hide Cleaned, Covers, KeepsExclusions, IsBlank, Above;
    if e.id.Some? {
      ChildrenExactly(d, d.tree.children[e.id.value], Cleaned(e));
      assert forall c :: c in d.tree.children[e.id.value] <==> c in d.tree.parent && d.tree.parent[c] == e.id.value;
    }
  }

  /** The new parent is the group or below it. */
  ghost predicate MovesBelow(d: Directory, e: Edit)
    requires ValidEdit(d, e)
  {
    e.id.Some? && exists p :: p in d.groups && CleanedParent(e) == Some(p) && e.id.value in Above(d.tree, p)
  }

  ghost predicate InsideParent(d: Directory, e: Edit)
    requires ValidEdit(d, e)
  {
    forall p :: p in d.groups && CleanedParent(e) == Some(p) ==> PairAccepted(d.groups[p], Cleaned(e))
  }

  /** The error names what fails, and what is checked before it does not fail. */
  lemma ErrorMeaning(d: Directory, e: Edit)
    requires ValidEdit(d, e) && CleanOutcome(d, e).Failure?
    ensures var g, error := Cleaned(e), CleanOutcome(d, e).error;
            && (error == NameIsEmpty <==> IsBlank(e.name))
            && (error == NameHasTag <==> !IsBlank(e.name) && e.hasTag)
            && (error == ParentIsItself ==> e.id.Some? && CleanedParent(e) == e.id)
            && (error == ParentIsDescendant ==> MovesBelow(d, e) && CleanedParent(e) != e.id)
            && (error !in {NameIsEmpty, NameHasTag, ParentIsItself, ParentIsDescendant} ==> !MovesBelow(d, e))
            && (error == ExcludedNotContained <==>
                  !IsBlank(e.name) && !e.hasTag && !MovesBelow(d, e) && !Covers(g.users, g.excludedUsers))
            && (error == NotContainedByParent ==>
                  CleanedParent(e).Some? && !Covers(d.groups[CleanedParent(e).value].users, g.users))
            && (error == ParentExclusionContained ==>
                  && CleanedParent(e).Some? && Covers(d.groups[CleanedParent(e).value].users, g.users)
                  && !KeepsExclusions(d.groups[CleanedParent(e).value], g))
            && (error in {ChildNotContained, ExclusionContainedByChild} ==>
                  && InsideParent(d, e) && e.id.Some?
                  && FirstRejected(d, d.tree.children[e.id.value], g, error))
  {
    hide Cleaned, CleanedParent, Covers, KeepsExclusions, IsBlank, Above, FirstRejected;
    if e.id.Some? {
      ChildErrors(d, d.tree.children[e.id.value], Cleaned(e));
    }
  }

  /** The first child that is not accepted is rejected for this reason. */
  ghost predicate FirstRejected(d: Directory, children: seq<GroupId>, g: UserGroup, error: CleanError)
    requires forall c :: c in children ==> c in d.groups
  {
    exists i ::
      && 0 <= i < |children| && (forall j :: 0 <= j < i ==> PairAccepted(g, d.groups[children[j]]))
      && (if error == ChildNotContained then !Covers(g.users, d.groups[children[i]].users)
          else Covers(g.users, d.groups[children[i]].users) && !KeepsExclusions(g, d.groups[children[i]]))
  }

  lemma {:induction false} ChildErrors(d: Directory, children: seq<GroupId>, g: UserGroup)
    requires forall c :: c in children ==> c in d.groups
    ensures ChildrenOutcome(d, children, g).Failure? ==>
              && ChildrenOutcome(d, children, g).error in {ChildNotContained, ExclusionContainedByChild}
              && FirstRejected(d, children, g, ChildrenOutcome(d, children, g).error)
  {
    hide Covers, KeepsExclusions;
    if children != [] && PairAccepted(g, d.groups[children[0]]) {
      ChildErrors(d, children[1..], g);
      if ChildrenOutcome(d, children, g).Failure? {
        var error := ChildrenOutcome(d, children, g).error;
        var i :| 0 <= i < |children[1..]| && (forall j :: 0 <= j < i ==> PairAccepted(g, d.groups[children[1..][j]])) &&
          (if error == ChildNotContained then !Covers(g.users, d.groups[children[1..][i]].users)
           else Covers(g.users, d.groups[children[1..][i]].users) && !KeepsExclusions(g, d.groups[children[1..][i]]));
        assert children[i + 1] == children[1..][i];
        assert forall j :: 0 < j < i + 1 ==> children[j] == children[1..][j - 1];
      }
    } else if children != [] {
      assert children[0] in children;
    }
  }

  // ----- What an accepted pair guarantees -----

  /** Regex-free configurations over the characters of ValidConfig. */
  ghost predicate ValidGroup(g: UserGroup) {
    && (forall u :: u in g.users ==> ValidConfig(u))
    && (forall u :: u in g.excludedUsers ==> ValidConfig(u))
  }

  ghost predicate ExactExclusions(g: UserGroup) {
    forall x :: x in g.excludedUsers ==> x.ExactUserEmail?
  }

  /** An exact email is contained by a config exactly when the config matches it. */
  lemma ContainExact(u: UserEmail, x: UserEmail)
    requires ValidConfig(u) && ValidConfig(x) && x.ExactUserEmail?
    ensures UserEmails.Contain(u, x) == Some(Match(u, x.config))
  {
  }

  /** A child that passed the checks has no member outside its parent, when the parent excludes exact emails only. */
  lemma PairNested(parent: UserGroup, child: UserGroup, e: string)
    requires PairAccepted(parent, child) && ValidGroup(parent) && ValidGroup(child) && ExactExclusions(parent)
    requires ValidEmail(e) && IsMember(child, e)
    ensures IsMember(parent, e)
  {
    hide ValidConfig, ValidEmail;
    var u :| u in child.users && Match(u, e);
    var p :| p in parent.users && UserEmails.Contain(p, u) != Some(false);
    NotRuledOutSound(p, u, e);
    forall x | x in parent.excludedUsers ensures !Match(x, e) {
      if Match(x, e) {
        ExclusionKept(parent, child, u, x, e);
      }
    }
  }

  /** Without regexes an answer other than False is True. */
  lemma NotRuledOutSound(p: UserEmail, u: UserEmail, e: string)
    requires ValidConfig(p) && ValidConfig(u) && ValidEmail(e)
    requires UserEmails.Contain(p, u) != Some(false) && Match(u, e)
    ensures Match(p, e)
  {
    ContainSound(p, u, e);
  }

  /** A member of the child that the parent excludes by an exact email is excluded by the child as well. */
  lemma ExclusionKept(parent: UserGroup, child: UserGroup, u: UserEmail, x: UserEmail, e: string)
    requires KeepsExclusions(parent, child) && ValidGroup(parent) && ValidGroup(child) && x.ExactUserEmail?
    requires u in child.users && Match(u, e) && x in parent.excludedUsers && Match(x, e)
    ensures MatchesAny(child.excludedUsers, e)
  {
    ContainExact(u, x);
    assert ContainedBy(child.users, x);
    var y :| y in child.excludedUsers && UserEmails.Contain(y, x) != Some(false);
    ContainExact(y, x);
  }

  /**
   * With an exclusion pattern in the parent the checks accept a child with a member that the parent
   * excludes, whenever the child's pattern overlaps the exclusion without containing it.
   */
  lemma PatternExclusionEscapes(excluded: string, pattern: string, email: string)
    requires !GlobContain(pattern, excluded) && GlobMatch(pattern, email) && GlobMatch(excluded, email)
    ensures var parent := UserGroup("p", [AllUserEmail], [UserEmailPattern(excluded)]);
            var child := UserGroup("c", [UserEmailPattern(pattern)], []);
            PairAccepted(parent, child) && IsMember(child, email) && !IsMember(parent, email)
  {
    var parent := UserGroup("p", [AllUserEmail], [UserEmailPattern(excluded)]);
    var child := UserGroup("c", [UserEmailPattern(pattern)], []);
    assert child.users[0] in child.users && parent.excludedUsers[0] in parent.excludedUsers;
    assert UserEmails.Contain(parent.users[0], child.users[0]) == Some(true);
    assert Match(child.users[0], email) && Match(parent.excludedUsers[0], email);
  }

  /** Such patterns exist: a parent that excludes "b*@x" and a child with "*1@x" share the email "b1@x". */
  lemma EscapeExists()
    ensures !GlobContain("*1@x", "b*@x") && GlobMatch("*1@x", "b1@x") && GlobMatch("b*@x", "b1@x")
    ensures ValidPattern("b*@x") && ValidPattern("*1@x") && ValidEmail("b1@x")
  {
    NotContained();
    EscapingMember();
    assert "b*@x"[2] == '@' && "*1@x"[2] == '@' && "b1@x"[2] == '@';
  }

  lemma NotContained()
    ensures !GlobContain("*1@x", "b*@x")
  {
    assert !Scan("*1@x", "b*@x", 1, 0, 2);
  }

  lemma EscapingMember()
    ensures GlobMatch("*1@x", "b1@x") && GlobMatch("b*@x", "b1@x")
  {
    GlobSelf("1@x");
    StarMatches("b");
    GlobJoin("*", "1@x", "b", "1@x");
    assert "*" + "1@x" == "*1@x" && "b" + "1@x" == "b1@x";
    GlobSelf("b");
    GlobSelf("@x");
    StarMatches("1");
    GlobJoin("*", "@x", "1", "@x");
    GlobJoin("b", "*" + "@x", "b", "1" + "@x");
    assert "b" + ("*" + "@x") == "b*@x" && "b" + ("1" + "@x") == "b1@x";
  }

  // ----- What an accepted edit keeps -----

  /** `d'` is the directory after the cleaned group has been stored under `id`; the order of the child lists is free. */
  ghost predicate Saved(d: Directory, e: Edit, id: GroupId, d': Directory)
    requires ValidEdit(d, e)
  {
    && (if e.id.Some? then id == e.id.value else id !in d.groups)
    && d'.groups == d.groups[id := Cleaned(e)]
    && d'.tree.Ids() == d.tree.Ids() + {id}
    && d'.tree.parent == (if CleanedParent(e).Some? then d.tree.parent[id := CleanedParent(e).value]
                          else d.tree.parent - {id})
    && ListsMirror(d'.tree)
    && d'.tree.root in d'.tree.Ids() - d'.tree.parent.Keys
  }

  /** Moving `id` with everything below it under `p` adds the same amount to the rank of all that move. */
  ghost function MovedRank(t: Tree, id: GroupId, p: GroupId, g: GroupId): nat
    requires Acyclic(t) && p in t.Ids()
  {
    if g !in t.Ids() then Rank(t)[p] + 1
    else if id in Above(t, g) then Rank(t)[g] + Rank(t)[p] + 1
    else Rank(t)[g]
  }

  lemma MovedRankGrows(t: Tree, id: GroupId, p: GroupId, g: GroupId, q: GroupId)
    requires Acyclic(t) && p in t.Ids() && id !in Above(t, p)
    requires if g == id then q == p else g in t.parent && q == t.parent[g]
    ensures MovedRank(t, id, p, q) < MovedRank(t, id, p, g)
  {
    assert Ranked(t, Rank(t));
    if g != id {
      assert Above(t, g) == {g} + Above(t, q);
    }
  }

  lemma ParentIsAnother(t: Tree, c: GroupId)
    requires Acyclic(t) && c in t.parent
    ensures t.parent[c] != c && t.parent[c] in t.Ids() && c in t.Ids()
  {
    assert Ranked(t, Rank(t));
  }

  /** The cycle check keeps the parent links acyclic, whatever the edit is. */
  lemma SavedAcyclic(d: Directory, e: Edit, id: GroupId, d': Directory)
    requires ValidEdit(d, e) && Saved(d, e, id, d') && CleanOutcome(d, e).Success?
    ensures ValidForest(d')
  {
    hide Above, CleanOutcome, ListsMirror;
    var t, t' := d.tree, d'.tree;
    if CleanedParent(e).Some? {
      var p := CleanedParent(e).value;
      NotMovedBelow(d, e, id);
      var rank := map g | g in t'.Ids() :: MovedRank(t, id, p, g);
      forall g | g in t'.parent ensures t'.parent[g] in t'.Ids() && rank[t'.parent[g]] < rank[g] {
        if g != id { ParentIsAnother(t, g); }
        MovedRankGrows(t, id, p, g, t'.parent[g]);
      }
      hide MovedRank;
      assert Ranked(t', rank);
    } else {
      RemovedRank(t, id, t');
    }
  }

  lemma RemovedRank(t: Tree, id: GroupId, t': Tree)
    requires Acyclic(t) && t'.Ids() == t.Ids() + {id} && t'.parent == t.parent - {id}
    ensures Acyclic(t')
  {
    assert Ranked(t', map g | g in t'.Ids() :: if g in t.Ids() then Rank(t)[g] else 0);
  }

  /** The edit leaves one root and leaves it public. */
  predicate KeepsRoot(d: Directory, e: Edit) {
    && (CleanedParent(e).None? ==> e.id == Some(d.tree.root))
    && (e.id == Some(d.tree.root) ==> IsPublic(Cleaned(e)))
  }

  /** The root is never moved, since every group is below it. */
  lemma RootStays(d: Directory, e: Edit, id: GroupId, d': Directory)
    requires ValidEdit(d, e) && ValidDirectory(d) && Saved(d, e, id, d') && CleanOutcome(d, e).Success?
    ensures d.tree.root in d'.groups && d.tree.root !in d'.tree.parent
    ensures id == d.tree.root <==> e.id == Some(d.tree.root)
    ensures id == d.tree.root ==> CleanedParent(e).None?
  {
    if e.id == Some(d.tree.root) && CleanedParent(e).Some? {
      NotMovedBelow(d, e, id);
      RootAbove(d.tree, CleanedParent(e).value);
    }
  }

  lemma OneRoot(d: Directory, e: Edit, id: GroupId, d': Directory)
    requires ValidEdit(d, e) && ValidDirectory(d) && Saved(d, e, id, d')
    requires d.tree.root in d'.groups && d.tree.root !in d'.tree.parent
    ensures CleanedParent(e).None? ==> id !in d'.tree.parent
    ensures CleanedParent(e).Some? || id == d.tree.root ==>
              d'.tree.parent.Keys == d'.tree.Ids() - {d.tree.root} && d'.tree.root == d.tree.root
  {
    hide Acyclic, ListsMirror, Cleaned, CleanedParent, IsPublic;
  }

  /**
   * The saved tree is one the search can use exactly when the edit leaves a group without a parent only if
   * that is the root, and leaves the root public. `clean` looks at neither.
   */
  lemma SavedIsValid(d: Directory, e: Edit, id: GroupId, d': Directory)
    requires ValidEdit(d, e) && ValidDirectory(d) && Saved(d, e, id, d') && CleanOutcome(d, e).Success?
    ensures ValidDirectory(d') <==> KeepsRoot(d, e)
    ensures KeepsRoot(d, e) ==> d'.tree.root == d.tree.root
  {
    SavedAcyclic(d, e, id, d');
    RootStays(d, e, id, d');
    OneRoot(d, e, id, d');
    hide Acyclic, ListsMirror, CleanOutcome, Cleaned, CleanedParent, IsPublic;
  }

  /** The cycle check: the new parent is not the group itself and not below it. */
  lemma NotMovedBelow(d: Directory, e: Edit, id: GroupId)
    requires ValidEdit(d, e) && CleanOutcome(d, e).Success? && CleanedParent(e).Some?
    requires if e.id.Some? then id == e.id.value else id !in d.groups
    ensures CleanedParent(e).value in d.tree.Ids() && id !in Above(d.tree, CleanedParent(e).value)
  {
    hide Covers, KeepsExclusions, ChildrenOutcome;
  }

  ghost predicate AllAccepted(d: Directory)
    requires ValidForest(d)
  {
    forall c :: c in d.tree.parent ==> PairAccepted(d.groups[d.tree.parent[c]], d.groups[c])
  }

  lemma {:induction false} ChildrenAccepted(d: Directory, children: seq<GroupId>, g: UserGroup, c: GroupId)
    requires forall x :: x in children ==> x in d.groups
    requires ChildrenOutcome(d, children, g).Success? && c in children
    ensures PairAccepted(g, d.groups[c])
  {
    if c != children[0] {
      ChildrenAccepted(d, children[1..], g, c);
    }
  }

  /** An edit that `clean` accepts leaves every parent and child pair of the tree accepted. */
  lemma CleanKeepsAccepted(d: Directory, e: Edit, id: GroupId, d': Directory)
    requires ValidEdit(d, e) && AllAccepted(d) && CleanOutcome(d, e).Success? && Saved(d, e, id, d')
    ensures ValidForest(d') && AllAccepted(d')
  {
    hide PairAccepted, CleanOutcome, Acyclic, ListsMirror, Cleaned;
    SavedAcyclic(d, e, id, d');
    forall c | c in d'.tree.parent
      ensures d'.tree.parent[c] in d'.groups && c in d'.groups &&
              PairAccepted(d'.groups[d'.tree.parent[c]], d'.groups[c])
    {
      SavedPairAccepted(d, e, id, d', c);
    }
  }

  lemma SavedPairAccepted(d: Directory, e: Edit, id: GroupId, d': Directory, c: GroupId)
    requires ValidEdit(d, e) && AllAccepted(d) && CleanOutcome(d, e).Success? && Saved(d, e, id, d')
    requires ValidForest(d') && c in d'.tree.parent
    ensures d'.tree.parent[c] in d'.groups && c in d'.groups && PairAccepted(d'.groups[d'.tree.parent[c]], d'.groups[c])
  {
    var p := d'.tree.parent[c];
    ParentIsAnother(d'.tree, c);
    if c in d.tree.parent { ParentIsAnother(d.tree, c); }
    hide PairAccepted, CleanOutcome, Above, Acyclic, ListsMirror, Cleaned;
    if c == id && CleanedParent(e).Some? {
      NewParentAccepted(d, e);
    } else if p == id {
      NewChildAccepted(d, e, id, c);
    }
  }

  lemma NewParentAccepted(d: Directory, e: Edit)
    requires ValidEdit(d, e) && CleanOutcome(d, e).Success? && CleanedParent(e).Some?
    ensures CleanedParent(e).value in d.groups && PairAccepted(d.groups[CleanedParent(e).value], Cleaned(e))
  {
    hide Covers, KeepsExclusions, ChildrenOutcome, Above;
  }

  lemma NewChildAccepted(d: Directory, e: Edit, id: GroupId, c: GroupId)
    requires ValidEdit(d, e) && CleanOutcome(d, e).Success? && e.id == Some(id)
    requires c in d.tree.parent && d.tree.parent[c] == id
    ensures c in d.groups && PairAccepted(Cleaned(e), d.groups[c])
  {
    assert c in d.tree.children[id];
    hide Covers, KeepsExclusions, PairAccepted, Above;
    ChildrenAccepted(d, d.tree.children[id], Cleaned(e), c);
  }

  /** The edit passes the checks, and the group is then saved. */
  ghost predicate EditAccepted(d: Directory, e: Edit, id: GroupId, d': Directory) {
    ValidForest(d) ==> ValidEdit(d, e) && CleanOutcome(d, e).Success? && Saved(d, e, id, d')
  }

  /**
   * Every group reached by a sequence of accepted edits is inside its parent again; and the tree stays one
   * the search can use when every edit leaves the root alone and public.
   */
  lemma {:induction false} EditsKeepAccepted(history: seq<Directory>, edits: seq<Edit>, ids: seq<GroupId>)
    requires |edits| == |ids| && |history| == |edits| + 1
    requires ValidForest(history[0]) && AllAccepted(history[0])
    requires forall i :: 0 <= i < |edits| ==> EditAccepted(history[i], edits[i], ids[i], history[i + 1])
    ensures ValidForest(history[|edits|]) && AllAccepted(history[|edits|])
    ensures ValidDirectory(history[0]) && (forall i :: 0 <= i < |edits| ==> KeepsRoot(history[i], edits[i])) ==>
              ValidDirectory(history[|edits|])
  {
    hide ValidForest, ValidDirectory, AllAccepted, CleanOutcome, Saved, KeepsRoot;
    if edits != [] {
      var n := |edits| - 1;
      assert forall i :: 0 <= i < n ==>
             EditAccepted(history[..n + 1][i], edits[..n][i], ids[..n][i], history[..n + 1][i + 1]);
      EditsKeepAccepted(history[..n + 1], edits[..n], ids[..n]);
      CleanKeepsAccepted(history[n], edits[n], ids[n], history[n + 1]);
      if ValidDirectory(history[0]) && (forall i :: 0 <= i < |edits| ==> KeepsRoot(history[i], edits[i])) {
        assert forall i :: 0 <= i < n ==> KeepsRoot(history[..n + 1][i], edits[..n][i]);
        SavedIsValid(history[n], edits[n], ids[n], history[n + 1]);
      }
    }
  }

  // ----- Nothing is lost by searching from the top -----

  /** All pairs accepted, all configs regex-free, and only exact exclusions where a group has children. */
  ghost predicate Nested(d: Directory) {
    && ValidDirectory(d) && AllAccepted(d)
    && (forall g :: g in d.groups ==> ValidGroup(d.groups[g]))
    && (forall g :: g in d.groups && d.tree.children[g] != [] ==> ExactExclusions(d.groups[g]))
  }

  lemma {:induction false} MemberAbove(d: Directory, g: GroupId, email: string)
    requires Nested(d) && ValidEmail(email) && g in Containing(d, email)
    ensures Above(d.tree, g) <= Containing(d, email)
    decreases Rank(d.tree)[g]
  {
    hide PairAccepted, ValidGroup, ExactExclusions, IsMember;
    if g in d.tree.parent {
      var p := d.tree.parent[g];
      assert g in d.tree.children[p];
      PairNested(d.groups[p], d.groups[g], email);
      MemberAbove(d, p, email);
    }
  }

  /**
   * The top-down search, which only descends into groups that contain the email, returns the deepest of
   * all groups of the whole tree that contain it.
   */
  lemma FindIsDeepestOfAll(d: Directory, email: string)
    requires Nested(d) && ValidEmail(email)
    ensures forall g :: g in FindList(d, email) <==>
                        g in Containing(d, email)
                        && forall h :: h in Containing(d, email) && g in Above(d.tree, h) ==> h == g
  {
    var c := Containing(d, email);
    assert MatchesAny(d.groups[d.tree.root].users, email) by { assert Match(d.groups[d.tree.root].users[0], email); }
    FindMostSpecific(d.tree, c);
    forall g | g in c ensures Above(d.tree, g) <= c {
      MemberAbove(d, g, email);
    }
    assert Matched(d.tree, c) == c;
    forall g ensures g in FindList(d, email) <==> g in c && forall h :: h in c && g in Above(d.tree, h) ==> h == g {
      DeepestHasNoMatchedChild(d.tree, c, g);
    }
  }
}
