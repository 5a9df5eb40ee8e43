/** Edits of the public group that UserGroup.clean accepts and that leave a tree the search cannot use. */
module PublicGroupEdits {
  import opened Wrappers
  import opened UserEmails
  import opened GroupTree
  import opened UserGroups
  import opened GroupClean
  import opened SmallTrees

  lemma OneCovers(p: UserEmail, u: UserEmail)
    requires UserEmails.Contain(p, u) == Some(true)
    ensures Covers([p], [u]) && Covers([p], [])
  {
    assert [p][0] in [p];
    assert NotRuledOut([p], u);
  }

  /** Without exclusions only the users matter. */
  lemma OnePairAccepted(parent: UserGroup, child: UserGroup, p: UserEmail, u: UserEmail)
    requires parent.users == [p] && child.users == [u] && parent.excludedUsers == [] == child.excludedUsers
    requires UserEmails.Contain(p, u) == Some(true)
    ensures PairAccepted(parent, child) && Covers(child.users, child.excludedUsers)
  {
    OneCovers(p, u);
  }

  lemma ChildAccepted(d: Directory, children: seq<GroupId>, g: UserGroup)
    requires |children| <= 1 && forall c :: c in children ==> c in d.groups && PairAccepted(g, d.groups[c])
    ensures ChildrenOutcome(d, children, g) == Success(g)
  {
    if children != [] {
      assert children[0] in children && children[1..] == [];
    }
  }

  /** Without a parent only the exclusions and the children are checked. */
  lemma RootOutcome(d: Directory, e: Edit, g: UserGroup)
    requires ValidEdit(d, e) && !IsBlank(e.name) && !e.hasTag && e.id.Some? && CleanedParent(e).None?
    requires Cleaned(e) == g && Covers(g.users, g.excludedUsers)
    requires ChildrenOutcome(d, d.tree.children[e.id.value], g).Success?
    ensures CleanOutcome(d, e).Success?
  {
    hide Covers, ChildrenOutcome, IsBlank, Acyclic, ListsMirror, Cleaned;
  }

  lemma TwoGroupsAccepted(u: UserEmail)
    ensures ValidDirectory(TwoGroups([u])) && AllAccepted(TwoGroups([u]))
  {
    var d := TwoGroups([u]);
    TwoGroupsValid([u]);
    OnePairAccepted(d.groups[0], d.groups[1], AllUserEmail, u);
    hide PairAccepted, Acyclic, ListsMirror;
  }

  lemma NameGiven()
    ensures !IsBlank("Public")
  {
    assert "Public"[0] == 'P';
  }

  /** The public group gets the users of its only child. */
  function Narrowed(): Edit {
    Edit(Some(0), "Public", false, "p", [DomainEmail("@x")], [], None, Some(0))
  }

  lemma NarrowedAccepted()
    ensures Cleaned(Narrowed()) == UserGroup("p", [DomainEmail("@x")], [])
    ensures ValidEdit(TwoGroups([DomainEmail("@x")]), Narrowed())
    ensures CleanOutcome(TwoGroups([DomainEmail("@x")]), Narrowed()).Success?
  {
    var x := DomainEmail("@x");
    var d, g := TwoGroups([x]), UserGroup("p", [x], []);
    TwoGroupsAccepted(x);
    NameGiven();
    assert AllUserEmail != [x][0];
    OnePairAccepted(g, d.groups[1], x, x);
    ChildAccepted(d, [1], g);
    hide PairAccepted, Covers, KeepsExclusions, Acyclic, ListsMirror, ChildrenOutcome, IsBlank, CleanOutcome;
    RootOutcome(d, Narrowed(), g);
  }

  /**
   * `clean` accepts an edit of the public group after which no group is public, so that the next load of
   * the groups fails.
   */
  lemma PublicGroupCanBeLost(d': Directory)
    ensures ValidDirectory(TwoGroups([DomainEmail("@x")])) && AllAccepted(TwoGroups([DomainEmail("@x")]))
    ensures ValidEdit(TwoGroups([DomainEmail("@x")]), Narrowed())
    ensures CleanOutcome(TwoGroups([DomainEmail("@x")]), Narrowed()).Success?
    ensures Saved(TwoGroups([DomainEmail("@x")]), Narrowed(), 0, d') ==>
              d'.groups.Keys == {0, 1} && !IsPublic(d'.groups[0]) && !IsPublic(d'.groups[1])
  {
    TwoGroupsAccepted(DomainEmail("@x"));
    NarrowedAccepted();
    hide ValidDirectory, AllAccepted, ValidForest, CleanOutcome, Cleaned, ListsMirror;
    assert [DomainEmail("@x")][0] != [AllUserEmail][0];
  }

  /** A child with the users of the public group loses its parent while the cache takes it for the public group. */
  function Uprooted(): Edit {
    Edit(Some(1), "Public", false, "p", [AllUserEmail], [], None, Some(1))
  }

  lemma UprootedCleaned()
    ensures Cleaned(Uprooted()) == UserGroup("p", [AllUserEmail], []) && CleanedParent(Uprooted()) == None
  {
    assert Uprooted().users[0] == AllUserEmail;
  }

  lemma UprootedAccepted()
    ensures ValidEdit(TwoGroups([AllUserEmail]), Uprooted())
    ensures CleanOutcome(TwoGroups([AllUserEmail]), Uprooted()).Success?
  {
    var d, g := TwoGroups([AllUserEmail]), UserGroup("p", [AllUserEmail], []);
    TwoGroupsAccepted(AllUserEmail);
    NameGiven();
    UprootedCleaned();
    assert Covers(g.users, []);
    ChildAccepted(d, [], g);
    hide Acyclic, ListsMirror, ChildrenOutcome, IsBlank, CleanOutcome, Cleaned, CleanedParent, AllAccepted, Covers;
    hide ValidDirectory;
    RootOutcome(d, Uprooted(), g);
  }

  /** `clean` accepts that, and the tree has two roots. */
  lemma SecondRoot(d': Directory)
    ensures ValidDirectory(TwoGroups([AllUserEmail])) && AllAccepted(TwoGroups([AllUserEmail]))
    ensures ValidEdit(TwoGroups([AllUserEmail]), Uprooted())
    ensures CleanOutcome(TwoGroups([AllUserEmail]), Uprooted()).Success?
    ensures Saved(TwoGroups([AllUserEmail]), Uprooted(), 1, d') ==>
              d'.tree.Ids() == {0, 1} && d'.tree.parent == map[]
  {
    TwoGroupsAccepted(AllUserEmail);
    UprootedAccepted();
    hide ValidDirectory, AllAccepted, ValidForest, CleanOutcome, Cleaned, ListsMirror;
  }
}
