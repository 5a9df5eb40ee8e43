/** UserGroup.refresh_cache: the tree of user groups is built from the rows of the table. */
module GroupLoading {
  import opened Wrappers
  import opened GroupTree
  import opened UserGroups

  datatype Row = Row(id: GroupId, parent: Option<GroupId>, group: UserGroup)

  datatype LoadError = MissingPublicGroup

  /** The cached tree: the groups without a parent, every child list, the groups, the public group and the staff
      group. */
  datatype Loaded = Loaded(roots: seq<GroupId>, children: map<GroupId, seq<GroupId>>, groups: map<GroupId, UserGroup>,
                           publicGroup: Option<GroupId>, staffGroup: Option<GroupId>)

  // ----- What the table guarantees -----

  /** The primary key. */
  ghost predicate UniqueIds(rows: seq<Row>) {
    forall i, j :: 0 <= i < j < |rows| ==> rows[i].id != rows[j].id
  }

  ghost predicate HasId(rows: seq<Row>, id: GroupId) {
    exists r :: r in rows && r.id == id
  }

  /** The foreign key. */
  ghost predicate ParentsExist(rows: seq<Row>) {
    forall r :: r in rows && r.parent.Some? ==> HasId(rows, r.parent.value)
  }

  // ----- The loaded tree as functions of the rows -----

  /** The ids of the rows with the given parent, in the order of the rows. */
  function WithParent(rows: seq<Row>, parent: Option<GroupId>): seq<GroupId> {
    if rows == [] then []
    else
      var last := rows[|rows| - 1];
      WithParent(rows[..|rows| - 1], parent) + if last.parent == parent then [last.id] else []
  }

  /** The last row with the property. */
  function LastId(rows: seq<Row>, p: Row -> bool): (r: Option<GroupId>)
    ensures r.None? <==> forall x :: x in rows ==> !p(x)
    ensures r.Some? ==> exists x :: x in rows && p(x) && x.id == r.value
  {
    if rows == [] then None
    else
      var front, last := rows[..|rows| - 1], rows[|rows| - 1];
      assert forall x :: x in rows <==> x in front || x == last;
      if p(last) then Some(last.id) else LastId(front, p)
  }

  /** No later row has the property. */
  lemma {:induction false} LastIdIsLast(rows: seq<Row>, p: Row -> bool) returns (i: nat)
    requires LastId(rows, p).Some?
    ensures i < |rows| && p(rows[i]) && LastId(rows, p) == Some(rows[i].id)
    ensures forall j :: i < j < |rows| ==> !p(rows[j])
  {
    i := |rows| - 1;
    if !p(rows[i]) {
      i := LastIdIsLast(rows[..i], p);
    }
  }

  /** The ids of a list come in the order of their rows. */
  lemma {:induction false} WithParentInOrder(rows: seq<Row>, parent: Option<GroupId>, a: nat, b: nat)
    returns (i: nat, j: nat)
    requires a < b < |WithParent(rows, parent)|
    ensures i < j < |rows| && rows[i].parent == rows[j].parent == parent
    ensures rows[i].id == WithParent(rows, parent)[a] && rows[j].id == WithParent(rows, parent)[b]
  {
    var n := |rows| - 1;
    var front := WithParent(rows[..n], parent);
    if b < |front| {
      i, j := WithParentInOrder(rows[..n], parent, a, b);
    } else {
      j := n;
      i := WithParentAt(rows[..n], parent, a);
    }
  }

  lemma {:induction false} WithParentAt(rows: seq<Row>, parent: Option<GroupId>, a: nat) returns (i: nat)
    requires a < |WithParent(rows, parent)|
    ensures i < |rows| && rows[i].parent == parent && rows[i].id == WithParent(rows, parent)[a]
  {
    var n := |rows| - 1;
    if a < |WithParent(rows[..n], parent)| {
      i := WithParentAt(rows[..n], parent, a);
    } else {
      i := n;
    }
  }

  function PublicGroupOf(rows: seq<Row>): Option<GroupId> {
    LastId(rows, (r: Row) => IsPublic(r.group))
  }

  function StaffGroupOf(rows: seq<Row>, staffGroupid: string): Option<GroupId> {
    LastId(rows, (r: Row) => r.group.groupid == staffGroupid)
  }

  ghost predicate HasRow(rows: seq<Row>, id: GroupId, parent: Option<GroupId>) {
    exists r :: r in rows && r.id == id && r.parent == parent
  }

  lemma HasRowAppend(rows: seq<Row>, last: Row, id: GroupId, parent: Option<GroupId>)
    ensures HasRow(rows + [last], id, parent) <==> HasRow(rows, id, parent) || (last.id == id && last.parent == parent)
  {
    assert last in rows + [last];
    assert forall r :: r in rows + [last] <==> r in rows || r == last;
    if HasRow(rows, id, parent) {
      var r :| r in rows && r.id == id && r.parent == parent;
      assert r in rows + [last];
    }
  }

  lemma {:induction false} WithParentMembers(rows: seq<Row>, parent: Option<GroupId>)
    ensures forall c :: c in WithParent(rows, parent) <==> HasRow(rows, c, parent)
  {
    if rows != [] {
      var front, last := rows[..|rows| - 1], rows[|rows| - 1];
      WithParentMembers(front, parent);
      assert rows == front + [last];
      forall c ensures c in WithParent(rows, parent) <==> HasRow(rows, c, parent) {
        HasRowAppend(front, last, c, parent);
      }
    }
  }

  lemma {:induction false} WithParentUnique(rows: seq<Row>, parent: Option<GroupId>)
    requires UniqueIds(rows)
    ensures NoDuplicates(WithParent(rows, parent))
  {
    if rows != [] {
      var front, last := rows[..|rows| - 1], rows[|rows| - 1];
      WithParentUnique(front, parent);
      WithParentMembers(front, parent);
      assert !HasRow(front, last.id, parent);
      assert forall i :: 0 <= i < |WithParent(front, parent)| ==>
             WithParent(front, parent)[i] in WithParent(front, parent);
    }
  }

  // ----- The method -----

  /** The first loop: every group with an empty list of children, and the last ones that are the public and the staff
      group. */
  method LoadGroups(rows: seq<Row>, staffGroupid: string)
    returns (children: map<GroupId, seq<GroupId>>, groups: map<GroupId, UserGroup>,
             publicGroup: Option<GroupId>, staffGroup: Option<GroupId>)
    requires UniqueIds(rows)
    ensures children.Keys == groups.Keys
    ensures forall id :: id in groups <==> HasId(rows, id)
    ensures forall r :: r in rows ==> r.id in groups && groups[r.id] == r.group
    ensures forall p :: p in children ==> children[p] == []
    ensures publicGroup == PublicGroupOf(rows) && staffGroup == StaffGroupOf(rows, staffGroupid)
  {
    children, groups, publicGroup, staffGroup := map[], map[], None, None;
    NoGroups(rows, staffGroupid);
    hide PublicGroupOf, StaffGroupOf;
    for i := 0 to |rows|
      invariant children.Keys == groups.Keys
      invariant forall id :: id in groups ==> HasId(rows, id)
      invariant forall k :: 0 <= k < i ==> rows[k].id in groups && groups[rows[k].id] == rows[k].group
      invariant forall p :: p in children ==> children[p] == []
      invariant publicGroup == PublicGroupOf(rows[..i]) && staffGroup == StaffGroupOf(rows[..i], staffGroupid)
    {
      hide IsPublic, PublicGroupOf, StaffGroupOf;
      LastGroups(rows, i, staffGroupid);
      assert rows[i] in rows;
      children := children[rows[i].id := []];
      groups := groups[rows[i].id := rows[i].group];
      if rows[i].group.groupid == staffGroupid {
        staffGroup := Some(rows[i].id);
      }
      if IsPublic(rows[i].group) {
        publicGroup := Some(rows[i].id);
      }
    }
    assert rows[..|rows|] == rows;
  }

  lemma LastIdAppend(rows: seq<Row>, i: nat, p: Row -> bool)
    requires i < |rows|
    ensures LastId(rows[..i + 1], p) == if p(rows[i]) then Some(rows[i].id) else LastId(rows[..i], p)
  {
    assert rows[..i + 1][..i] == rows[..i];
  }

  lemma LastGroups(rows: seq<Row>, i: nat, staffGroupid: string)
    requires i < |rows|
    ensures var r := rows[i];
            && PublicGroupOf(rows[..i + 1]) == (if IsPublic(r.group) then Some(r.id) else PublicGroupOf(rows[..i]))
            && StaffGroupOf(rows[..i + 1], staffGroupid) ==
               (if r.group.groupid == staffGroupid then Some(r.id) else StaffGroupOf(rows[..i], staffGroupid))
  {
    LastIdAppend(rows, i, (r: Row) => IsPublic(r.group));
    LastIdAppend(rows, i, (r: Row) => r.group.groupid == staffGroupid);
  }

  lemma NoGroups(rows: seq<Row>, staffGroupid: string)
    ensures PublicGroupOf(rows[..0]) == None && StaffGroupOf(rows[..0], staffGroupid) == None
  {
  }

  /** The loop that adds every group to the list of its parent. */
  method AddChildren(rows: seq<Row>, empty: map<GroupId, seq<GroupId>>) returns (children: map<GroupId, seq<GroupId>>)
    requires forall r :: r in rows && r.parent.Some? ==> r.parent.value in empty
    requires forall p :: p in empty ==> empty[p] == []
    ensures children.Keys == empty.Keys
    ensures forall p :: p in children ==> children[p] == WithParent(rows, Some(p))
  {
    children := empty;
    for i := 0 to |rows|
      invariant children.Keys == empty.Keys
      invariant forall p :: p in children ==> children[p] == WithParent(rows[..i], Some(p))
    {
      assert rows[..i + 1][..i] == rows[..i];
      if rows[i].parent.Some? {
        assert rows[i] in rows;
        var p := rows[i].parent.value;
        children := children[p := children[p] + [rows[i].id]];
      }
    }
    assert rows[..|rows|] == rows;
  }

  method FindRoots(rows: seq<Row>) returns (roots: seq<GroupId>)
    ensures roots == WithParent(rows, None)
  {
    roots := [];
    for i := 0 to |rows|
      invariant roots == WithParent(rows[..i], None)
    {
      assert rows[..i + 1][..i] == rows[..i];
      if rows[i].parent.None? {
        roots := roots + [rows[i].id];
      }
    }
    assert rows[..|rows|] == rows;
  }

  /** The parts of the loaded tree are those of the rows. */
  ghost predicate IsLoaded(rows: seq<Row>, staffGroupid: string, l: Loaded) {
    && (forall id :: id in l.groups <==> HasId(rows, id))
    && (forall x :: x in rows ==> x.id in l.groups && l.groups[x.id] == x.group)
    && l.children.Keys == l.groups.Keys
    && (forall p :: p in l.children ==> l.children[p] == WithParent(rows, Some(p)))
    && l.roots == WithParent(rows, None)
    && l.publicGroup == PublicGroupOf(rows) && l.staffGroup == StaffGroupOf(rows, staffGroupid)
  }

  lemma RowsWithId(rows: seq<Row>, a: Row, b: Row)
    requires UniqueIds(rows) && a in rows && b in rows && a.id == b.id
    ensures a == b
  {
    var i :| 0 <= i < |rows| && rows[i] == a;
    var j :| 0 <= j < |rows| && rows[j] == b;
    assert i == j;
  }

  /** The tree that the search walks: the first root with the loaded child lists, and the parent of each group. */
  function DirectoryOf(rows: seq<Row>, l: Loaded): Directory
    requires UniqueIds(rows) && l.roots != []
  {
    assert forall a, b :: a in rows && b in rows && a.id == b.id ==> a == b by {
      forall a, b | a in rows && b in rows && a.id == b.id ensures a == b { RowsWithId(rows, a, b); }
    }
    Directory(Tree(map r | r in rows && r.parent.Some? :: r.id := r.parent.value, l.children, l.roots[0]), l.groups)
  }

  lemma LoadedDirectory(rows: seq<Row>, staffGroupid: string, l: Loaded)
    requires UniqueIds(rows) && IsLoaded(rows, staffGroupid, l) && l.roots != []
    ensures Loads(rows, DirectoryOf(rows, l))
  {
    hide WithParent, UniqueIds, PublicGroupOf, StaffGroupOf;
    var d := DirectoryOf(rows, l);
    forall r | r in rows
      ensures if r.parent.Some? then r.id in d.tree.parent && d.tree.parent[r.id] == r.parent.value
              else r.id !in d.tree.parent
    {
      if r.id in d.tree.parent {
        var x :| x in rows && x.parent.Some? && x.id == r.id && d.tree.parent[r.id] == x.parent.value;
        RowsWithId(rows, x, r);
      }
    }
  }

  /** The tree loaded from the rows is the one the search needs exactly under the condition of LoadedIsValid. */
  lemma RefreshedIsValid(rows: seq<Row>, staffGroupid: string, l: Loaded)
    requires UniqueIds(rows) && ParentsExist(rows) && IsLoaded(rows, staffGroupid, l) && l.roots != []
    ensures l.roots[0] in l.groups
    ensures ValidDirectory(DirectoryOf(rows, l)) <==>
            |l.roots| == 1 && Acyclic(DirectoryOf(rows, l).tree) && IsPublic(l.groups[l.roots[0]])
  {
    LoadedDirectory(rows, staffGroupid, l);
    LoadedIsValid(rows, DirectoryOf(rows, l));
  }

  method RefreshCache(rows: seq<Row>, staffGroupid: string) returns (r: Result<Loaded, LoadError>)
    requires UniqueIds(rows) && ParentsExist(rows)
    ensures r.Failure? <==> rows != [] && forall x :: x in rows ==> !IsPublic(x.group)
    ensures r.Success? ==> IsLoaded(rows, staffGroupid, r.value)
  {
    var children, groups, publicGroup, staffGroup := LoadGroups(rows, staffGroupid);
    if publicGroup.None? && rows != [] {
      return Failure(MissingPublicGroup);
    }
    children := AddChildren(rows, children);
    var roots := FindRoots(rows);
    return Success(Loaded(roots, children, groups, publicGroup, staffGroup));
  }

  // ----- What the loaded tree is -----

  /** The public group is the last row that takes everybody, and the staff group the last one with its name. */
  lemma LastRows(rows: seq<Row>, staffGroupid: string)
    ensures forall id :: PublicGroupOf(rows) == Some(id) <==> exists i ::
              && 0 <= i < |rows| && rows[i].id == id && IsPublic(rows[i].group)
              && forall j :: i < j < |rows| ==> !IsPublic(rows[j].group)
    ensures forall id :: StaffGroupOf(rows, staffGroupid) == Some(id) <==> exists i ::
              && 0 <= i < |rows| && rows[i].id == id && rows[i].group.groupid == staffGroupid
              && forall j :: i < j < |rows| ==> rows[j].group.groupid != staffGroupid
  {
    if PublicGroupOf(rows).Some? {
      var i := LastIdIsLast(rows, (r: Row) => IsPublic(r.group));
    } else {
      assert forall i :: 0 <= i < |rows| ==> rows[i] in rows;
    }
    if StaffGroupOf(rows, staffGroupid).Some? {
      var i := LastIdIsLast(rows, (r: Row) => r.group.groupid == staffGroupid);
    } else {
      assert forall i :: 0 <= i < |rows| ==> rows[i] in rows;
    }
  }

  /** The directory holds the groups, child lists and parent links of the rows; its root is the first group without a
      parent. */
  ghost predicate Loads(rows: seq<Row>, d: Directory) {
    && (forall id :: id in d.groups <==> HasId(rows, id))
    && (forall r :: r in rows ==> d.groups[r.id] == r.group)
    && d.tree.children.Keys == d.groups.Keys
    && (forall p :: p in d.tree.children ==> d.tree.children[p] == WithParent(rows, Some(p)))
    && d.tree.parent.Keys <= d.groups.Keys
    && (forall r :: r in rows ==>
        if r.parent.Some? then r.id in d.tree.parent && d.tree.parent[r.id] == r.parent.value
        else r.id !in d.tree.parent)
    && WithParent(rows, None) != [] && d.tree.root == WithParent(rows, None)[0]
  }

  /** A group has the parent that its row names. */
  lemma ParentOfRow(rows: seq<Row>, d: Directory, c: GroupId)
    requires UniqueIds(rows) && Loads(rows, d) && c in d.groups
    ensures HasRow(rows, c, if c in d.tree.parent then Some(d.tree.parent[c]) else None)
    ensures forall p :: HasRow(rows, c, p) ==> p == if c in d.tree.parent then Some(d.tree.parent[c]) else None
  {
    hide WithParent;
    var r :| r in rows && r.id == c;
  }

  lemma HasRowHasId(rows: seq<Row>, c: GroupId, p: Option<GroupId>)
    ensures HasRow(rows, c, p) ==> HasId(rows, c)
  {
  }

  /** Every child list holds exactly the groups whose parent it is, without duplicates. */
  lemma ChildListsRight(rows: seq<Row>, d: Directory, p: GroupId, c: GroupId)
    requires UniqueIds(rows) && Loads(rows, d) && p in d.tree.Ids()
    ensures c in d.tree.children[p] <==> c in d.tree.parent && d.tree.parent[c] == p
    ensures NoDuplicates(d.tree.children[p])
  {
    WithParentMembers(rows, Some(p));
    WithParentUnique(rows, Some(p));
    if c in d.groups {
      ParentOfRow(rows, d, c);
    }
    HasRowHasId(rows, c, Some(p));
  }

  /** Only the root has no parent exactly when just one row has none. */
  lemma RootAlone(rows: seq<Row>, d: Directory)
    requires UniqueIds(rows) && Loads(rows, d)
    ensures d.tree.root in d.tree.Ids()
    ensures d.tree.parent.Keys == d.tree.Ids() - {d.tree.root} <==> |WithParent(rows, None)| == 1
  {
    var roots := WithParent(rows, None);
    WithParentMembers(rows, None);
    WithParentUnique(rows, None);
    hide WithParent;
    forall c ensures c in d.tree.Ids() && c !in d.tree.parent <==> c in roots {
      if c in d.groups {
        ParentOfRow(rows, d, c);
      }
      HasRowHasId(rows, c, None);
    }
    assert roots[0] in roots;
    if |roots| > 1 {
      assert roots[1] in roots && roots[1] != roots[0];
    }
  }

  /** The tree is the one the search needs exactly when only the public group has no parent and the links have no
      cycle. */
  lemma LoadedIsValid(rows: seq<Row>, d: Directory)
    requires UniqueIds(rows) && ParentsExist(rows) && Loads(rows, d)
    ensures d.tree.root in d.groups
    ensures ValidDirectory(d) <==> |WithParent(rows, None)| == 1 && Acyclic(d.tree) && IsPublic(d.groups[d.tree.root])
  {
    RootAlone(rows, d);
    LoadedMirrored(rows, d);
    hide Acyclic, WithParent, Mirrored, UniqueIds, ParentsExist;
  }

  lemma LoadedMirrored(rows: seq<Row>, d: Directory)
    requires UniqueIds(rows) && Loads(rows, d)
    ensures Mirrored(d.tree) <==> |WithParent(rows, None)| == 1
  {
    hide WithParent, UniqueIds, Loads, NoDuplicates;
    RootAlone(rows, d);
    forall p, c | p in d.tree.Ids() ensures c in d.tree.children[p] <==> c in d.tree.parent && d.tree.parent[c] == p {
      ChildListsRight(rows, d, p, c);
    }
    forall p | p in d.tree.Ids() ensures NoDuplicates(d.tree.children[p]) {
      ChildListsRight(rows, d, p, p);
    }
  }
}
