/** UserGroup.get_pk_and_names: the ids and the ordered names of a list of groups and their ancestors. */
module GroupNames {
  import opened Wrappers
  import opened GroupTree
  import opened GroupSearch
  import opened UserGroups

  predicate IsNamed(d: Directory, g: GroupId)
    requires g in d.groups
  {
    d.groups[g].groupid != ""
  }

  ghost function Noted(seen: set<string>, name: string): set<string> {
    if name == "" then seen else seen + {name}
  }

  ghost function Elements(names: seq<string>): set<string> {
    set x | x in names
  }

  /** The names one walk up from `g` inserts, topmost first, when `seen` are the names listed already. */
  ghost function WalkNames(d: Directory, g: GroupId, seen: set<string>): seq<string>
    requires ValidDirectory(d) && g in d.groups
    decreases Rank(d.tree)[g]
  {
    var name := d.groups[g].groupid;
    if name in seen then []
    else
      var above := if g in d.tree.parent then WalkNames(d, d.tree.parent[g], Noted(seen, name)) else [];
      if name != "" then above + [name] else above
  }

  /** The ids the same walk collects; it stops at the first name already listed. */
  ghost function WalkPks(d: Directory, g: GroupId, seen: set<string>): (r: set<GroupId>)
    requires ValidDirectory(d) && g in d.groups
    decreases Rank(d.tree)[g]
  {
    var name := d.groups[g].groupid;
    if name in seen || g !in d.tree.parent then {g}
    else {g} + WalkPks(d, d.tree.parent[g], Noted(seen, name))
  }

  ghost function NamesOf(d: Directory, list: seq<GroupId>): seq<string>
    requires ValidDirectory(d) && forall g :: g in list ==> g in d.groups
  {
    if list == [] then []
    else
      var names := NamesOf(d, list[..|list| - 1]);
      names + WalkNames(d, list[|list| - 1], Elements(names))
  }

  ghost function PksOf(d: Directory, list: seq<GroupId>): set<GroupId>
    requires ValidDirectory(d) && forall g :: g in list ==> g in d.groups
  {
    if list == [] then {}
    else
      var front := list[..|list| - 1];
      PksOf(d, front) + WalkPks(d, list[|list| - 1], Elements(NamesOf(d, front)))
  }

  lemma InsertAtEnd(names: seq<string>, tail: seq<string>, name: string)
    ensures (names + tail)[..|names|] + [name] + (names + tail)[|names|..] == names + ([name] + tail)
  {
  }

  lemma WalkStep(d: Directory, g: GroupId, seen: set<string>, tail: seq<string>)
    requires ValidDirectory(d) && g in d.groups && g in d.tree.parent && d.groups[g].groupid !in seen
    ensures WalkNames(d, g, seen) + tail ==
            WalkNames(d, d.tree.parent[g], Noted(seen, d.groups[g].groupid)) +
            (if d.groups[g].groupid == "" then tail else [d.groups[g].groupid] + tail)
  {
  }

  /** The inner loop: walk up from one group, inserting each new name before the names of its descendants. */
  method WalkUp(d: Directory, usergroup: GroupId, names: seq<string>, ids: set<GroupId>)
    returns (groupnames: seq<string>, pks: set<GroupId>)
    requires ValidDirectory(d) && usergroup in d.groups
    ensures groupnames == names + WalkNames(d, usergroup, Elements(names))
    ensures pks == ids + WalkPks(d, usergroup, Elements(names))
  {
    groupnames, pks := names, ids;
    var group := usergroup;
    var index := |groupnames|;
    ghost var tail: seq<string> := [];
    while true
      invariant group in d.groups
      invariant groupnames == names + tail
      invariant WalkNames(d, usergroup, Elements(names)) == WalkNames(d, group, Elements(groupnames)) + tail
      invariant ids + WalkPks(d, usergroup, Elements(names)) == pks + WalkPks(d, group, Elements(groupnames))
      decreases Rank(d.tree)[group]
    {
      var name := d.groups[group].groupid;
      ghost var seen, tail0 := Elements(groupnames), tail;
      pks := pks + {group};
      if name in groupnames {
        assert [] + tail == tail;
        break;
      }
      if name != "" {
        InsertAtEnd(names, tail, name);
        groupnames := groupnames[..index] + [name] + groupnames[index..];
        tail := [name] + tail;
      }
      assert Elements(groupnames) == Noted(seen, name);
      if group !in d.tree.parent {
        assert tail == WalkNames(d, group, seen) + tail0;
        break;
      }
      WalkStep(d, group, seen, tail0);
      group := d.tree.parent[group];
    }
  }

  method GetPkAndNames(d: Directory, usergroups: seq<GroupId>) returns (groupnames: seq<string>, pks: set<GroupId>)
    requires ValidDirectory(d) && forall g :: g in usergroups ==> g in d.groups
    ensures groupnames == NamesOf(d, usergroups)
    ensures pks == PksOf(d, usergroups)
  {
    groupnames, pks := [], {};
    for i := 0 to |usergroups|
      invariant groupnames == NamesOf(d, usergroups[..i])
      invariant pks == PksOf(d, usergroups[..i])
    {
      assert usergroups[..i + 1][..i] == usergroups[..i];
      groupnames, pks := WalkUp(d, usergroups[i], groupnames, pks);
    }
    assert usergroups[..|usergroups|] == usergroups;
  }

  // ----- What the names and ids mean -----

  ghost predicate UniqueNames(d: Directory) {
    forall g, h :: g in d.groups && h in d.groups && IsNamed(d, g) && d.groups[g].groupid == d.groups[h].groupid ==>
      g == h
  }

  /** Different groups have different names, or none. */
  lemma UniqueMeaning(d: Directory)
    ensures UniqueNames(d) <==> !exists g, h ::
              g in d.groups && h in d.groups && g != h && d.groups[g].groupid == d.groups[h].groupid != ""
  {
  }

  /** No group stands before one of its ancestors. */
  ghost predicate TopDown(t: Tree, ids: seq<GroupId>)
    requires WellFormed(t) && forall g :: g in ids ==> g in t.Ids()
  {
    forall i, j :: 0 <= i < j < |ids| ==> ids[j] !in Above(t, ids[i])
  }

  ghost predicate UpwardClosed(t: Tree, closed: set<GroupId>)
    requires WellFormed(t)
  {
    closed <= t.Ids() && forall g :: g in closed ==> Above(t, g) <= closed
  }

  /** `names` are the names of exactly the named groups of `closed`, in the order of `ids`, ancestors first. */
  ghost predicate Lists(d: Directory, closed: set<GroupId>, ids: seq<GroupId>, names: seq<string>)
    requires ValidDirectory(d)
  {
    && ListsMembers(d, closed, ids)
    && TopDown(d.tree, ids)
    && NamesMatch(d, ids, names)
  }

  lemma ListsExtend(d: Directory, g: GroupId, closed: set<GroupId>, rest: set<GroupId>, ids: seq<GroupId>,
                    names: seq<string>)
    requires ValidDirectory(d) && g in d.groups && g !in closed && IsNamed(d, g)
    requires rest <= d.tree.Ids() && Above(d.tree, g) == rest + {g} && g !in rest
    requires forall x :: x in rest ==> g !in Above(d.tree, x)
    requires Lists(d, rest - closed, ids, names)
    ensures Lists(d, Above(d.tree, g) - closed, ids + [g], names + [d.groups[g].groupid])
  {
    TopDownExtend(d.tree, ids, g);
    NamesExtend(d, ids, names, g);
    hide Above, WellFormed, TopDown, ListsMembers, NamesMatch;
    MembersExtend(d, g, Above(d.tree, g) - closed, rest - closed, ids);
  }

  ghost predicate NamesMatch(d: Directory, ids: seq<GroupId>, names: seq<string>) {
    && |names| == |ids|
    && forall i :: 0 <= i < |ids| ==> ids[i] in d.groups && names[i] == d.groups[ids[i]].groupid
  }

  lemma NamesExtend(d: Directory, ids: seq<GroupId>, names: seq<string>, g: GroupId)
    requires NamesMatch(d, ids, names) && g in d.groups
    ensures NamesMatch(d, ids + [g], names + [d.groups[g].groupid])
  {
  }

  /** `ids` are the named groups of `closed`. */
  ghost predicate ListsMembers(d: Directory, closed: set<GroupId>, ids: seq<GroupId>) {
    forall g :: g in ids <==> g in closed && g in d.groups && IsNamed(d, g)
  }

  lemma MembersExtend(d: Directory, g: GroupId, closed: set<GroupId>, rest: set<GroupId>, ids: seq<GroupId>)
    requires closed == rest + {g} && g in d.groups && IsNamed(d, g) && ListsMembers(d, rest, ids)
    ensures ListsMembers(d, closed, ids + [g])
  {
    hide IsNamed;
    MemberAppend(ids, g);
  }

  lemma MemberAppend<T>(s: seq<T>, x: T)
    ensures forall y :: y in s + [x] <==> y in s || y == x
  {
  }

  lemma TopDownExtend(t: Tree, ids: seq<GroupId>, g: GroupId)
    requires WellFormed(t) && g in t.Ids() && (forall x :: x in ids ==> x in t.Ids() && g !in Above(t, x)) &&
             TopDown(t, ids)
    ensures (forall x :: x in ids + [g] ==> x in t.Ids()) && TopDown(t, ids + [g])
  {
    hide Above, Mirrored, Acyclic;
    var ids' := ids + [g];
    forall i, j | 0 <= i < j < |ids'| ensures ids'[i] in t.Ids() && ids'[j] !in Above(t, ids'[i]) {
      assert ids'[i] == ids[i] && ids[i] in ids;
      if j < |ids| { assert ids'[j] == ids[j]; }
    }
  }

  /** The groups strictly above `g`. */
  ghost function StrictlyAbove(t: Tree, g: GroupId): (r: set<GroupId>)
    requires WellFormed(t) && g in t.Ids()
    ensures r <= t.Ids()
  {
    if g in t.parent then Above(t, t.parent[g]) else {}
  }

  lemma StrictlyAboveFacts(t: Tree, g: GroupId)
    requires WellFormed(t) && g in t.Ids()
    ensures Above(t, g) == StrictlyAbove(t, g) + {g} && g !in StrictlyAbove(t, g)
    ensures forall x :: x in StrictlyAbove(t, g) ==> g !in Above(t, x)
  {
    if g in t.parent {
      assert Ranked(t, Rank(t));
      forall x | x in StrictlyAbove(t, g) ensures g !in Above(t, x) {
        AboveRank(t, t.parent[g], x);
        if g in Above(t, x) { AboveRank(t, x, g); }
      }
    }
  }

  /** `seen` are the names of the groups of earlier walks, `closed`, and of this walk so far, `passed`. */
  ghost predicate Walking(d: Directory, g: GroupId, seen: set<string>, closed: set<GroupId>, passed: set<GroupId>)
    requires ValidDirectory(d) && g in d.groups
  {
    && UpwardClosed(d.tree, closed)
    && (forall x :: x in passed ==> x in d.groups && g in StrictlyAbove(d.tree, x))
    && (forall x :: x in d.groups && IsNamed(d, x) ==> (d.groups[x].groupid in seen <==> x in closed || x in passed))
    && "" !in seen
  }

  lemma WalkingStep(d: Directory, g: GroupId, seen: set<string>, closed: set<GroupId>, passed: set<GroupId>)
    requires ValidDirectory(d) && UniqueNames(d) && g in d.groups && g in d.tree.parent
    requires Walking(d, g, seen, closed, passed)
    ensures Walking(d, d.tree.parent[g], Noted(seen, d.groups[g].groupid), closed, passed + {g})
  {
    var p := d.tree.parent[g];
    forall x | x in passed + {g} ensures p in StrictlyAbove(d.tree, x) {
      if x != g { AboveTransitive(d.tree, d.tree.parent[x], g); }
    }
  }

  /** One walk names exactly the groups above `g` that earlier walks have not listed. */
  lemma {:induction false} WalkLists(d: Directory, g: GroupId, seen: set<string>, closed: set<GroupId>,
                                     passed: set<GroupId>)
    returns (ids: seq<GroupId>)
    requires ValidDirectory(d) && UniqueNames(d) && g in d.groups && Walking(d, g, seen, closed, passed)
    ensures Lists(d, Above(d.tree, g) - closed, ids, WalkNames(d, g, seen))
    decreases Rank(d.tree)[g]
  {
    StrictlyAboveFacts(d.tree, g);
    if d.groups[g].groupid in seen {
      assert g in closed;
      ids := [];
    } else {
      ids := [];
      var above: seq<string> := [];
      if g in d.tree.parent {
        WalkingStep(d, g, seen, closed, passed);
        ids := WalkLists(d, d.tree.parent[g], Noted(seen, d.groups[g].groupid), closed, passed + {g});
        above := WalkNames(d, d.tree.parent[g], Noted(seen, d.groups[g].groupid));
      }
      if IsNamed(d, g) {
        ListsExtend(d, g, closed, StrictlyAbove(d.tree, g), ids, above);
        ids := ids + [g];
      } else {
        assert g in closed ==> Above(d.tree, g) <= closed;
      }
    }
  }

  /** One walk collects everything above `g`, although it stops at the first name already listed. */
  lemma {:induction false} WalkCollects(d: Directory, g: GroupId, seen: set<string>, closed: set<GroupId>,
                                        passed: set<GroupId>)
    requires ValidDirectory(d) && UniqueNames(d) && g in d.groups && Walking(d, g, seen, closed, passed)
    ensures closed + WalkPks(d, g, seen) == closed + Above(d.tree, g)
    decreases Rank(d.tree)[g]
  {
    StrictlyAboveFacts(d.tree, g);
    if d.groups[g].groupid in seen {
      assert g in closed;
    } else if g in d.tree.parent {
      WalkingStep(d, g, seen, closed, passed);
      WalkCollects(d, d.tree.parent[g], Noted(seen, d.groups[g].groupid), closed, passed + {g});
    }
  }

  lemma TopDownAppend(t: Tree, closed: set<GroupId>, ids: seq<GroupId>, ids': seq<GroupId>)
    requires WellFormed(t) && UpwardClosed(t, closed)
    requires forall x :: x in ids ==> x in closed
    requires forall x :: x in ids' ==> x in t.Ids() && x !in closed
    requires TopDown(t, ids) && TopDown(t, ids')
    ensures (forall x :: x in ids + ids' ==> x in t.Ids()) && TopDown(t, ids + ids')
  {
    var all := ids + ids';
    forall i, j | 0 <= i < j < |all| ensures all[i] in t.Ids() && all[j] !in Above(t, all[i]) {
      if i < |ids| {
        assert all[i] in ids;
        if j >= |ids| { assert all[j] in ids'; }
      } else {
        assert all[i] in ids' && all[j] == ids'[j - |ids|];
      }
    }
  }

  lemma ListsAppend(d: Directory, closed: set<GroupId>, more: set<GroupId>, ids: seq<GroupId>, ids': seq<GroupId>,
                    names: seq<string>, names': seq<string>)
    requires ValidDirectory(d) && UpwardClosed(d.tree, closed) && more <= d.tree.Ids()
    requires Lists(d, closed, ids, names) && Lists(d, more - closed, ids', names')
    ensures Lists(d, closed + more, ids + ids', names + names')
  {
    hide Above, WellFormed;
    TopDownAppend(d.tree, closed, ids, ids');
    hide TopDown;
    assert forall x :: x in ids + ids' <==> x in ids || x in ids';
  }

  lemma ClosureAppend(t: Tree, list: seq<GroupId>, g: GroupId)
    requires WellFormed(t) && g in t.Ids() && forall x :: x in list ==> x in t.Ids()
    ensures Closure(t, list + [g]) == Closure(t, list) + Above(t, g)
    ensures UpwardClosed(t, Closure(t, list))
  {
    assert forall x :: x in list + [g] <==> x in list || x == g;
    forall x | x in Closure(t, list) ensures Above(t, x) <= Closure(t, list) {
      var y :| y in t.Ids() && y in list && x in Above(t, y);
      AboveTransitive(t, y, x);
    }
  }

  /**
   * When non-empty group ids are unique, the pk set is exactly the listed groups and all their ancestors,
   * and the names are those of the named ones among them, once each, every group after its ancestors.
   */
  lemma {:induction false} PkAndNamesMeaning(d: Directory, list: seq<GroupId>) returns (ids: seq<GroupId>)
    requires ValidDirectory(d) && UniqueNames(d) && forall g :: g in list ==> g in d.groups
    ensures PksOf(d, list) == Closure(d.tree, list)
    ensures Lists(d, Closure(d.tree, list), ids, NamesOf(d, list))
    ensures NoDuplicates(NamesOf(d, list))
  {
    if list == [] {
      ids := [];
    } else {
      var front, g := list[..|list| - 1], list[|list| - 1];
      assert list == front + [g];
      var ids0 := PkAndNamesMeaning(d, front);
      ClosureAppend(d.tree, front, g);
      var closed, names, seen := Closure(d.tree, front), NamesOf(d, front), Elements(NamesOf(d, front));
      ListedNames(d, closed, ids0, names);
      hide Above, Lists, WellFormed, UniqueNames;
      var ids1 := WalkLists(d, g, seen, closed, {});
      WalkCollects(d, g, seen, closed, {});
      ListsAppend(d, closed, Above(d.tree, g), ids0, ids1, names, WalkNames(d, g, seen));
      ids := ids0 + ids1;
    }
    TopDownNames(d, Closure(d.tree, list), ids, NamesOf(d, list));
  }

  lemma ListedNames(d: Directory, closed: set<GroupId>, ids: seq<GroupId>, names: seq<string>)
    requires ValidDirectory(d) && UniqueNames(d) && Lists(d, closed, ids, names)
    ensures forall x :: x in d.groups && IsNamed(d, x) ==> (d.groups[x].groupid in Elements(names) <==> x in closed)
    ensures "" !in Elements(names)
  {
    hide Above, WellFormed, TopDown;
    forall x | x in d.groups && IsNamed(d, x) ensures d.groups[x].groupid in Elements(names) <==> x in closed {
      if x in closed {
        var i :| 0 <= i < |ids| && ids[i] == x;
        assert names[i] in names;
      }
    }
  }

  lemma TopDownNames(d: Directory, closed: set<GroupId>, ids: seq<GroupId>, names: seq<string>)
    requires ValidDirectory(d) && UniqueNames(d) && Lists(d, closed, ids, names)
    ensures NoDuplicates(names)
  {
    forall i, j | 0 <= i < j < |names| ensures names[i] != names[j] {
      assert ids[i] in ids && ids[j] in ids;
      assert ids[j] !in Above(d.tree, ids[i]);
      assert ids[i] in Above(d.tree, ids[i]);
    }
  }
}
