/** The public group with one child, the tree of the examples. */
module SmallTrees {
  import opened UserEmails
  import opened GroupTree
  import opened UserGroups

  function TwoGroups(users: seq<UserEmail>): Directory {
    Directory(Tree(map[1 := 0], map[0 := [1], 1 := []], 0),
              map[0 := UserGroup("", [AllUserEmail], []), 1 := UserGroup("", users, [])])
  }

  lemma TwoGroupsValid(users: seq<UserEmail>)
    ensures ValidDirectory(TwoGroups(users))
  {
    TwoGroupsMirrored(users);
    assert Ranked(TwoGroups(users).tree, map[0 := 0, 1 := 1]);
    hide Mirrored, Ranked;
  }

  lemma TwoGroupsAbove(users: seq<UserEmail>)
    ensures ValidDirectory(TwoGroups(users))
    ensures Above(TwoGroups(users).tree, 0) == {0} && Above(TwoGroups(users).tree, 1) == {0, 1}
  {
    var d := TwoGroups(users);
    TwoGroupsValid(users);
    hide Ranked, Mirrored;
    assert Above(d.tree, 0) == {0};
    assert Above(d.tree, 1) == {1} + Above(d.tree, 0);
  }

  lemma TwoGroupsMirrored(users: seq<UserEmail>)
    ensures Mirrored(TwoGroups(users).tree)
  {
    var t := TwoGroups(users).tree;
    forall p, c | p in t.Ids() ensures c in t.children[p] <==> c in t.parent && t.parent[c] == p {
    }
  }
}
