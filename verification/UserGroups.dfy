/** User groups with their email configurations: membership, the search for an email, ids and names. */
module UserGroups {
  import opened UserEmails
  import opened GroupTree
  import opened GroupSearch

  datatype UserGroup = UserGroup(groupid: string, users: seq<UserEmail>, excludedUsers: seq<UserEmail>)

  /** The loaded groups: their tree and the record of each. */
  datatype Directory = Directory(tree: Tree, groups: map<GroupId, UserGroup>)

  predicate MatchesAny(configs: seq<UserEmail>, email: string) {
    exists u :: u in configs && Match(u, email)
  }

  predicate IsMember(group: UserGroup, email: string) {
    MatchesAny(group.users, email) && !MatchesAny(group.excludedUsers, email)
  }

  /** The public group: every email is a member. */
  predicate IsPublic(group: UserGroup) {
    group.users == [AllUserEmail] && group.excludedUsers == []
  }

  /** Everybody is a member of the public group. */
  lemma PublicHasAll(group: UserGroup, email: string)
    requires IsPublic(group)
    ensures IsMember(group, email)
  {
    assert Match(group.users[0], email);
  }

  /** A loaded directory has one tree, rooted at the public group. */
  ghost predicate ValidDirectory(d: Directory) {
    WellFormed(d.tree) && d.groups.Keys == d.tree.Ids() && IsPublic(d.groups[d.tree.root])
  }

  /** The groups that contain the email. */
  ghost function Containing(d: Directory, email: string): set<GroupId> {
    set g | g in d.groups && IsMember(d.groups[g], email)
  }

  ghost function FindList(d: Directory, email: string): seq<GroupId>
    requires ValidDirectory(d)
  {
    Find(d.tree, Containing(d, email))
  }

  method FindMatch(configs: seq<UserEmail>, email: string) returns (r: bool)
    ensures r <==> MatchesAny(configs, email)
  {
    for i := 0 to |configs|
      invariant forall k :: 0 <= k < i ==> !Match(configs[k], email)
    {
      if Match(configs[i], email) {
        return true;
      }
    }
    return false;
  }

  /** UserGroup.contain: the shorter of the two config lists is tested first. */
  method Contain(group: UserGroup, email: string) returns (r: bool)
    ensures r <==> IsMember(group, email)
  {
    var checkUseremailFirst := group.excludedUsers == [] || |group.users| <= |group.excludedUsers|;
    if checkUseremailFirst {
      var matched := FindMatch(group.users, email);
      if !matched {
        return false;
      }
      var excluded := FindMatch(group.excludedUsers, email);
      return !excluded;
    } else {
      var excluded := FindMatch(group.excludedUsers, email);
      if excluded {
        return false;
      }
      r := FindMatch(group.users, email);
    }
  }

  /** UserGroup.find_groups on the loaded tree, without the cache. */
  method FindGroups(d: Directory, email: string) returns (usergroups: seq<GroupId>)
    requires ValidDirectory(d)
    ensures usergroups == FindList(d, email)
  {
    ghost var m := Matched(d.tree, Containing(d, email));
    FrontierStart(d.tree, m);
    var trees := [d.tree.root];
    ghost var visited: set<GroupId> := {};
    usergroups := [];
    while trees != []
      invariant Frontier(d.tree, m, trees, visited)
      invariant Represents(d.tree, Added(d.tree, m, visited), usergroups)
      invariant Run(d.tree, m, trees, visited, usergroups) == FindList(d, email)
      decreases d.tree.Ids() - visited
    {
      var group := trees[0];
      var matched := Contain(d.groups[group], email);
      VisitedIsMatched(d, email, trees, visited);
      RepresentsAntichain(d.tree, Added(d.tree, m, visited), usergroups);
      AddedStep(d.tree, m, visited, group);
      assert group in d.tree.Ids() - visited;
      if matched {
        FrontierPush(d.tree, m, trees, visited);
        if d.tree.children[group] == [] {
          AddRepresents(d.tree, Added(d.tree, m, visited), usergroups, group);
          usergroups := AddGroup(d.tree, usergroups, group);
        }
        trees := trees[1..] + d.tree.children[group];
      } else {
        FrontierSkip(d.tree, m, trees, visited);
        if group in d.tree.parent {
          AddRepresents(d.tree, Added(d.tree, m, visited), usergroups, d.tree.parent[group]);
          usergroups := AddGroup(d.tree, usergroups, d.tree.parent[group]);
        }
        trees := trees[1..];
      }
      visited := visited + {group};
    }
  }

  /** All ancestors of a queued group match, so testing the group alone decides whether it is matched. */
  lemma VisitedIsMatched(d: Directory, email: string, queue: seq<GroupId>, visited: set<GroupId>)
    requires ValidDirectory(d) && Frontier(d.tree, Matched(d.tree, Containing(d, email)), queue, visited) && queue != []
    ensures queue[0] in Matched(d.tree, Containing(d, email)) <==> queue[0] in Containing(d, email)
  {
    var g, m := queue[0], Matched(d.tree, Containing(d, email));
    assert Reached(d.tree, m, visited, g);
    assert g in Above(d.tree, g);
    if g != d.tree.root {
      assert Above(d.tree, g) == {g} + Above(d.tree, d.tree.parent[g]);
    } else {
      assert Above(d.tree, g) == {g};
    }
  }
}
