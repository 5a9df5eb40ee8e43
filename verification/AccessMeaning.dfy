/** What the cached keys, groups and answers of an email are, in terms of the tree and the authorizations alone. */
module AccessMeaning {
  import opened Wrappers
  import opened GroupTree
  import opened GroupSearch
  import opened UserEmails
  import opened UserGroups
  import opened GroupNames
  import opened Authorizations
  import opened MemoryCaches

  /** The email is a member of the group and of all groups above it, and of no group directly below it. */
  ghost predicate MostSpecific(d: Directory, email: string, g: GroupId)
    requires ValidDirectory(d)
  {
    && g in d.groups
    && (forall h :: h in Above(d.tree, g) ==> IsMember(d.groups[h], email))
    && forall c :: c in d.tree.parent && d.tree.parent[c] == g ==> c in d.groups && !IsMember(d.groups[c], email)
  }

  lemma MostSpecificIs(d: Directory, email: string, g: GroupId)
    requires ValidDirectory(d)
    ensures MostSpecific(d, email, g) <==>
            && g in d.tree.Ids() && Above(d.tree, g) <= Containing(d, email)
            && forall c :: c in d.tree.children[g] ==> c !in Containing(d, email)
  {
    hide IsMember, Above, Acyclic;
  }

  lemma FoundMostSpecific(d: Directory, email: string)
    requires ValidDirectory(d)
    ensures NoDuplicates(FindList(d, email))
    ensures forall g :: g in FindList(d, email) <==> MostSpecific(d, email, g)
  {
    PublicHasAll(d.groups[d.tree.root], email);
    var containing := Containing(d, email);
    assert d.tree.root in containing;
    FindMostSpecific(d.tree, containing);
    forall g ensures g in FindList(d, email) <==> MostSpecific(d, email, g) {
      MostSpecificIs(d, email, g);
      hide MostSpecific, Find, Containing;
    }
  }

  ghost predicate Ascending(key: GroupsKey) {
    forall i, j :: 0 <= i < j < |key| ==> key[i] <= key[j]
  }

  lemma {:induction false} InsertIdAscending(key: GroupsKey, id: GroupId)
    requires Ascending(key)
    ensures Ascending(InsertId(key, id))
  {
    if key != [] && id > key[0] {
      InsertIdAscending(key[1..], id);
      InsertedAbove(key[1..], id, key[0]);
      AscendingCons(key[0], InsertId(key[1..], id));
    }
  }

  lemma InsertedAbove(key: GroupsKey, id: GroupId, least: GroupId)
    requires least <= id && forall i :: 0 <= i < |key| ==> least <= key[i]
    ensures forall i :: 0 <= i < |InsertId(key, id)| ==> least <= InsertId(key, id)[i]
  {
    var r := InsertId(key, id);
    hide InsertId;
    forall i | 0 <= i < |r| ensures least <= r[i] {
      assert r[i] in multiset(r);
      assert r[i] == id || r[i] in key;
    }
  }

  lemma AscendingCons(first: GroupId, rest: GroupsKey)
    requires Ascending(rest) && forall i :: 0 <= i < |rest| ==> first <= rest[i]
    ensures Ascending([first] + rest)
  {
  }

  lemma {:induction false} SortIdsAscending(list: seq<GroupId>)
    ensures Ascending(SortIds(list))
  {
    if list != [] {
      SortIdsAscending(list[1..]);
      InsertIdAscending(SortIds(list[1..]), list[0]);
    }
  }

  lemma {:induction false} OnceEach(list: seq<GroupId>, g: GroupId)
    requires NoDuplicates(list)
    ensures multiset(list)[g] == if g in list then 1 else 0
  {
    if list != [] {
      assert list == [list[0]] + list[1..];
      OnceEach(list[1..], g);
    }
  }

  /** The key of an email is the sorted tuple of its most specific groups, each once. */
  lemma KeyMeaning(d: Directory, email: string)
    requires ValidDirectory(d)
    ensures Ascending(KeyFor(d, email))
    ensures forall g :: multiset(KeyFor(d, email))[g] == if MostSpecific(d, email, g) then 1 else 0
  {
    FoundMostSpecific(d, email);
    hide MostSpecific, FindList;
    SortIdsAscending(FindList(d, email));
    forall g ensures multiset(KeyFor(d, email))[g] == if MostSpecific(d, email, g) then 1 else 0 {
      OnceEach(FindList(d, email), g);
    }
  }

  /**
   * What is looked up for an email: its most specific groups, each once; the ids of all groups on a way from
   * the root on which the email is a member all along; and the names of those, every group after its parents.
   */
  lemma UncachedMeaning(d: Directory, email: string) returns (ids: seq<GroupId>)
    requires ValidDirectory(d) && UniqueNames(d)
    ensures NoDuplicates(Uncached(d, email).usergroups)
    ensures forall g :: g in Uncached(d, email).usergroups <==> MostSpecific(d, email, g)
    ensures forall h :: h in Uncached(d, email).groupids <==>
                        h in d.groups && forall k :: k in Above(d.tree, h) ==> IsMember(d.groups[k], email)
    ensures Lists(d, Uncached(d, email).groupids, ids, Uncached(d, email).groupnames)
  {
    FindFacts(d, email);
    FoundMostSpecific(d, email);
    hide MostSpecific, Find, UniqueNames, Lists;
    ids := PkAndNamesMeaning(d, FindList(d, email));
    PublicHasAll(d.groups[d.tree.root], email);
    ClosureOfFind(d.tree, Containing(d, email));
    hide IsMember, Closure, Above, Acyclic, Mirrored;
  }

  /**
   * An email may access a path exactly when for one of its most specific groups the nearest authorization for
   * the domain, its own or from above, allows it.
   */
  lemma MayAccessExactly(d: Directory, auths: GroupAuthorizations, email: string, domain: string, path: string)
    requires ValidDirectory(d)
    ensures MayAccess(d, auths, email, domain, path) <==>
            exists g :: MostSpecific(d, email, g) && Nearest(d, auths, g, domain).Some?
                        && Nearest(d, auths, g, domain).value.Allows(path)
  {
    FindFacts(d, email);
    FoundMostSpecific(d, email);
    hide FindList, Nearest;
  }
}
