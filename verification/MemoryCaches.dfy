/** The memory cache of groups and authorizations, and can_access on top of it. */
module MemoryCaches {
  import opened Wrappers
  import opened OrderedDicts
  import opened GroupTree
  import opened GroupSearch
  import opened UserEmails
  import opened UserGroups
  import opened GroupNames
  import opened Authorizations
  import opened SmallTrees

  /** What is cached for a list of groups: the groups, their names and the ids of their closure. */
  datatype CachedGroups = CachedGroups(usergroups: seq<GroupId>, groupnames: seq<string>, groupids: set<GroupId>)

  /** The sorted tuple of group ids under which groups and authorizations are cached. */
  type GroupsKey = seq<GroupId>

  /** Authorizations are cached under a groups key and a domain. */
  type AuthorizationKey = (GroupsKey, string)

  function InsertId(key: GroupsKey, id: GroupId): (r: GroupsKey)
    ensures multiset(r) == multiset(key) + multiset{id}
  {
    if key == [] || id <= key[0] then [id] + key
    else
      assert key == [key[0]] + key[1..];
      [key[0]] + InsertId(key[1..], id)
  }

  function SortIds(list: seq<GroupId>): (r: GroupsKey)
    ensures multiset(r) == multiset(list)
  {
    if list == [] then []
    else
      assert list == [list[0]] + list[1..];
      InsertId(SortIds(list[1..]), list[0])
  }

  // ----- The uncached meaning of every entry -----

  ghost function Uncached(d: Directory, email: string): CachedGroups
    requires ValidDirectory(d)
  {
    FindFacts(d, email);
    CachedGroups(FindList(d, email), NamesOf(d, FindList(d, email)), PksOf(d, FindList(d, email)))
  }

  ghost function KeyFor(d: Directory, email: string): GroupsKey
    requires ValidDirectory(d)
  {
    SortIds(FindList(d, email))
  }

  ghost function AuthorizationsFor(d: Directory, auths: GroupAuthorizations, email: string,
                                   domain: string): seq<Authorization>
    requires ValidDirectory(d)
  {
    FindFacts(d, email);
    Collect(d, auths, FindList(d, email), domain, [])
  }

  /** Some group of the email has a nearest domain-matching authorization that allows the path. */
  ghost predicate MayAccess(d: Directory, auths: GroupAuthorizations, email: string, domain: string, path: string)
    requires ValidDirectory(d)
  {
    FindFacts(d, email);
    Grants(d, auths, FindList(d, email), domain, path)
  }

  lemma FindFacts(d: Directory, email: string)
    requires ValidDirectory(d)
    ensures forall g :: g in FindList(d, email) ==> g in d.groups
    ensures FindList(d, email) != []
  {
    assert Match(d.groups[d.tree.root].users[0], email);
    FindMostSpecific(d.tree, Containing(d, email));
  }

  lemma KeyNotEmpty(d: Directory, email: string)
    requires ValidDirectory(d)
    ensures KeyFor(d, email) != []
  {
    FindFacts(d, email);
    assert FindList(d, email)[0] in multiset(FindList(d, email));
  }

  /** Two emails with the same key have the same ordered list, names and ids. */
  lemma SameKeySameGroups(d: Directory, e1: string, e2: string)
    requires ValidDirectory(d) && KeyFor(d, e1) == KeyFor(d, e2)
    ensures Uncached(d, e1) == Uncached(d, e2)
  {
    assert Match(d.groups[d.tree.root].users[0], e1) && Match(d.groups[d.tree.root].users[0], e2);
    assert forall g :: g in FindList(d, e1) <==> g in multiset(KeyFor(d, e1));
    assert forall g :: g in FindList(d, e2) <==> g in multiset(KeyFor(d, e2));
    SameMembersSameList(d.tree, Containing(d, e1), Containing(d, e2));
  }

  // ----- The invariant -----

  ghost predicate EmailEntriesValid(d: Directory, emails: OrderedDict<string, GroupsKey>,
                                    groupsMap: map<GroupsKey, CachedGroups>)
    requires ValidDirectory(d)
  {
    emails.Valid() && forall e :: e in emails.items ==> emails.items[e] == KeyFor(d, e) && emails.items[e] in groupsMap
  }

  ghost predicate GroupEntriesValid(d: Directory, groupsMap: map<GroupsKey, CachedGroups>)
    requires ValidDirectory(d)
  {
    forall e :: KeyFor(d, e) in groupsMap ==> groupsMap[KeyFor(d, e)] == Uncached(d, e)
  }

  /** Every entry but those of `stale` is what its emails have in the tree. */
  ghost predicate AuthorizationEntriesValid(d: Directory, auths: GroupAuthorizations,
                                            m: OrderedDict<AuthorizationKey, seq<Authorization>>,
                                            stale: set<AuthorizationKey>)
    requires ValidDirectory(d)
  {
    && m.Valid()
    && forall e, domain :: (KeyFor(d, e), domain) in m.items && (KeyFor(d, e), domain) !in stale ==>
         m.items[(KeyFor(d, e), domain)] == AuthorizationsFor(d, auths, e, domain)
  }

  /** Adding what an uncached search found keeps the groups map right for every email with the same key. */
  lemma GroupEntryAdded(d: Directory, groupsMap: map<GroupsKey, CachedGroups>, email: string)
    requires ValidDirectory(d) && GroupEntriesValid(d, groupsMap)
    ensures GroupEntriesValid(d, groupsMap[KeyFor(d, email) := Uncached(d, email)])
    ensures KeyFor(d, email) in groupsMap ==> groupsMap[KeyFor(d, email) := Uncached(d, email)] == groupsMap
  {
    forall e | KeyFor(d, e) == KeyFor(d, email) ensures Uncached(d, e) == Uncached(d, email) {
      SameKeySameGroups(d, e, email);
    }
  }

  lemma EntriesStay(d: Directory, emails: OrderedDict<string, GroupsKey>, groupsMap: map<GroupsKey, CachedGroups>,
                    groupsMap': map<GroupsKey, CachedGroups>)
    requires ValidDirectory(d) && EmailEntriesValid(d, emails, groupsMap) && groupsMap.Keys <= groupsMap'.Keys
    ensures EmailEntriesValid(d, emails, groupsMap')
  {
    hide KeyFor;
  }

  lemma EmailEntryAdded(d: Directory, emails: OrderedDict<string, GroupsKey>, emails': OrderedDict<string, GroupsKey>,
                        email: string,
                        groupsMap: map<GroupsKey, CachedGroups>, groupsMap': map<GroupsKey, CachedGroups>)
    requires ValidDirectory(d) && EmailEntriesValid(d, emails, groupsMap) && emails'.Valid()
    requires groupsMap.Keys <= groupsMap'.Keys && KeyFor(d, email) in groupsMap'
    requires forall e :: e in emails'.items ==>
               if e == email then emails'.items[e] == KeyFor(d, email)
               else e in emails.items && emails'.items[e] == emails.items[e]
    ensures EmailEntriesValid(d, emails', groupsMap')
  {
  }

  /** Adding what the tree gives an email under its key keeps all entries right that were right. */
  lemma AuthorizationEntryAdded(d: Directory, auths: GroupAuthorizations, email: string, domain: string,
                                m: OrderedDict<AuthorizationKey, seq<Authorization>>,
                                m': OrderedDict<AuthorizationKey, seq<Authorization>>, stale: set<AuthorizationKey>)
    requires ValidDirectory(d) && AuthorizationEntriesValid(d, auths, m, stale) && m'.Valid()
    requires forall k :: k in m'.items ==>
               if k == (KeyFor(d, email), domain) then m'.items[k] == AuthorizationsFor(d, auths, email, domain)
               else k in m.items && m'.items[k] == m.items[k]
    ensures AuthorizationEntriesValid(d, auths, m', stale)
  {
    forall e, dom | (KeyFor(d, e), dom) in m'.items && (KeyFor(d, e), dom) !in stale
      ensures m'.items[(KeyFor(d, e), dom)] == AuthorizationsFor(d, auths, e, dom)
    {
      if KeyFor(d, e) == KeyFor(d, email) {
        SameKeySameGroups(d, e, email);
      }
    }
  }

  /** A map with a single entry is right exactly when every email with its key has the stored list. */
  lemma SingleEntry(d: Directory, auths: GroupAuthorizations, m: OrderedDict<AuthorizationKey, seq<Authorization>>,
                    key: GroupsKey, domain: string, found: seq<Authorization>)
    requires ValidDirectory(d) && m.Valid() && m.items == map[(key, domain) := found]
    ensures AuthorizationEntriesValid(d, auths, m, {(key, domain)})
    ensures AuthorizationEntriesValid(d, auths, m, {}) <==>
            forall e :: KeyFor(d, e) == key ==> AuthorizationsFor(d, auths, e, domain) == found
  {
    if AuthorizationEntriesValid(d, auths, m, {}) {
      forall e | KeyFor(d, e) == key ensures AuthorizationsFor(d, auths, e, domain) == found {
        assert (KeyFor(d, e), domain) in m.items;
      }
    }
  }

  /** One email decides it, because emails with the same key have the same authorizations. */
  lemma OneEmailDecides(d: Directory, auths: GroupAuthorizations, email: string, domain: string,
                        found: seq<Authorization>)
    requires ValidDirectory(d)
    ensures (forall e :: KeyFor(d, e) == KeyFor(d, email) ==> AuthorizationsFor(d, auths, e, domain) == found) <==>
            AuthorizationsFor(d, auths, email, domain) == found
  {
    forall e | KeyFor(d, e) == KeyFor(d, email)
      ensures AuthorizationsFor(d, auths, e, domain) == AuthorizationsFor(d, auths, email, domain)
    {
      SameKeySameGroups(d, e, email);
    }
  }

  /** After adding the key as many of the newest keys as fit are left, in their order. */
  predicate NewestKept<K(==,!new), V>(before: OrderedDict<K, V>, k: K, after: OrderedDict<K, V>, maxSize: nat) {
    && |after.order| == (if |before.order| < maxSize then |before.order| + 1 else maxSize)
    && var dropped := |before.order| + 1 - |after.order|;
       forall i :: 0 <= i < |after.order| ==>
         after.order[i] == if i + dropped < |before.order| then before.order[i + dropped] else k
  }

  lemma NewestAreKept<K(!new), V>(before: OrderedDict<K, V>, k: K, put: OrderedDict<K, V>, after: OrderedDict<K, V>,
                                  maxSize: nat)
    requires put.order == before.order + [k] && maxSize > 0
    requires |after.order| == if |put.order| <= maxSize then |put.order| else maxSize
    requires after.order == put.order[|put.order| - |after.order|..]
    ensures NewestKept(before, k, after, maxSize) && after.order != [] && after.order[|after.order| - 1] == k
  {
  }

  /** Remembers the key of an email that is not in the map yet; the new entry survives the size limit. */
  method PutEmail(emails: OrderedDict<string, GroupsKey>, email: string, key: GroupsKey, maxSize: nat)
    returns (r: OrderedDict<string, GroupsKey>)
    requires emails.Valid() && email !in emails.items && maxSize > 0
    ensures r.Valid() && |r.order| <= maxSize
    ensures email in r.items && forall e :: e in r.items ==>
              if e == email then r.items[e] == key else e in emails.items && r.items[e] == emails.items[e]
    ensures NewestKept(emails, email, r, maxSize)
  {
    hide NewestKept;
    var before := emails.Put(email, key);
    r := EnforceMaxsize(before, maxSize);
    NewestAreKept(emails, email, before, r, maxSize);
    assert email in r.order;
  }

  /** What the periodic check finds: whether it is due, and what has changed in the database since the last load. */
  datatype Check = Check(due: bool, groupsChanged: bool, directory: Directory, authsChanged: bool,
                         auths: GroupAuthorizations) {
    ghost predicate Valid() { ValidDirectory(directory) }
    predicate ReloadsGroups() { due && groupsChanged }
    predicate ReloadsAuths() { due && authsChanged }

    /** Every reload empties the map of authorizations. */
    ghost function StaleAfter(stale: set<AuthorizationKey>): set<AuthorizationKey> {
      if ReloadsGroups() || ReloadsAuths() then {} else stale
    }
  }

  class MemoryCache {
    var directory: Directory
    var usergroupauthorization: GroupAuthorizations
    var groupskeyMap: map<GroupsKey, GroupsKey>
    var emailGroupsMap: OrderedDict<string, GroupsKey>
    var publicEmailGroupsMap: OrderedDict<string, GroupsKey>
    var groupsMap: map<GroupsKey, CachedGroups>
    var groupsAuthorizationMap: OrderedDict<AuthorizationKey, seq<Authorization>>
    const emailGroupsCacheSize: nat
    const publicEmailGroupsCacheSize: nat
    const groupsAuthorizationCacheSize: nat

    /** The tree, and everything that is cached about groups. */
    ghost predicate GroupsValid()
      reads this
    {
      && ValidDirectory(directory)
      && emailGroupsCacheSize > 0 && publicEmailGroupsCacheSize > 0 && groupsAuthorizationCacheSize > 0
      && (forall k :: k in groupskeyMap ==> groupskeyMap[k] == k)
      && EmailEntriesValid(directory, emailGroupsMap, groupsMap)
      && EmailEntriesValid(directory, publicEmailGroupsMap, groupsMap)
      && GroupEntriesValid(directory, groupsMap)
      && |emailGroupsMap.order| <= emailGroupsCacheSize
      && |publicEmailGroupsMap.order| <= publicEmailGroupsCacheSize
    }

    /** Everything is right but, at most, the authorization entries of `stale`. */
    ghost predicate ValidExcept(stale: set<AuthorizationKey>)
      reads this
    {
      && GroupsValid()
      && AuthorizationEntriesValid(directory, usergroupauthorization, groupsAuthorizationMap, stale)
      && |groupsAuthorizationMap.order| <= groupsAuthorizationCacheSize
    }

    ghost predicate Valid()
      reads this
    {
      ValidExcept({})
    }

    constructor (d: Directory, auths: GroupAuthorizations, emailSize: nat, publicSize: nat, authSize: nat)
      requires ValidDirectory(d) && emailSize > 0 && publicSize > 0 && authSize > 0
      ensures Valid() && directory == d && usergroupauthorization == auths
    {
      directory, usergroupauthorization := d, auths;
      groupskeyMap, groupsMap := map[], map[];
      emailGroupsMap, publicEmailGroupsMap, groupsAuthorizationMap := Empty(), Empty(), Empty();
      emailGroupsCacheSize, publicEmailGroupsCacheSize, groupsAuthorizationCacheSize := emailSize, publicSize, authSize;
    }

    /** The same key instance for the same groups. */
    method GetGroupsKey(groups: seq<GroupId>) returns (key: GroupsKey)
      requires forall k :: k in groupskeyMap ==> groupskeyMap[k] == k
      modifies this`groupskeyMap
      ensures key == SortIds(groups)
      ensures forall k :: k in groupskeyMap ==> groupskeyMap[k] == k
    {
      key := SortIds(groups);
      if key in groupskeyMap {
        return groupskeyMap[key];
      }
      groupskeyMap := groupskeyMap[key := key];
    }

    /** What the code takes for a key: an empty tuple counts as none, like a missing entry. */
    static predicate IsKey(key: Option<GroupsKey>) {
      key.Some? && key.value != []
    }

    method GetEmailGroupskey(email: string) returns (key: Option<GroupsKey>)
      requires GroupsValid()
      ensures key == CachedKey(email)
    {
      KeyNotEmpty(directory, email);
      key := emailGroupsMap.Get(email);
      if !IsKey(key) {
        key := publicEmailGroupsMap.Get(email);
      }
    }

    /** The key that is cached for the email, if any. */
    function CachedKey(email: string): Option<GroupsKey>
      reads this
    {
      if email in emailGroupsMap.items then emailGroupsMap.Get(email) else publicEmailGroupsMap.Get(email)
    }

    /** get_email_groups: nothing, or exactly what an uncached search of the loaded tree computes. */
    method GetEmailGroups(email: string) returns (groups: Option<CachedGroups>)
      requires GroupsValid()
      ensures groups == if CachedKey(email).Some? then Some(Uncached(directory, email)) else None
    {
      KeyNotEmpty(directory, email);
      var key := GetEmailGroupskey(email);
      if !IsKey(key) {
        return None;
      }
      groups := if key.value in groupsMap then Some(groupsMap[key.value]) else None;
    }

    method SetEmailGroups(email: string, groups: CachedGroups)
      requires GroupsValid() && groups == Uncached(directory, email) && CachedKey(email).None?
      modifies this`groupskeyMap, this`emailGroupsMap, this`publicEmailGroupsMap, this`groupsMap
      ensures GroupsValid() && CachedKey(email) == Some(KeyFor(directory, email))
      ensures if FindList(directory, email) == [directory.tree.root] then emailGroupsMap == old(emailGroupsMap)
              else publicEmailGroupsMap == old(publicEmailGroupsMap)
    {
      var key := GetGroupsKey(groups.usergroups);
      StoreGroups(email, key, groups);
    }

    method StoreGroups(email: string, key: GroupsKey, groups: CachedGroups)
      requires GroupsValid() && groups == Uncached(directory, email) && key == KeyFor(directory, email) &&
               CachedKey(email).None?
      modifies this`emailGroupsMap, this`publicEmailGroupsMap, this`groupsMap
      ensures GroupsValid() && CachedKey(email) == Some(KeyFor(directory, email))
      ensures if FindList(directory, email) == [directory.tree.root] then emailGroupsMap == old(emailGroupsMap)
              else publicEmailGroupsMap == old(publicEmailGroupsMap)
    {
      FindFacts(directory, email);
      GroupEntryAdded(directory, groupsMap, email);
      ghost var known := groupsMap[key := groups];
      PutEmailKey(email, key, |groups.usergroups| == 1 && groups.usergroups[0] == directory.tree.root, known);
      if key !in groupsMap {
        groupsMap := groupsMap[key := groups];
      }
    }

    /** The first half: the email goes to the map for the public group alone or to the other one. */
    method PutEmailKey(email: string, key: GroupsKey, isPublic: bool, ghost known: map<GroupsKey, CachedGroups>)
      requires ValidDirectory(directory) && emailGroupsCacheSize > 0 && publicEmailGroupsCacheSize > 0
      requires EmailEntriesValid(directory, emailGroupsMap, groupsMap) &&
               EmailEntriesValid(directory, publicEmailGroupsMap, groupsMap)
      requires |emailGroupsMap.order| <= emailGroupsCacheSize &&
               |publicEmailGroupsMap.order| <= publicEmailGroupsCacheSize
      requires groupsMap.Keys <= known.Keys && key == KeyFor(directory, email) && key in known && CachedKey(email).None?
      modifies this`emailGroupsMap, this`publicEmailGroupsMap
      ensures EmailEntriesValid(directory, emailGroupsMap, known) &&
              EmailEntriesValid(directory, publicEmailGroupsMap, known)
      ensures |emailGroupsMap.order| <= emailGroupsCacheSize &&
              |publicEmailGroupsMap.order| <= publicEmailGroupsCacheSize
      ensures CachedKey(email) == Some(key)
      ensures isPublic ==> unchanged(this`emailGroupsMap)
      ensures !isPublic ==> unchanged(this`publicEmailGroupsMap)
    {
      ghost var emails, publicEmails := emailGroupsMap, publicEmailGroupsMap;
      assert emails.Valid() && publicEmails.Valid() && email !in emails.items && email !in publicEmails.items;
      hide EmailEntriesValid, KeyFor, ValidDirectory, NewestKept;
      if isPublic {
        publicEmailGroupsMap := PutEmail(publicEmailGroupsMap, email, key, publicEmailGroupsCacheSize);
        EmailEntryAdded(directory, publicEmails, publicEmailGroupsMap, email, groupsMap, known);
        EntriesStay(directory, emails, groupsMap, known);
      } else {
        emailGroupsMap := PutEmail(emailGroupsMap, email, key, emailGroupsCacheSize);
        EmailEntryAdded(directory, emails, emailGroupsMap, email, groupsMap, known);
        EntriesStay(directory, publicEmails, groupsMap, known);
      }
    }

    /** UserGroup.find_groups with its cache. */
    method FindCachedGroups(email: string, cacheable: bool) returns (groups: CachedGroups)
      requires GroupsValid()
      modifies this`groupskeyMap, this`emailGroupsMap, this`publicEmailGroupsMap, this`groupsMap
      ensures GroupsValid() && groups == Uncached(directory, email)
      ensures cacheable ==> CachedKey(email) == Some(KeyFor(directory, email))
      ensures !cacheable ==> emailGroupsMap == old(emailGroupsMap) && publicEmailGroupsMap == old(publicEmailGroupsMap)
    {
      var cached := GetEmailGroups(email);
      if cached.Some? {
        return cached.value;
      }
      var usergroups := UserGroups.FindGroups(directory, email);
      FindFacts(directory, email);
      var names, ids := GetPkAndNames(directory, usergroups);
      groups := CachedGroups(usergroups, names, ids);
      if cacheable {
        SetEmailGroups(email, groups);
      }
    }

    /** refresh_usergroups when the groups have changed: every map is emptied and the tree is reloaded. */
    method RefreshUsergroups(d: Directory)
      requires GroupsValid() && ValidDirectory(d)
      modifies this
      ensures Valid() && directory == d && usergroupauthorization == old(usergroupauthorization)
      ensures emailGroupsMap == publicEmailGroupsMap == Empty() && groupsAuthorizationMap == Empty()
    {
      groupsAuthorizationMap := Empty();
      emailGroupsMap := Empty();
      publicEmailGroupsMap := Empty();
      groupsMap := map[];
      groupskeyMap := map[];
      directory := d;
    }

    method RefreshUsergroupauthorization(auths: GroupAuthorizations)
      requires GroupsValid()
      modifies this`groupsAuthorizationMap, this`usergroupauthorization
      ensures Valid() && usergroupauthorization == auths && groupsAuthorizationMap == Empty()
    {
      groupsAuthorizationMap := Empty();
      usergroupauthorization := auths;
    }

    /** A due check reloads what has changed; any reload also removes the stale entries. */
    method RefreshAuthorizationCache(check: Check, ghost stale: set<AuthorizationKey>)
      requires ValidExcept(stale) && check.Valid()
      modifies this
      ensures ValidExcept(check.StaleAfter(stale))
      ensures directory == if check.due && check.groupsChanged then check.directory else old(directory)
      ensures usergroupauthorization ==
              if check.due && check.authsChanged then check.auths else old(usergroupauthorization)
      ensures check.ReloadsGroups() ==>
              groupsAuthorizationMap == Empty() && emailGroupsMap == publicEmailGroupsMap == Empty()
      ensures !check.ReloadsGroups() ==> forall e :: CachedKey(e) == old(CachedKey(e))
      ensures !check.ReloadsGroups() && !check.ReloadsAuths() ==> groupsAuthorizationMap == old(groupsAuthorizationMap)
    {
      if check.due {
        if check.groupsChanged {
          RefreshUsergroups(check.directory);
        }
        if check.authsChanged {
          RefreshUsergroupauthorization(check.auths);
        }
      }
    }

    method GetAuthorizations(key: GroupsKey, domain: string, check: Check, ghost stale: set<AuthorizationKey>)
      returns (authorizations: Option<seq<Authorization>>)
      requires ValidExcept(stale) && check.Valid()
      modifies this
      ensures ValidExcept(check.StaleAfter(stale))
      ensures directory == if check.ReloadsGroups() then check.directory else old(directory)
      ensures usergroupauthorization == if check.ReloadsAuths() then check.auths else old(usergroupauthorization)
      ensures check.ReloadsGroups() ==>
              groupsAuthorizationMap == Empty() && emailGroupsMap == publicEmailGroupsMap == Empty()
      ensures !check.ReloadsGroups() ==> forall e :: CachedKey(e) == old(CachedKey(e))
      ensures authorizations == groupsAuthorizationMap.Get((key, domain))
    {
      RefreshAuthorizationCache(check, stale);
      authorizations := groupsAuthorizationMap.Get((key, domain));
    }

    method SetAuthorizations(key: GroupsKey, domain: string, authorizations: seq<Authorization>)
      requires groupsAuthorizationMap.Valid() && groupsAuthorizationCacheSize > 0
      modifies this`groupsAuthorizationMap
      ensures groupsAuthorizationMap.Valid() && |groupsAuthorizationMap.order| <= groupsAuthorizationCacheSize
      ensures forall k :: k in groupsAuthorizationMap.items ==>
                if k == (key, domain) then groupsAuthorizationMap.items[k] == authorizations
                else
                  k in old(groupsAuthorizationMap).items &&
                  groupsAuthorizationMap.items[k] == old(groupsAuthorizationMap).items[k]
      ensures (key, domain) !in old(groupsAuthorizationMap).items ==>
                && (key, domain) in groupsAuthorizationMap.items
                && NewestKept(old(groupsAuthorizationMap), (key, domain), groupsAuthorizationMap,
                              groupsAuthorizationCacheSize)
    {
      groupsAuthorizationMap := groupsAuthorizationMap.Put((key, domain), authorizations);
      ghost var before := groupsAuthorizationMap;
      groupsAuthorizationMap := EnforceMaxsize(groupsAuthorizationMap, groupsAuthorizationCacheSize);
      hide NewestKept;
      if (key, domain) !in old(groupsAuthorizationMap).items {
        NewestAreKept(old(groupsAuthorizationMap), (key, domain), before, groupsAuthorizationMap,
                      groupsAuthorizationCacheSize);
        assert (key, domain) in groupsAuthorizationMap.order;
      }
    }

    /** The first part of can_access: the key from the cache, or the groups found now and the key cached with them. */
    method FindKey(email: string) returns (key: GroupsKey, usergroups: Option<seq<GroupId>>)
      requires GroupsValid()
      modifies this`groupskeyMap, this`emailGroupsMap, this`publicEmailGroupsMap, this`groupsMap
      ensures GroupsValid() && key == KeyFor(directory, email)
      ensures usergroups == if old(CachedKey(email)).Some? then None else Some(FindList(directory, email))
    {
      KeyNotEmpty(directory, email);
      var cachedKey := GetEmailGroupskey(email);
      usergroups := None;
      if !IsKey(cachedKey) {
        var groups := FindCachedGroups(email, true);
        usergroups := Some(groups.usergroups);
        cachedKey := GetEmailGroupskey(email);
      }
      key := cachedKey.value;
    }

    /** find_authorizations when nothing is cached; the groups found before the check belong to the tree of that
        time. */
    method ComputeAuthorizations(email: string, domain: string, usergroups: Option<seq<GroupId>>, foundIn: Directory)
      returns (authorizations: seq<Authorization>)
      requires GroupsValid() && ValidDirectory(foundIn)
      requires usergroups.Some? ==> usergroups.value == FindList(foundIn, email)
      modifies this`groupskeyMap, this`emailGroupsMap, this`publicEmailGroupsMap, this`groupsMap
      ensures GroupsValid()
      ensures authorizations == AuthorizationsFor(if usergroups.Some? then foundIn else directory,
                                                  usergroupauthorization, email, domain)
    {
      if usergroups.Some? {
        FindFacts(foundIn, email);
        authorizations := FindAuthorizations(foundIn, usergroupauthorization, usergroups.value, domain);
      } else {
        var groups := FindCachedGroups(email, true);
        FindFacts(directory, email);
        authorizations := FindAuthorizations(directory, usergroupauthorization, groups.usergroups, domain);
      }
    }

    /**
     * can_access. The periodic check runs inside GetAuthorizations, after the key has been read. Without a
     * reload of the groups there, the answer is the uncached one unless it comes from a stale entry. With
     * one, a list that was found before the reload is used with the tree it was found in, and the result is
     * the only entry, under the key of the old tree: everything else is right, and everything is right
     * exactly when every email that has that key in the new tree has the stored list.
     */
    method CanAccess(email: string, domain: string, path: string, check: Check, ghost stale: set<AuthorizationKey>)
      returns (r: bool)
      requires ValidExcept(stale) && check.Valid()
      modifies this
      ensures directory == if check.ReloadsGroups() then check.directory else old(directory)
      ensures usergroupauthorization == if check.ReloadsAuths() then check.auths else old(usergroupauthorization)
      ensures !check.ReloadsGroups() ==> ValidExcept(check.StaleAfter(stale))
      ensures (old(KeyFor(directory, email)), domain) in groupsAuthorizationMap.items
      ensures !check.ReloadsGroups() && (KeyFor(directory, email), domain) !in check.StaleAfter(stale) ==>
                (r <==> MayAccess(directory, usergroupauthorization, email, domain, path))
      ensures check.ReloadsGroups() ==>
                var key := old(KeyFor(directory, email));
                var used := if old(CachedKey(email)).Some? then directory else old(directory);
                var found := AuthorizationsFor(used, usergroupauthorization, email, domain);
                && (r <==> MayAccess(used, usergroupauthorization, email, domain, path))
                && groupsAuthorizationMap.items == map[(key, domain) := found] && ValidExcept({(key, domain)})
                && (Valid() <==>
                    forall e :: KeyFor(directory, e) == key ==>
                      AuthorizationsFor(directory, usergroupauthorization, e, domain) == found)
    {
      var key, usergroups := FindKey(email);
      var foundIn := directory;
      var authorizations := GetAuthorizations(key, domain, check, stale);
      ghost var used := if usergroups.Some? then foundIn else directory;
      hide EmailEntriesValid, GroupEntriesValid, MayAccess, AuthorizationsFor, KeyFor;
      if authorizations.None? {
        var found := FindAndStore(email, domain, key, usergroups, foundIn, check.StaleAfter(stale));
        authorizations := Some(found);
        if check.ReloadsGroups() {
          SingleEntry(directory, usergroupauthorization, groupsAuthorizationMap, key, domain, found);
        }
      }
      AnyAllowMeansAccess(used, usergroupauthorization, email, domain, path);
      r := AnyAllow(authorizations.value, path);
    }

    /** The authorizations are found and stored under the key; the entry is right if the key and the list belong to
        the loaded tree. */
    method FindAndStore(email: string, domain: string, key: GroupsKey, usergroups: Option<seq<GroupId>>,
                        foundIn: Directory, ghost stale: set<AuthorizationKey>)
      returns (found: seq<Authorization>)
      requires ValidExcept(stale) && ValidDirectory(foundIn) && (key, domain) !in groupsAuthorizationMap.items
      requires usergroups.Some? ==> usergroups.value == FindList(foundIn, email)
      modifies this`groupskeyMap, this`emailGroupsMap, this`publicEmailGroupsMap, this`groupsMap,
               this`groupsAuthorizationMap
      ensures found == AuthorizationsFor(if usergroups.Some? then foundIn else directory,
                                         usergroupauthorization, email, domain)
      ensures GroupsValid() && groupsAuthorizationMap.Valid() &&
              |groupsAuthorizationMap.order| <= groupsAuthorizationCacheSize
      ensures old(groupsAuthorizationMap) == Empty() ==> groupsAuthorizationMap.items == map[(key, domain) := found]
      ensures (key, domain) in groupsAuthorizationMap.items
      ensures key == KeyFor(directory, email) && (usergroups.None? || foundIn == directory) ==> ValidExcept(stale)
    {
      hide EmailEntriesValid, GroupEntriesValid, ValidDirectory, AuthorizationsFor, KeyFor, NewestKept;
      found := ComputeAuthorizations(email, domain, usergroups, foundIn);
      ghost var before := groupsAuthorizationMap;
      SetAuthorizations(key, domain, found);
      if key == KeyFor(directory, email) && (usergroups.None? || foundIn == directory) {
        AuthorizationEntryAdded(directory, usergroupauthorization, email, domain, before, groupsAuthorizationMap,
                                stale);
      }
    }
  }

  /** The uncached answer from the uncached authorizations. */
  lemma AnyAllowMeansAccess(d: Directory, auths: GroupAuthorizations, email: string, domain: string, path: string)
    requires ValidDirectory(d)
    ensures AnyAllows(AuthorizationsFor(d, auths, email, domain), path) <==> MayAccess(d, auths, email, domain, path)
  {
    FindFacts(d, email);
    CollectGrants(d, auths, FindList(d, email), domain, [], path);
  }

  // ----- Whole runs -----

  datatype Request =
    | Access(email: string, domain: string, path: string, check: Check)
    | Lookup(email: string, cacheable: bool)
    | Refresh(check: Check)

  datatype Answer = Granted(r: bool) | Groups(groups: CachedGroups) | Refreshed

  /** The tree that is loaded after the first `n` requests. */
  function DirectoryAfter(d: Directory, requests: seq<Request>, n: nat): Directory
    requires n <= |requests|
  {
    if n == 0 then d
    else if !requests[n - 1].Lookup? && requests[n - 1].check.ReloadsGroups() then requests[n - 1].check.directory
    else DirectoryAfter(d, requests, n - 1)
  }

  function AuthsAfter(auths: GroupAuthorizations, requests: seq<Request>, n: nat): GroupAuthorizations
    requires n <= |requests|
  {
    if n == 0 then auths
    else if !requests[n - 1].Lookup? && requests[n - 1].check.ReloadsAuths() then requests[n - 1].check.auths
    else AuthsAfter(auths, requests, n - 1)
  }

  /** Every check brings a valid tree. */
  ghost predicate ValidRequests(requests: seq<Request>) {
    forall i :: 0 <= i < |requests| ==> IsValidRequest(requests[i])
  }

  ghost predicate IsValidRequest(r: Request) {
    !r.Lookup? ==> r.check.Valid()
  }

  /** No check reloads the groups inside can_access. */
  predicate NoReloadInAccess(requests: seq<Request>) {
    forall i :: 0 <= i < |requests| && requests[i].Access? ==> !requests[i].check.ReloadsGroups()
  }

  /** The entries that may be stale after a request: the one stored by an access during which the groups were
      reloaded. */
  ghost function StaleAfterOne(d: Directory, stale: set<AuthorizationKey>, r: Request): set<AuthorizationKey>
    requires ValidDirectory(d)
  {
    if r.Lookup? then stale
    else if r.Access? && r.check.ReloadsGroups() then {(KeyFor(d, r.email), r.domain)}
    else r.check.StaleAfter(stale)
  }

  /** The same after the first `n` requests. */
  ghost function StaleAfter(d: Directory, requests: seq<Request>, n: nat): set<AuthorizationKey>
    requires ValidDirectory(d) && ValidRequests(requests) && n <= |requests|
  {
    if n == 0 then {}
    else
      DirectoryAfterValid(d, requests, n - 1);
      StaleAfterOne(DirectoryAfter(d, requests, n - 1), StaleAfter(d, requests, n - 1), requests[n - 1])
  }

  lemma {:induction false} DirectoryAfterValid(d: Directory, requests: seq<Request>, n: nat)
    requires ValidDirectory(d) && ValidRequests(requests) && n <= |requests|
    ensures ValidDirectory(DirectoryAfter(d, requests, n))
    decreases n
  {
    if n > 0 {
      DirectoryAfterValid(d, requests, n - 1);
      assert IsValidRequest(requests[n - 1]);
    }
  }

  /** At most one entry is ever stale, and none without a reload inside an access. */
  lemma {:induction false} FewStale(d: Directory, requests: seq<Request>, n: nat)
    requires ValidDirectory(d) && ValidRequests(requests) && n <= |requests|
    ensures |StaleAfter(d, requests, n)| <= 1
    ensures NoReloadInAccess(requests) ==> StaleAfter(d, requests, n) == {}
    decreases n
  {
    hide KeyFor, ValidDirectory, ValidRequests;
    if n > 0 {
      FewStale(d, requests, n - 1);
    }
  }

  lemma AfterNone(d: Directory, auths: GroupAuthorizations, requests: seq<Request>)
    requires ValidDirectory(d) && ValidRequests(requests)
    ensures DirectoryAfter(d, requests, 0) == d && AuthsAfter(auths, requests, 0) == auths &&
            StaleAfter(d, requests, 0) == {}
  {
  }

  lemma AfterOne(d: Directory, auths: GroupAuthorizations, requests: seq<Request>, n: nat)
    requires ValidDirectory(d) && ValidRequests(requests) && n < |requests|
    ensures var r := requests[n];
            && IsValidRequest(r) && ValidDirectory(DirectoryAfter(d, requests, n))
            && DirectoryAfter(d, requests, n + 1) ==
               (if !r.Lookup? && r.check.ReloadsGroups() then r.check.directory else DirectoryAfter(d, requests, n))
            && AuthsAfter(auths, requests, n + 1) ==
               (if !r.Lookup? && r.check.ReloadsAuths() then r.check.auths else AuthsAfter(auths, requests, n))
            && StaleAfter(d, requests, n + 1) ==
               StaleAfterOne(DirectoryAfter(d, requests, n), StaleAfter(d, requests, n), r)
  {
    DirectoryAfterValid(d, requests, n);
  }

  /** The answer computed afresh from the tree and the authorizations that are loaded when the request is served. */
  ghost predicate RightAnswer(d: Directory, auths: GroupAuthorizations, request: Request, answer: Answer) {
    && ValidDirectory(d)
    && match request
       case Access(email, domain, path, _) => answer.Granted? &&
         (answer.r <==> MayAccess(d, auths, email, domain, path))
       case Lookup(email, _) => answer == Groups(Uncached(d, email))
       case Refresh(_) => answer == Refreshed
  }

  /**
   * The answer is the one computed afresh, except that an access may be answered from the tree `before` its
   * own reload, or from a stale entry.
   */
  ghost predicate NearlyRightAnswer(before: Directory, d: Directory, auths: GroupAuthorizations,
                                    stale: set<AuthorizationKey>, request: Request, answer: Answer)
  {
    && ValidDirectory(d) && ValidDirectory(before)
    && if request.Access? && request.check.ReloadsGroups() then
         RightAnswer(d, auths, request, answer) || RightAnswer(before, auths, request, answer)
       else
         (request.Access? && (KeyFor(d, request.email), request.domain) in stale) ||
         RightAnswer(d, auths, request, answer)
  }

  /** Every answer so far is of this kind, and without reloads inside accesses every one is right. */
  ghost predicate RightAnswers(d: Directory, auths: GroupAuthorizations, requests: seq<Request>, answers: seq<Answer>)
    requires ValidDirectory(d) && ValidRequests(requests)
  {
    && |answers| <= |requests|
    && forall i :: 0 <= i < |answers| ==>
         AnsweredAt(d, auths, requests, i, answers[i])
  }

  ghost predicate AnsweredAt(d: Directory, auths: GroupAuthorizations, requests: seq<Request>, i: nat, answer: Answer)
    requires ValidDirectory(d) && ValidRequests(requests) && i < |requests|
  {
    var after, auths' := DirectoryAfter(d, requests, i + 1), AuthsAfter(auths, requests, i + 1);
    && NearlyRightAnswer(DirectoryAfter(d, requests, i), after, auths', StaleAfter(d, requests, i + 1), requests[i],
                         answer)
    && (NoReloadInAccess(requests) ==> RightAnswer(after, auths', requests[i], answer))
  }

  lemma NearlyIsRight(d: Directory, auths: GroupAuthorizations, requests: seq<Request>, i: nat, answer: Answer)
    requires ValidDirectory(d) && ValidRequests(requests) && i < |requests|
    requires NearlyRightAnswer(DirectoryAfter(d, requests, i), DirectoryAfter(d, requests, i + 1),
                               AuthsAfter(auths, requests, i + 1), StaleAfter(d, requests, i + 1), requests[i],
                               answer)
    ensures AnsweredAt(d, auths, requests, i, answer)
  {
    FewStale(d, requests, i + 1);
    hide DirectoryAfter, AuthsAfter, StaleAfter, RightAnswer;
  }

  lemma RightAnswersAppend(d: Directory, auths: GroupAuthorizations, requests: seq<Request>, answers: seq<Answer>,
                           answer: Answer)
    requires ValidDirectory(d) && ValidRequests(requests)
    requires RightAnswers(d, auths, requests, answers) && |answers| < |requests|
    requires AnsweredAt(d, auths, requests, |answers|, answer)
    ensures RightAnswers(d, auths, requests, answers + [answer])
  {
    hide AnsweredAt;
  }

  /**
   * Over any run of lookups, accesses, evictions and refreshes: everything cached about groups stays right,
   * and of the authorizations all but at most one entry. Every answer is the uncached one; only an access
   * during which the groups are reloaded, or one that meets the stale entry left by such an access, may
   * differ. In runs without a reload inside an access nothing is ever stale and every answer is right.
   */
  method Serve(cache: MemoryCache, requests: seq<Request>) returns (answers: seq<Answer>)
    requires cache.Valid() && ValidRequests(requests)
    modifies cache
    ensures |answers| == |requests| &&
            RightAnswers(old(cache.directory), old(cache.usergroupauthorization), requests, answers)
    ensures cache.ValidExcept(StaleAfter(old(cache.directory), requests, |requests|))
    ensures NoReloadInAccess(requests) ==> cache.Valid()
  {
    ghost var d, auths := cache.directory, cache.usergroupauthorization;
    assert ValidDirectory(d);
    AfterNone(d, auths, requests);
    FewStale(d, requests, |requests|);
    answers := [];
    assert Served(cache, requests, d, auths, answers);
    for i := 0 to |requests|
      invariant |answers| == i && Served(cache, requests, d, auths, answers)
    {
      hide Served;
      answers := ServeNext(cache, requests, d, auths, answers);
    }
  }

  /** The requests up to the last answer have been served. */
  ghost predicate Served(cache: MemoryCache, requests: seq<Request>, d: Directory, auths: GroupAuthorizations,
                         answers: seq<Answer>)
    requires ValidDirectory(d) && ValidRequests(requests)
    reads cache
  {
    && RightAnswers(d, auths, requests, answers)
    && cache.ValidExcept(StaleAfter(d, requests, |answers|))
    && cache.directory == DirectoryAfter(d, requests, |answers|)
    && cache.usergroupauthorization == AuthsAfter(auths, requests, |answers|)
  }

  method ServeNext(cache: MemoryCache, requests: seq<Request>, ghost d: Directory, ghost auths: GroupAuthorizations,
                   answers: seq<Answer>)
    returns (answers': seq<Answer>)
    requires ValidDirectory(d) && ValidRequests(requests) && |answers| < |requests|
    requires Served(cache, requests, d, auths, answers)
    modifies cache
    ensures |answers'| == |answers| + 1 && Served(cache, requests, d, auths, answers')
  {
    var i := |answers|;
    AfterOne(d, auths, requests, i);
    hide MemoryCache.ValidExcept, RightAnswer, RightAnswers, NearlyRightAnswer, AnsweredAt, IsValidRequest;
    hide DirectoryAfter, AuthsAfter, StaleAfter, StaleAfterOne, ValidDirectory, ValidRequests;
    var answer := ServeOne(cache, requests[i], StaleAfter(d, requests, i));
    NearlyIsRight(d, auths, requests, i, answer);
    RightAnswersAppend(d, auths, requests, answers, answer);
    answers' := answers + [answer];
  }

  method ServeOne(cache: MemoryCache, request: Request, ghost stale: set<AuthorizationKey>) returns (answer: Answer)
    requires cache.ValidExcept(stale) && IsValidRequest(request)
    modifies cache
    ensures cache.directory ==
            if !request.Lookup? && request.check.ReloadsGroups() then request.check.directory
            else old(cache.directory)
    ensures cache.usergroupauthorization ==
            if !request.Lookup? && request.check.ReloadsAuths() then request.check.auths
            else old(cache.usergroupauthorization)
    ensures ValidDirectory(old(cache.directory)) &&
            cache.ValidExcept(StaleAfterOne(old(cache.directory), stale, request))
    ensures NearlyRightAnswer(old(cache.directory), cache.directory, cache.usergroupauthorization,
                              StaleAfterOne(old(cache.directory), stale, request), request, answer)
  {
    match request
    case Access(email, domain, path, check) =>
      var r := cache.CanAccess(email, domain, path, check, stale);
      answer := Granted(r);
    case Lookup(email, cacheable) =>
      var groups := cache.FindCachedGroups(email, cacheable);
      answer := Groups(groups);
    case Refresh(check) =>
      cache.RefreshAuthorizationCache(check, stale);
      answer := Refreshed;
  }

  // ----- A reload inside can_access -----

  lemma Singleton(list: seq<GroupId>, g: GroupId)
    requires NoDuplicates(list) && list != [] && forall x :: x in list ==> x == g
    ensures list == [g]
  {
    assert forall i :: 0 <= i < |list| ==> list[i] in list;
    assert list[0] == g && list[|list| - 1] == g;
  }

  lemma TwoGroupsList(users: seq<UserEmail>, email: string)
    requires ValidDirectory(TwoGroups(users))
    ensures FindList(TwoGroups(users), email) == if MatchesAny(users, email) then [1] else [0]
  {
    var d := TwoGroups(users);
    TwoGroupsAbove(users);
    assert Match(d.groups[0].users[0], email);
    FindMostSpecific(d.tree, Containing(d, email));
    var g := if MatchesAny(users, email) then 1 else 0;
    assert d.tree.children[0] == [1] && 1 in d.tree.children[0];
    forall x | x in FindList(d, email) ensures x == g {
      assert x == 0 || x == 1;
      assert 1 in Containing(d, email) <==> MatchesAny(users, email);
    }
    Singleton(FindList(d, email), g);
  }

  /** With one allow-all authorization for the child, its members get it and all others get nothing. */
  lemma TwoGroupsAuthorizations(users: seq<UserEmail>, email: string, domain: string, a: Authorization)
    requires ValidDirectory(TwoGroups(users)) && a == Authorization(AllRequestDomain, [], [])
    ensures AuthorizationsFor(TwoGroups(users), map[1 := [a]], email, domain) ==
            if MatchesAny(users, email) then [a] else []
  {
    var d := TwoGroups(users);
    var auths: GroupAuthorizations := map[1 := [a]];
    TwoGroupsList(users, email);
    assert FirstMatch([], domain) == None && FirstMatch([a], domain) == Some(a);
    assert Nearest(d, auths, 0, domain) == None;
    assert Nearest(d, auths, 1, domain) == Some(a);
    assert a.AllowAll() && !a.DenyAll();
    var list := FindList(d, email);
    assert list[1..] == [];
    assert Collect(d, auths, list, domain, []) == if list[0] == 1 then [a] else [];
  }

  /**
   * Storing what the new tree gives an email under the key the old tree gave it leaves a wrong entry:
   * here it denies an email that the new tree puts under that key and allows.
   */
  lemma StaleKeyIsWrong(domain: string, m: OrderedDict<AuthorizationKey, seq<Authorization>>)
    requires ValidDirectory(TwoGroups([ExactUserEmail("a@x")])) && ValidDirectory(TwoGroups([ExactUserEmail("b@x")]))
    requires var entry := (KeyFor(TwoGroups([ExactUserEmail("a@x")]), "a@x"), domain);
             entry in m.items && m.items[entry] ==
               AuthorizationsFor(TwoGroups([ExactUserEmail("b@x")]),
                                 map[1 := [Authorization(AllRequestDomain, [], [])]], "a@x", domain)
    ensures !AuthorizationEntriesValid(TwoGroups([ExactUserEmail("b@x")]),
                                       map[1 := [Authorization(AllRequestDomain, [], [])]], m, {})
  {
    hide Find, Above, ValidDirectory;
    var before, after := [ExactUserEmail("a@x")], [ExactUserEmail("b@x")];
    var a := Authorization(AllRequestDomain, [], []);
    TwoGroupsList(before, "a@x");
    TwoGroupsList(after, "b@x");
    TwoGroupsAuthorizations(after, "a@x", domain, a);
    TwoGroupsAuthorizations(after, "b@x", domain, a);
    assert MatchesAny(before, "a@x") by { assert before[0] in before; }
    assert MatchesAny(after, "b@x") by { assert after[0] in after; }
    assert !MatchesAny(after, "a@x");
    assert (KeyFor(TwoGroups(after), "b@x"), domain) == (KeyFor(TwoGroups(before), "a@x"), domain);
  }

  /** One access during a due reload is enough for that. */
  method ReloadDuringAccess(domain: string, path: string) returns (cache: MemoryCache)
    ensures fresh(cache) && ValidDirectory(cache.directory)
    ensures !AuthorizationEntriesValid(cache.directory, cache.usergroupauthorization, cache.groupsAuthorizationMap, {})
  {
    var before, after := TwoGroups([ExactUserEmail("a@x")]), TwoGroups([ExactUserEmail("b@x")]);
    var auths: GroupAuthorizations := map[1 := [Authorization(AllRequestDomain, [], [])]];
    TwoGroupsValid([ExactUserEmail("a@x")]);
    TwoGroupsValid([ExactUserEmail("b@x")]);
    cache := new MemoryCache(before, auths, 1, 1, 1);
    var _ := cache.FindCachedGroups("a@x", true);
    var _ := cache.CanAccess("a@x", domain, path, Check(true, true, after, false, auths), {});
    StaleKeyIsWrong(domain, cache.groupsAuthorizationMap);
  }
}
