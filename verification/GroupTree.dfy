/** The tree of user groups: parent links, ordered child lists and one root, the public group. */
module GroupTree {
  import opened Wrappers

  type GroupId = nat

  datatype Tree = Tree(parent: map<GroupId, GroupId>, children: map<GroupId, seq<GroupId>>, root: GroupId) {
    function Ids(): set<GroupId> { children.Keys }
  }

  /** `rank` grows along every link from a parent to a child, so the parent links have no cycle. */
  ghost predicate Ranked(t: Tree, rank: map<GroupId, nat>) {
    && rank.Keys == t.Ids()
    && t.parent.Keys <= t.Ids()
    && forall g :: g in t.parent ==> t.parent[g] in t.Ids() && rank[t.parent[g]] < rank[g]
  }

  ghost predicate Acyclic(t: Tree) {
    exists rank :: Ranked(t, rank)
  }

  /** Every child list holds the groups whose parent it is, each once. */
  ghost predicate ListsMirror(t: Tree) {
    && (forall p :: p in t.Ids() ==> NoDuplicates(t.children[p]))
    && (forall p, c :: p in t.Ids() ==> (c in t.children[p] <==> c in t.parent && t.parent[c] == p))
  }

  /** The child lists mirror the parent links, and only the root has no parent. */
  ghost predicate Mirrored(t: Tree) {
    && t.root in t.Ids()
    && t.parent.Keys == t.Ids() - {t.root}
    && ListsMirror(t)
  }

  ghost predicate WellFormed(t: Tree) {
    Mirrored(t) && Acyclic(t)
  }

  ghost function Rank(t: Tree): map<GroupId, nat>
    requires Acyclic(t)
    ensures Ranked(t, Rank(t))
  {
    var rank :| Ranked(t, rank);
    rank
  }

  /** The group and all its ancestors. */
  ghost function Above(t: Tree, g: GroupId): (r: set<GroupId>)
    requires Acyclic(t) && g in t.Ids()
    ensures g in r && r <= t.Ids()
    decreases Rank(t)[g]
  {
    if g in t.parent then {g} + Above(t, t.parent[g]) else {g}
  }

  /** An ancestor other than the group itself has a smaller rank. */
  lemma {:induction false} AboveRank(t: Tree, g: GroupId, h: GroupId)
    requires WellFormed(t) && g in t.Ids() && h in Above(t, g)
    ensures h != g ==> Rank(t)[h] < Rank(t)[g]
    decreases Rank(t)[g]
  {
    if h != g {
      AboveRank(t, t.parent[g], h);
    }
  }

  lemma {:induction false} AboveTransitive(t: Tree, g: GroupId, h: GroupId)
    requires WellFormed(t) && g in t.Ids() && h in Above(t, g)
    ensures Above(t, h) <= Above(t, g)
    decreases Rank(t)[g]
  {
    if h != g {
      AboveTransitive(t, t.parent[g], h);
    }
  }

  lemma AboveAntisymmetric(t: Tree, g: GroupId, h: GroupId)
    requires WellFormed(t) && g in t.Ids() && h in Above(t, g) && g in Above(t, h)
    ensures g == h
  {
    AboveRank(t, g, h);
    AboveRank(t, h, g);
  }

  /** The ancestors of one group are pairwise comparable. */
  lemma {:induction false} AboveChain(t: Tree, g: GroupId, h: GroupId, k: GroupId)
    requires WellFormed(t) && g in t.Ids() && h in Above(t, g) && k in Above(t, g)
    ensures h in Above(t, k) || k in Above(t, h)
    decreases Rank(t)[g]
  {
    if h == g || k == g {
      AboveTransitive(t, g, h);
      AboveTransitive(t, g, k);
    } else {
      AboveChain(t, t.parent[g], h, k);
    }
  }

  lemma {:induction false} RootAbove(t: Tree, g: GroupId)
    requires WellFormed(t) && g in t.Ids()
    ensures t.root in Above(t, g)
    decreases Rank(t)[g]
  {
    if g in t.parent {
      RootAbove(t, t.parent[g]);
    }
  }

  /** On the way from a group up to one of its proper ancestors `h`, the last step leaves a child of `h`. */
  lemma {:induction false} ChildOnPath(t: Tree, g: GroupId, h: GroupId) returns (c: GroupId)
    requires WellFormed(t) && g in t.Ids() && h in Above(t, g) && h != g
    ensures c in t.children[h] && c in Above(t, g) && c in t.parent && t.parent[c] == h
    decreases Rank(t)[g]
  {
    if t.parent[g] == h {
      c := g;
    } else {
      c := ChildOnPath(t, t.parent[g], h);
    }
  }

  /** UserGroup.is_group: the walk up from `g` meets `h` exactly when `h` is `g` or one of its ancestors. */
  method IsGroup(t: Tree, g: GroupId, h: GroupId) returns (r: bool)
    requires WellFormed(t) && g in t.Ids()
    ensures r <==> h in Above(t, g)
  {
    var group := Some(g);
    while group.Some?
      invariant group.Some? ==> group.value in t.Ids()
      invariant h in Above(t, g) <==> group.Some? && h in Above(t, group.value)
      decreases if group.Some? then 1 + Rank(t)[group.value] else 0
    {
      if group.value == h {
        return true;
      }
      group := if group.value in t.parent then Some(t.parent[group.value]) else None;
    }
    return false;
  }
}
