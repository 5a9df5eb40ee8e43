/** UserGroup.find_groups: the breadth-first search for the most specific groups of an email. */
module GroupSearch {
  import opened Wrappers
  import opened GroupTree

  /** `x` is in `a` and nothing else in `a` lies below it. */
  ghost predicate IsDeepest(t: Tree, a: set<GroupId>, x: GroupId)
    requires WellFormed(t) && a <= t.Ids()
  {
    x in a && forall y :: y in a && x in Above(t, y) ==> y == x
  }

  /** The list holds exactly the deepest members of `a`, each once. */
  ghost predicate Represents(t: Tree, a: set<GroupId>, list: seq<GroupId>)
    requires WellFormed(t) && a <= t.Ids()
  {
    && NoDuplicates(list)
    && forall x :: x in list <==> IsDeepest(t, a, x)
  }

  /** No listed group is an ancestor of another one. */
  ghost predicate Antichain(t: Tree, list: seq<GroupId>)
    requires WellFormed(t)
  {
    && (forall x :: x in list ==> x in t.Ids())
    && (forall i, j :: 0 <= i < |list| && 0 <= j < |list| && list[i] in Above(t, list[j]) ==> i == j)
  }

  lemma RepresentsAntichain(t: Tree, a: set<GroupId>, list: seq<GroupId>)
    requires WellFormed(t) && a <= t.Ids() && Represents(t, a, list)
    ensures Antichain(t, list)
  {
    assert forall x :: x in list ==> IsDeepest(t, a, x);
    forall i, j | 0 <= i < |list| && 0 <= j < |list| && list[j] in t.Ids() && list[i] in Above(t, list[j])
      ensures i == j
    {
      assert list[i] in list && list[j] in list;
      assert list[i] == list[j];
    }
  }

  ghost function Below(t: Tree, a: set<GroupId>, y: GroupId): set<GroupId>
    requires WellFormed(t) && a <= t.Ids()
  {
    set x | x in a && y in Above(t, x)
  }

  /** Every member of `a` has a deepest member of `a` below it. */
  lemma {:induction false} DeepestBelow(t: Tree, a: set<GroupId>, y: GroupId) returns (d: GroupId)
    requires WellFormed(t) && a <= t.Ids() && y in a
    ensures IsDeepest(t, a, d) && y in Above(t, d)
    decreases Below(t, a, y)
  {
    if IsDeepest(t, a, y) {
      d := y;
    } else {
      var z :| z in a && y in Above(t, z) && z != y;
      forall x | x in a && z in Above(t, x) ensures y in Above(t, x) {
        AboveTransitive(t, x, z);
      }
      assert z !in Above(t, y) by {
        if z in Above(t, y) { AboveAntisymmetric(t, y, z); }
      }
      assert y in Below(t, a, y) && y !in Below(t, a, z);
      d := DeepestBelow(t, a, z);
      AboveTransitive(t, d, z);
    }
  }

  /** What one `_add_group` step does to the list. */
  ghost function Add(t: Tree, list: seq<GroupId>, g: GroupId): seq<GroupId>
    requires WellFormed(t) && g in t.Ids() && Antichain(t, list)
  {
    if exists i :: 0 <= i < |list| && g in Above(t, list[i]) then list
    else if exists i :: 0 <= i < |list| && list[i] in Above(t, g) then
      var i :| 0 <= i < |list| && list[i] in Above(t, g);
      list[i := g]
    else list + [g]
  }

  /** At most one member of an antichain lies above a given group. */
  lemma OneAbove(t: Tree, list: seq<GroupId>, g: GroupId, i: nat, j: nat)
    requires WellFormed(t) && g in t.Ids() && Antichain(t, list)
    requires i < |list| && j < |list| && list[i] in Above(t, g) && list[j] in Above(t, g)
    ensures i == j
  {
    AboveChain(t, g, list[i], list[j]);
  }

  /** In an antichain the two tests of `_add_group` never hold for different entries. */
  lemma NotBoth(t: Tree, list: seq<GroupId>, g: GroupId, i: nat, j: nat)
    requires WellFormed(t) && g in t.Ids() && Antichain(t, list)
    requires i < |list| && j < |list| && list[i] in Above(t, g) && g in Above(t, list[j])
    ensures i == j && list[i] == g
  {
    AboveTransitive(t, list[j], g);
    AboveAntisymmetric(t, g, list[i]);
  }

  /** Add keeps the list equal to the deepest of everything added so far. */
  lemma AddRepresents(t: Tree, a: set<GroupId>, list: seq<GroupId>, g: GroupId)
    requires WellFormed(t) && a <= t.Ids() && g in t.Ids() && Represents(t, a, list)
    ensures Antichain(t, list)
    ensures Represents(t, a + {g}, Add(t, list, g))
  {
    RepresentsAntichain(t, a, list);
    if i :| 0 <= i < |list| && g in Above(t, list[i]) {
      AddBelowExists(t, a, list, g, list[i]);
    } else if i :| 0 <= i < |list| && list[i] in Above(t, g) {
      forall j | 0 <= j < |list| && list[j] in Above(t, g) ensures j == i {
        OneAbove(t, list, g, i, j);
      }
      AddReplaces(t, a, list, g, i);
    } else {
      AddAppends(t, a, list, g);
    }
  }

  lemma AddBelowExists(t: Tree, a: set<GroupId>, list: seq<GroupId>, g: GroupId, d: GroupId)
    requires WellFormed(t) && a <= t.Ids() && g in t.Ids() && Represents(t, a, list)
    requires d in list && g in Above(t, d)
    ensures Represents(t, a + {g}, list)
  {
    forall x ensures x in list <==> IsDeepest(t, a + {g}, x) {
      assert IsDeepest(t, a, d);
      if IsDeepest(t, a, x) && x in Above(t, g) {
        AboveTransitive(t, d, g);
        assert x == d;
        AboveAntisymmetric(t, x, g);
      }
    }
  }

  lemma AddReplaces(t: Tree, a: set<GroupId>, list: seq<GroupId>, g: GroupId, i: nat)
    requires WellFormed(t) && a <= t.Ids() && g in t.Ids() && Represents(t, a, list)
    requires forall j :: 0 <= j < |list| ==> list[j] in t.Ids() && g !in Above(t, list[j])
    requires i < |list| && list[i] in Above(t, g)
    requires forall j :: 0 <= j < |list| && list[j] in Above(t, g) ==> j == i
    ensures Represents(t, a + {g}, list[i := g])
  {
    var old' := list[i];
    assert IsDeepest(t, a, old');
    forall y | y in a ensures g !in Above(t, y) {
      if g in Above(t, y) {
        AboveTransitive(t, y, g);
      }
    }
    forall x ensures x in list[i := g] <==> IsDeepest(t, a + {g}, x) {
      if x in list[i := g] {
        var k :| 0 <= k < |list| && list[i := g][k] == x;
        if k != i {
          assert x in list;
        }
      }
      if IsDeepest(t, a + {g}, x) {
        if x == g {
          assert list[i := g][i] == g;
        } else {
          assert IsDeepest(t, a, x);
          var k :| 0 <= k < |list| && list[k] == x;
          assert k != i;
          assert list[i := g][k] == x;
        }
      }
    }
  }

  lemma AddAppends(t: Tree, a: set<GroupId>, list: seq<GroupId>, g: GroupId)
    requires WellFormed(t) && a <= t.Ids() && g in t.Ids() && Represents(t, a, list)
    requires forall j :: 0 <= j < |list| ==> list[j] in t.Ids() && g !in Above(t, list[j])
    requires forall j :: 0 <= j < |list| ==> list[j] !in Above(t, g)
    ensures Represents(t, a + {g}, list + [g])
  {
    forall y | y in a ensures g !in Above(t, y) {
      var d := DeepestBelow(t, a, y);
      if g in Above(t, y) {
        AboveTransitive(t, d, y);
      }
    }
    forall x ensures x in list + [g] <==> IsDeepest(t, a + {g}, x) {
      assert x in list ==> x !in Above(t, g);
      if IsDeepest(t, a + {g}, x) && x != g {
        assert IsDeepest(t, a, x);
      }
    }
  }

  /** `_add_group`: scans the list from its end and keeps, replaces or appends. */
  method AddGroup(t: Tree, list: seq<GroupId>, g: GroupId) returns (r: seq<GroupId>)
    requires WellFormed(t) && g in t.Ids() && Antichain(t, list)
    ensures r == Add(t, list, g)
  {
    var index := |list| - 1;
    while index >= 0
      invariant -1 <= index < |list|
      invariant forall k :: index < k < |list| ==> g !in Above(t, list[k]) && list[k] !in Above(t, g)
    {
      var isDescendant := IsGroup(t, list[index], g);
      if isDescendant {
        return list;
      }
      RootAbove(t, list[index]);  // so g is not the root and has a parent
      var isAncestor := IsGroup(t, t.parent[g], list[index]);
      if isAncestor {
        forall k | 0 <= k < |list| ensures g !in Above(t, list[k]) {
          if g in Above(t, list[k]) { NotBoth(t, list, g, index, k); }
        }
        forall k | 0 <= k < |list| && list[k] in Above(t, g) ensures k == index {
          OneAbove(t, list, g, index, k);
        }
        return list[index := g];
      }
      index := index - 1;
    }
    return list + [g];
  }

  // ----- The breadth-first run -----

  /** `x` is the root or the child of a visited matched group. */
  ghost predicate Reached(t: Tree, m: set<GroupId>, visited: set<GroupId>, x: GroupId)
    requires WellFormed(t) && x in t.Ids()
  {
    x == t.root || (t.parent[x] in visited && t.parent[x] in m)
  }

  /** The queue and the visited groups are exactly the root and the children of visited matched groups. */
  ghost predicate Frontier(t: Tree, m: set<GroupId>, queue: seq<GroupId>, visited: set<GroupId>)
    requires WellFormed(t)
  {
    && NoDuplicates(queue)
    && visited <= t.Ids()
    && (forall x :: x in queue ==> x in t.Ids() && x !in visited)
    && (forall x {:trigger Reached(t, m, visited, x)} :: x in t.Ids() ==>
          (x in queue || x in visited <==> Reached(t, m, visited, x)))
  }

  lemma FrontierSkip(t: Tree, m: set<GroupId>, queue: seq<GroupId>, visited: set<GroupId>)
    requires WellFormed(t) && Frontier(t, m, queue, visited) && queue != [] && queue[0] !in m
    ensures Frontier(t, m, queue[1..], visited + {queue[0]})
  {
    var g, rest := queue[0], queue[1..];
    assert forall x :: x in queue <==> x == g || x in rest;
    forall x | x in t.Ids()
      ensures x in rest || x in visited + {g} <==> Reached(t, m, visited + {g}, x)
    {
      assert x in queue || x in visited <==> Reached(t, m, visited, x);
    }
  }

  /** The children of a queued group have neither been visited nor queued. */
  lemma ChildrenAreNew(t: Tree, m: set<GroupId>, queue: seq<GroupId>, visited: set<GroupId>, c: GroupId)
    requires WellFormed(t) && Frontier(t, m, queue, visited) && queue != [] && c in t.children[queue[0]]
    ensures c in t.Ids() && c !in visited && c !in queue
  {
    assert t.parent[c] == queue[0] && c != t.root;
    assert !Reached(t, m, visited, c);
  }

  lemma FrontierPush(t: Tree, m: set<GroupId>, queue: seq<GroupId>, visited: set<GroupId>)
    requires WellFormed(t) && Frontier(t, m, queue, visited) && queue != [] && queue[0] in m
    ensures Frontier(t, m, queue[1..] + t.children[queue[0]], visited + {queue[0]})
  {
    var g, rest, kids := queue[0], queue[1..], t.children[queue[0]];
    forall c | c in kids ensures c in t.Ids() && c !in visited && c !in queue {
      ChildrenAreNew(t, m, queue, visited, c);
    }
    FrontierPushUnique(rest, kids, g, visited, t.Ids(), queue);
    forall x | x in t.Ids()
      ensures x in rest + kids || x in visited + {g} <==> Reached(t, m, visited + {g}, x)
    {
      assert x in queue || x in visited <==> Reached(t, m, visited, x);
      assert x in kids <==> x != t.root && t.parent[x] == g;
      assert x in queue <==> x == g || x in rest;
    }
  }

  lemma FrontierPushUnique(rest: seq<GroupId>, kids: seq<GroupId>, g: GroupId, visited: set<GroupId>,
                           ids: set<GroupId>, queue: seq<GroupId>)
    requires queue == [g] + rest && NoDuplicates(queue) && NoDuplicates(kids)
    requires forall x :: x in queue ==> x in ids && x !in visited
    requires forall c :: c in kids ==> c in ids && c !in visited && c !in queue
    ensures NoDuplicates(rest + kids)
    ensures forall x :: x in rest + kids ==> x in ids && x !in visited + {g}
  {
    assert forall i :: 0 <= i < |rest| ==> rest[i] == queue[i + 1];
    assert g == queue[0] && g in queue;
    NoDuplicatesConcat(rest, kids);
  }

  /** The list that the search returns, as a function of the matched set `m` alone. */
  ghost function Run(t: Tree, m: set<GroupId>, queue: seq<GroupId>, visited: set<GroupId>,
                     list: seq<GroupId>): seq<GroupId>
    requires WellFormed(t) && Frontier(t, m, queue, visited)
    decreases t.Ids() - visited
  {
    if queue == [] then list
    else
      var g := queue[0];
      assert g in t.Ids() - visited;
      if g in m then
        FrontierPush(t, m, queue, visited);
        Run(t, m, queue[1..] + t.children[g], visited + {g}, if t.children[g] != [] then list else AddTo(t, list, g))
      else
        FrontierSkip(t, m, queue, visited);
        Run(t, m, queue[1..], visited + {g}, if g in t.parent then AddTo(t, list, t.parent[g]) else list)
  }

  /** Add, made total. */
  ghost function AddTo(t: Tree, list: seq<GroupId>, g: GroupId): seq<GroupId>
    requires WellFormed(t) && g in t.Ids()
  {
    if Antichain(t, list) then Add(t, list, g) else list
  }

  lemma FrontierStart(t: Tree, m: set<GroupId>)
    requires WellFormed(t)
    ensures Frontier(t, m, [t.root], {})
  {
  }

  /** A child of `x` has been visited and did not match. */
  ghost predicate Missed(t: Tree, m: set<GroupId>, visited: set<GroupId>, x: GroupId)
    requires x in t.Ids()
  {
    exists c :: c in t.children[x] && c in visited && c !in m
  }

  /** The groups handed to `_add_group` once `visited` has been processed. */
  ghost function Added(t: Tree, m: set<GroupId>, visited: set<GroupId>): set<GroupId>
    requires WellFormed(t)
  {
    set x | x in t.Ids() && ((x in visited && x in m && t.children[x] == []) || Missed(t, m, visited, x))
  }

  lemma MissedStep(t: Tree, m: set<GroupId>, visited: set<GroupId>, g: GroupId, x: GroupId)
    requires WellFormed(t) && g in t.Ids() && x in t.Ids()
    ensures Missed(t, m, visited + {g}, x) <==>
            Missed(t, m, visited, x) || (g !in m && g in t.parent && t.parent[g] == x)
  {
    if Missed(t, m, visited, x) {
      var c :| c in t.children[x] && c in visited && c !in m;
      assert c in visited + {g};
    }
    if g !in m && g in t.parent && t.parent[g] == x {
      assert g in t.children[x] && g in visited + {g};
    }
  }

  /** The groups that processing `g` hands to `_add_group`. */
  ghost function NewlyAdded(t: Tree, m: set<GroupId>, g: GroupId): set<GroupId>
    requires WellFormed(t) && g in t.Ids()
  {
    if g in m then if t.children[g] == [] then {g} else {}
    else if g in t.parent then {t.parent[g]} else {}
  }

  lemma AddedStep(t: Tree, m: set<GroupId>, visited: set<GroupId>, g: GroupId)
    requires WellFormed(t) && g in t.Ids()
    ensures Added(t, m, visited + {g}) == Added(t, m, visited) + NewlyAdded(t, m, g)
  {
    forall x | x in t.Ids()
      ensures x in Added(t, m, visited + {g}) <==> x in Added(t, m, visited) + NewlyAdded(t, m, g)
    {
      MissedStep(t, m, visited, g, x);
    }
  }

  /** Every run ends with the deepest of everything it handed to `_add_group`. */
  lemma {:induction false} RunRepresents(t: Tree, m: set<GroupId>, queue: seq<GroupId>, visited: set<GroupId>,
                                         list: seq<GroupId>)
    returns (final: set<GroupId>)
    requires WellFormed(t) && Frontier(t, m, queue, visited)
    requires Represents(t, Added(t, m, visited), list)
    ensures Frontier(t, m, [], final)
    ensures Represents(t, Added(t, m, final), Run(t, m, queue, visited, list))
    decreases t.Ids() - visited
  {
    if queue == [] {
      final := visited;
    } else {
      var g := queue[0];
      AddedStep(t, m, visited, g);
      var a := Added(t, m, visited);
      RepresentsAntichain(t, a, list);
      assert g in t.Ids() - visited;
      if g in m {
        FrontierPush(t, m, queue, visited);
        if t.children[g] == [] { AddRepresents(t, a, list, g); }
        final := RunRepresents(t, m, queue[1..] + t.children[g], visited + {g},
                               if t.children[g] != [] then list else AddTo(t, list, g));
      } else if g in t.parent {
        FrontierSkip(t, m, queue, visited);
        AddRepresents(t, a, list, t.parent[g]);
        final := RunRepresents(t, m, queue[1..], visited + {g}, Add(t, list, t.parent[g]));
      } else {
        FrontierSkip(t, m, queue, visited);
        final := RunRepresents(t, m, queue[1..], visited + {g}, list);
      }
    }
  }

  // ----- What the search returns -----

  /** The groups that contain the email together with all their ancestors, where `containing` is the set of groups
      that contain it. */
  ghost function Matched(t: Tree, containing: set<GroupId>): set<GroupId>
    requires WellFormed(t)
  {
    set g | g in t.Ids() && Above(t, g) <= containing
  }

  /** The ordered list found for an email that is contained in exactly the groups `containing`. */
  ghost function Find(t: Tree, containing: set<GroupId>): seq<GroupId>
    requires WellFormed(t)
  {
    FrontierStart(t, Matched(t, containing));
    Run(t, Matched(t, containing), [t.root], {}, [])
  }

  lemma {:induction false} AllMatchedVisited(t: Tree, containing: set<GroupId>, final: set<GroupId>, g: GroupId)
    requires WellFormed(t) && Frontier(t, Matched(t, containing), [], final)
    requires g in Matched(t, containing)
    ensures g in final
    decreases Rank(t)[g]
  {
    if g != t.root {
      AllMatchedVisited(t, containing, final, t.parent[g]);
    }
    assert Reached(t, Matched(t, containing), final, g);
  }

  /** A matched group is deepest among the matched groups exactly when none of its children is matched. */
  lemma DeepestHasNoMatchedChild(t: Tree, containing: set<GroupId>, g: GroupId)
    requires WellFormed(t)
    ensures IsDeepest(t, Matched(t, containing), g) <==>
            g in Matched(t, containing) && forall c :: c in t.children[g] ==> c !in containing
  {
    var m := Matched(t, containing);
    if g in m {
      forall c | c in t.children[g] ensures c in m <==> c in containing {
        assert Above(t, c) == {c} + Above(t, g);
      }
      if c :| c in t.children[g] && c in m {
        assert g in Above(t, c) && Ranked(t, Rank(t));
        assert !IsDeepest(t, m, g);
      }
      forall y | y in m && g in Above(t, y) && y != g ensures exists c :: c in t.children[g] && c in m {
        var c := ChildOnPath(t, y, g);
        AboveTransitive(t, y, c);
        assert c in m;
      }
    }
  }

  lemma AddedAreMatched(t: Tree, containing: set<GroupId>, final: set<GroupId>, x: GroupId)
    requires WellFormed(t) && Frontier(t, Matched(t, containing), [], final)
    requires x in Added(t, Matched(t, containing), final)
    ensures x in Matched(t, containing)
  {
    var m := Matched(t, containing);
    if Missed(t, m, final, x) {
      var c :| c in t.children[x] && c in final && c !in m;
      assert t.parent[c] == x && c != t.root;
      assert Reached(t, m, final, c);
    }
  }

  lemma DeepestAreAdded(t: Tree, containing: set<GroupId>, final: set<GroupId>, x: GroupId)
    requires WellFormed(t) && Frontier(t, Matched(t, containing), [], final)
    requires IsDeepest(t, Matched(t, containing), x)
    ensures x in Added(t, Matched(t, containing), final)
  {
    var m := Matched(t, containing);
    AllMatchedVisited(t, containing, final, x);
    DeepestHasNoMatchedChild(t, containing, x);
    if t.children[x] != [] {
      var c := t.children[x][0];
      assert c in t.children[x] && t.parent[c] == x && c != t.root;
      assert Reached(t, m, final, c);
      assert c in Above(t, c);
      assert Missed(t, m, final, x);
    }
  }

  /** Taking the deepest of what was added and the deepest of what matched is the same. */
  lemma DeepestAdded(t: Tree, containing: set<GroupId>, final: set<GroupId>, x: GroupId)
    requires WellFormed(t) && Frontier(t, Matched(t, containing), [], final)
    ensures IsDeepest(t, Added(t, Matched(t, containing), final), x) <==> IsDeepest(t, Matched(t, containing), x)
  {
    var m := Matched(t, containing);
    var a := Added(t, m, final);
    forall y | y in a ensures y in m {
      AddedAreMatched(t, containing, final, y);
    }
    if IsDeepest(t, a, x) {
      var d := DeepestBelow(t, m, x);
      DeepestAreAdded(t, containing, final, d);
    }
    if IsDeepest(t, m, x) {
      DeepestAreAdded(t, containing, final, x);
    }
  }

  /**
   * The search returns, each once, exactly the groups that contain the email together with all their
   * ancestors while none of their children contains it; the list is a non-empty antichain.
   */
  lemma FindMostSpecific(t: Tree, containing: set<GroupId>)
    requires WellFormed(t) && t.root in containing
    ensures Find(t, containing) != []
    ensures NoDuplicates(Find(t, containing)) && Antichain(t, Find(t, containing))
    ensures forall g :: g in Find(t, containing) <==>
                        g in t.Ids() && Above(t, g) <= containing && forall c :: c in t.children[g] ==> c !in containing
  {
    var m := Matched(t, containing);
    FrontierStart(t, m);
    var final := RunRepresents(t, m, [t.root], {}, []);
    var list := Find(t, containing);
    RepresentsAntichain(t, Added(t, m, final), list);
    forall g ensures g in list <==>
                     g in t.Ids() && Above(t, g) <= containing && forall c :: c in t.children[g] ==> c !in containing
    {
      DeepestAdded(t, containing, final, g);
      DeepestHasNoMatchedChild(t, containing, g);
    }
    var d := DeepestBelow(t, m, t.root);
    DeepestAdded(t, containing, final, d);
    assert d in list;
  }

  /** The upward closure of a list of groups. */
  ghost function Closure(t: Tree, list: seq<GroupId>): set<GroupId>
    requires WellFormed(t)
  {
    set x, g | g in t.Ids() && g in list && x in Above(t, g) :: x
  }

  /** The matched set can be recovered from the list the search returns. */
  lemma ClosureOfFind(t: Tree, containing: set<GroupId>)
    requires WellFormed(t) && t.root in containing
    ensures Closure(t, Find(t, containing)) == Matched(t, containing)
  {
    var m, list := Matched(t, containing), Find(t, containing);
    FindMostSpecific(t, containing);
    forall x ensures x in Closure(t, list) <==> x in m {
      if x in Closure(t, list) {
        var g :| g in t.Ids() && g in list && x in Above(t, g);
        AboveTransitive(t, g, x);
      }
      if x in m {
        var d := DeepestBelow(t, m, x);
        DeepestHasNoMatchedChild(t, containing, d);
        assert d in list;
      }
    }
  }

  /** Two emails whose lists have the same members get the same list in the same order. */
  lemma SameMembersSameList(t: Tree, c1: set<GroupId>, c2: set<GroupId>)
    requires WellFormed(t) && t.root in c1 && t.root in c2
    requires forall g :: g in Find(t, c1) <==> g in Find(t, c2)
    ensures Find(t, c1) == Find(t, c2)
  {
    ClosureOfFind(t, c1);
    ClosureOfFind(t, c2);
    assert Closure(t, Find(t, c1)) == Closure(t, Find(t, c2));
  }
}
