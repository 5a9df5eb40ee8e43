/** Loads of one session key that overlap: their cache accesses and remote calls interleave. */
module SessionRaces {
  import opened Wrappers
  import opened SessionMigration

  /** A load has not asked the source yet, has its answer, has set the session at the target, or has ended. */
  datatype Phase = Waiting | Got(data: SessionData) | Stored | Ended

  datatype Request = Request(source: Slot, local: Slot, phase: Phase)

  datatype State = State(stores: Stores, requests: seq<Request>) {
    function Put(i: nat, phase: Phase): State
      requires i < |requests|
    {
      this.(requests := requests[i := requests[i].(phase := phase)])
    }
  }

  datatype Step = Get(i: nat, fails: bool) | Set(i: nat, access: Access) | Delete(i: nat, deletion: Deletion)

  predicate Enabled(s: State, step: Step) {
    && step.i < |s.requests|
    && match step
       case Get(i, _) => s.requests[i].phase.Waiting?
       case Set(i, _) => s.requests[i].phase.Got?
       case Delete(i, _) => s.requests[i].phase.Stored?
  }

  /** One access of one load; without an answer from the source it changes no store. */
  function Apply(s: State, step: Step): State
    requires Enabled(s, step)
  {
    var r := s.requests[step.i];
    match step
    case Get(i, fails) =>
      var data := if fails then NO_SESSION else Lookup(s.stores, r.source);
      s.Put(i, if data == NO_SESSION then Ended else Got(data))
    case Set(i, access) =>
      s.(stores := StoreAfterSet(s.stores, r.local, r.phase.data, access))
       .Put(i, if access.Raises? then Ended else Stored)
    case Delete(i, deletion) =>
      s.(stores := StoreAfterDelete(s.stores, r.source, deletion)).Put(i, Ended)
  }

  function Run(s: State, steps: seq<Step>): Option<State> {
    if steps == [] then Some(s)
    else
      var before := Run(s, steps[..|steps| - 1]);
      var step := steps[|steps| - 1];
      if before.Some? && Enabled(before.value, step) then Some(Apply(before.value, step)) else None
  }

  // ----- Alone -----

  /** The steps of one load whose other accesses have no effect on the stores. */
  function LoadSteps(i: nat, found: bool, f: Faults): seq<Step> {
    if !f.sourceGet.Answers? || !found then [Get(i, !f.sourceGet.Answers?)]
    else if f.localSet.Raises? then [Get(i, false), Set(i, f.localSet)]
    else [Get(i, false), Set(i, f.localSet), Delete(i, f.deletion)]
  }

  /** Without interleaving, the steps of a load do what the load does. */
  lemma LoadIsItsSteps(settings: Settings, s: State, i: nat, current: ClusterId, cookie: Cookie, f: Faults)
    requires SourceSlot(settings, current, cookie).Some? && i < |s.requests|
    requires s.requests[i] == Request(SourceSlot(settings, current, cookie).value,
                                      settings.ClusterSlot(current, cookie.key), Waiting)
    ensures var run := Run(s, LoadSteps(i, Lookup(s.stores, s.requests[i].source) != NO_SESSION, f));
            && run.Some? && run.value.stores == LoadStores(settings, s.stores, current, cookie, f)
            && run.value.requests[i].phase == Ended
  {
    var steps := LoadSteps(i, Lookup(s.stores, s.requests[i].source) != NO_SESSION, f);
    assert steps[..1] == [steps[0]];
    assert steps[..1][..0] == [];
    var s1 := Apply(s, steps[0]);
    assert Run(s, steps[..1]) == Some(s1);
    if |steps| >= 2 {
      assert steps[..2][..1] == steps[..1];
      assert Run(s, steps[..2]) == Some(Apply(s1, steps[1]));
    }
  }

  // ----- When overlapping loads can lose a session -----

  predicate AllWaiting(s: State) {
    forall i :: 0 <= i < |s.requests| ==> s.requests[i].phase.Waiting?
  }

  predicate ForKey(s: State, key: SessionKey) {
    forall i :: 0 <= i < |s.requests| ==>
      s.requests[i].source.key == key && s.requests[i].local.key == key &&
      (s.requests[i].phase.Got? ==> s.requests[i].phase.data != NO_SESSION)
  }

  /** The slots that hold a copy of the session. */
  function StoredSlots(s: State, key: SessionKey): set<Slot> {
    set slot | slot in s.stores && slot.key == key && s.stores[slot] != NO_SESSION
  }

  /** The steps are possible and leave no copy of the session. */
  ghost predicate Loses(s: State, steps: seq<Step>, key: SessionKey) {
    Run(s, steps).Some? && !HasSession(Run(s, steps).value.stores, key)
  }

  predicate Succeeded(step: Step) {
    match step
    case Get(_, fails) => !fails
    case Set(_, access) => access.Succeeds?
    case Delete(_, deletion) => deletion.Deleted?
  }

  predicate NoFailures(steps: seq<Step>) {
    forall k :: 0 <= k < |steps| ==> Succeeded(steps[k])
  }

  /** Some load moves the session from the slot to a slot of `d`. */
  ghost predicate MovesInto(s: State, slot: Slot, d: set<Slot>) {
    exists i :: 0 <= i < |s.requests| && s.requests[i].source == slot && s.requests[i].local in d
  }

  /** All copies are in `d`, and from every slot of `d` some load moves to a slot of `d`. */
  ghost predicate Circular(s: State, key: SessionKey, d: set<Slot>) {
    StoredSlots(s, key) <= d && forall slot :: slot in d ==> MovesInto(s, slot, d)
  }

  predicate SameMoves(s: State, s': State) {
    && |s'.requests| == |s.requests|
    && forall i :: 0 <= i < |s.requests| ==>
         s'.requests[i].source == s.requests[i].source && s'.requests[i].local == s.requests[i].local
  }

  lemma NoCopies(s: State, key: SessionKey)
    ensures HasSession(s.stores, key) <==> StoredSlots(s, key) != {}
  {
    if HasSession(s.stores, key) {
      var slot :| slot in s.stores && slot.key == key && s.stores[slot] != NO_SESSION;
      assert slot in StoredSlots(s, key);
    }
    if StoredSlots(s, key) != {} {
      var slot :| slot in StoredSlots(s, key);
      assert slot in s.stores && slot.key == key && s.stores[slot] != NO_SESSION;
    }
  }

  // ----- A run that loses the session goes round in a circle -----

  /** The slots that held a copy at some time of the run. */
  ghost function EverStored(s: State, steps: seq<Step>, key: SessionKey): set<Slot>
    requires Run(s, steps).Some?
  {
    StoredSlots(Run(s, steps).value, key) + if steps == [] then {} else EverStored(s, steps[..|steps| - 1], key)
  }

  /** Every slot of `ever` that is no longer stored is the source of a load to a slot of `ever`. */
  ghost predicate AllMoved(s: State, stored: set<Slot>, ever: set<Slot>) {
    forall slot :: slot in ever && slot !in stored ==> MovesInto(s, slot, ever)
  }

  /** Every load that has stored the session did so at a slot of `ever`. */
  predicate StoredIn(s: State, ever: set<Slot>) {
    forall i :: 0 <= i < |s.requests| && s.requests[i].phase.Stored? ==> s.requests[i].local in ever
  }

  /** Every slot that has lost its copy is the source of a load whose target held one. */
  ghost predicate Emptied(s: State, s': State, key: SessionKey, ever: set<Slot>) {
    && SameMoves(s, s') && ForKey(s', key) && StoredSlots(s', key) <= ever
    && StoredIn(s', ever) && AllMoved(s, StoredSlots(s', key), ever)
  }

  lemma EmptiedStep(s: State, s1: State, step: Step, key: SessionKey, ever: set<Slot>)
    requires Emptied(s, s1, key, ever) && Enabled(s1, step)
    ensures var s2 := Apply(s1, step); Emptied(s, s2, key, StoredSlots(s2, key) + ever)
  {
    var s2 := Apply(s1, step);
    StepShape(s1, step, key, ever);
    assert s.requests[step.i].source == s1.requests[step.i].source &&
           s.requests[step.i].local == s1.requests[step.i].local;
    hide Apply, StoredSlots, ForKey, AllMoved, StoredIn;
    SameMovesTransitive(s, s1, s2);
    StillMoved(s, step.i, StoredSlots(s1, key), StoredSlots(s2, key), ever);
  }

  lemma SameMovesTransitive(s: State, s1: State, s2: State)
    requires SameMoves(s, s1) && SameMoves(s1, s2)
    ensures SameMoves(s, s2)
  {
  }

  lemma StillMoved(s: State, i: nat, stored: set<Slot>, stored': set<Slot>, ever: set<Slot>)
    requires AllMoved(s, stored, ever) && i < |s.requests|
    requires forall slot :: slot in stored && slot !in stored' ==>
             slot == s.requests[i].source && s.requests[i].local in ever
    ensures AllMoved(s, stored', stored' + ever)
  {
    hide MovesInto;
    forall slot | slot in ever && slot !in stored' ensures MovesInto(s, slot, stored' + ever) {
      if slot in stored {
        Mover(s, i, stored' + ever);
      } else {
        LargerTarget(s, slot, ever, stored' + ever);
      }
    }
  }

  lemma Mover(s: State, i: nat, d: set<Slot>)
    requires i < |s.requests| && s.requests[i].local in d
    ensures MovesInto(s, s.requests[i].source, d)
  {
  }

  lemma LargerTarget(s: State, slot: Slot, d: set<Slot>, d': set<Slot>)
    requires MovesInto(s, slot, d) && d <= d'
    ensures MovesInto(s, slot, d')
  {
    var i :| 0 <= i < |s.requests| && s.requests[i].source == slot && s.requests[i].local in d;
    assert s.requests[i].local in d';
  }

  /** A step changes one phase; only a load that has stored the session empties a slot, and only its source. */
  lemma StepShape(s: State, step: Step, key: SessionKey, ever: set<Slot>)
    requires ForKey(s, key) && Enabled(s, step) && StoredIn(s, ever)
    ensures var s' := Apply(s, step);
            && SameMoves(s, s') && ForKey(s', key) && StoredIn(s', StoredSlots(s', key) + ever)
            && (forall slot :: slot in StoredSlots(s, key) && slot !in StoredSlots(s', key) ==>
                  slot == s.requests[step.i].source && s.requests[step.i].local in ever)
  {
  }

  lemma {:induction false} EmptiedRun(s: State, steps: seq<Step>, key: SessionKey)
    requires AllWaiting(s) && ForKey(s, key) && Run(s, steps).Some?
    ensures Emptied(s, Run(s, steps).value, key, EverStored(s, steps, key))
    ensures StoredSlots(s, key) <= EverStored(s, steps, key)
    decreases |steps|
  {
    if steps != [] {
      var before := steps[..|steps| - 1];
      EmptiedRun(s, before, key);
      EmptiedStep(s, Run(s, before).value, steps[|steps| - 1], key, EverStored(s, before, key));
    }
  }

  lemma LossIsCircular(s: State, steps: seq<Step>, key: SessionKey)
    requires AllWaiting(s) && ForKey(s, key) && Loses(s, steps, key)
    ensures Circular(s, key, EverStored(s, steps, key))
  {
    hide MovesInto;
    EmptiedRun(s, steps, key);
    NoCopies(Run(s, steps).value, key);
  }

  // ----- A circle makes a run that loses the session -----

  lemma RunAppend(s: State, steps: seq<Step>, step: Step)
    requires Run(s, steps).Some? && Enabled(Run(s, steps).value, step)
    ensures Run(s, steps + [step]) == Some(Apply(Run(s, steps).value, step))
  {
    assert (steps + [step])[..|steps|] == steps;
  }

  /** Loads have copied the session from the slots `done`, without deleting anything yet. */
  ghost predicate Copied(s: State, s': State, key: SessionKey, d: set<Slot>, done: set<Slot>) {
    && SameMoves(s, s') && ForKey(s', key) && StoredSlots(s', key) <= d && done <= d
    && (forall i :: 0 <= i < |s'.requests| ==> s'.requests[i].phase.Waiting? || s'.requests[i].phase.Stored?)
    && (forall i :: 0 <= i < |s'.requests| && s'.requests[i].phase.Stored? ==> s'.requests[i].source in done)
    && (forall slot :: slot in done ==> HasDeleter(s', slot))
  }

  /** Some load that has copied the session is about to delete the slot. */
  ghost predicate HasDeleter(s: State, slot: Slot) {
    exists i :: 0 <= i < |s.requests| && s.requests[i].source == slot && s.requests[i].phase.Stored?
  }

  /** One more load asks its source and stores the session at its target. */
  lemma CopyOne(s: State, steps: seq<Step>, key: SessionKey, d: set<Slot>, done: set<Slot>, slot: Slot)
    returns (steps': seq<Step>)
    requires Run(s, steps).Some? && NoFailures(steps) && Copied(s, Run(s, steps).value, key, d, done)
    requires slot in StoredSlots(Run(s, steps).value, key) && slot !in done && MovesInto(s, slot, d)
    ensures Run(s, steps').Some? && NoFailures(steps') && Copied(s, Run(s, steps').value, key, d, done + {slot})
  {
    var i :| 0 <= i < |s.requests| && s.requests[i].source == slot && s.requests[i].local in d;
    var s1 := Run(s, steps).value;
    RunAppend(s, steps, Get(i, false));
    var s2 := Apply(s1, Get(i, false));
    RunAppend(s, steps + [Get(i, false)], Set(i, Succeeds));
    steps' := steps + [Get(i, false)] + [Set(i, Succeeds)];
    hide Run;
    CopiedStep(s, s1, key, d, done, slot, i);
  }

  lemma CopiedStep(s: State, s1: State, key: SessionKey, d: set<Slot>, done: set<Slot>, slot: Slot, i: nat)
    requires Copied(s, s1, key, d, done) && slot in StoredSlots(s1, key) && slot !in done
    requires i < |s.requests| && s.requests[i].source == slot && s.requests[i].local in d
    ensures Enabled(s1, Get(i, false)) && Enabled(Apply(s1, Get(i, false)), Set(i, Succeeds))
    ensures Copied(s, Apply(Apply(s1, Get(i, false)), Set(i, Succeeds)), key, d, done + {slot})
  {
    var s3 := Apply(Apply(s1, Get(i, false)), Set(i, Succeeds));
    assert s3.requests == s1.requests[i := s1.requests[i].(phase := Stored)];
    forall x | x in done + {slot} ensures HasDeleter(s3, x) {
      if x == slot {
        assert s3.requests[i].source == slot && s3.requests[i].phase.Stored?;
      } else {
        var k :| 0 <= k < |s1.requests| && s1.requests[k].source == x && s1.requests[k].phase.Stored?;
        assert s3.requests[k] == s1.requests[k];
      }
    }
  }

  /** The loads copy until every copy is about to be deleted. */
  lemma {:induction false} CopyAll(s: State, steps: seq<Step>, key: SessionKey, d: set<Slot>, done: set<Slot>)
    returns (steps': seq<Step>)
    requires Circular(s, key, d)
    requires Run(s, steps).Some? && NoFailures(steps) && Copied(s, Run(s, steps).value, key, d, done)
    ensures Run(s, steps').Some? && NoFailures(steps')
    ensures forall slot :: slot in StoredSlots(Run(s, steps').value, key) ==> HasDeleter(Run(s, steps').value, slot)
    decreases d - done
  {
    hide MovesInto, HasDeleter;
    var s1 := Run(s, steps).value;
    if StoredSlots(s1, key) <= done {
      steps' := steps;
    } else {
      var slot :| slot in StoredSlots(s1, key) && slot !in done;
      assert slot in d - done;
      var copied := CopyOne(s, steps, key, d, done, slot);
      steps' := CopyAll(s, copied, key, d, done + {slot});
    }
  }

  lemma DeleteStep(s: State, key: SessionKey, slot: Slot, i: nat)
    requires forall x :: x in StoredSlots(s, key) ==> HasDeleter(s, x)
    requires i < |s.requests| && s.requests[i].source == slot && s.requests[i].phase.Stored?
    ensures var s' := Apply(s, Delete(i, Deleted));
            && StoredSlots(s', key) == StoredSlots(s, key) - {slot}
            && forall x :: x in StoredSlots(s', key) ==> HasDeleter(s', x)
  {
    var s' := Apply(s, Delete(i, Deleted));
    forall x | x in StoredSlots(s', key) ensures HasDeleter(s', x) {
      assert x in StoredSlots(s, key);
      var k :| 0 <= k < |s.requests| && s.requests[k].source == x && s.requests[k].phase.Stored?;
      assert s'.requests[k] == s.requests[k];
    }
  }

  /** Then all of them delete. */
  lemma {:induction false} DeleteAll(s: State, steps: seq<Step>, key: SessionKey) returns (steps': seq<Step>)
    requires Run(s, steps).Some? && NoFailures(steps)
    requires forall slot :: slot in StoredSlots(Run(s, steps).value, key) ==> HasDeleter(Run(s, steps).value, slot)
    ensures NoFailures(steps') && Loses(s, steps', key)
    decreases StoredSlots(Run(s, steps).value, key)
  {
    var s1 := Run(s, steps).value;
    NoCopies(s1, key);
    if StoredSlots(s1, key) == {} {
      steps' := steps;
    } else {
      var slot :| slot in StoredSlots(s1, key);
      var i :| 0 <= i < |s1.requests| && s1.requests[i].source == slot && s1.requests[i].phase.Stored?;
      DeleteStep(s1, key, slot, i);
      RunAppend(s, steps, Delete(i, Deleted));
      assert StoredSlots(s1, key) - {slot} < StoredSlots(s1, key);
      steps' := DeleteAll(s, steps + [Delete(i, Deleted)], key);
    }
  }

  lemma CircleLoses(s: State, key: SessionKey, d: set<Slot>) returns (steps: seq<Step>)
    requires AllWaiting(s) && ForKey(s, key) && Circular(s, key, d)
    ensures NoFailures(steps) && Loses(s, steps, key)
  {
    assert Run(s, []) == Some(s);
    var copied := CopyAll(s, [], key, d, {});
    steps := DeleteAll(s, copied, key);
  }

  // ----- The exact condition -----

  /**
   * Overlapping loads can lose a session exactly when there is a circle: a set of slots that holds all
   * copies and from each of whose slots some load moves to a slot of the set. No failure is needed for it,
   * and failures lose the session in no other case.
   */
  lemma LossExactly(s: State, key: SessionKey)
    requires AllWaiting(s) && ForKey(s, key)
    ensures (exists steps :: Loses(s, steps, key)) <==> exists d :: Circular(s, key, d)
    ensures (exists steps :: NoFailures(steps) && Loses(s, steps, key)) <==> exists d :: Circular(s, key, d)
  {
    if steps :| Loses(s, steps, key) {
      LossIsCircular(s, steps, key);
    }
    if d :| Circular(s, key, d) {
      var steps := CircleLoses(s, key, d);
      assert NoFailures(steps) && Loses(s, steps, key);
    }
  }

  // ----- Loads that form no cycle -----

  /** The moves do not lead round in a circle: each goes to a slot of higher rank. */
  predicate Ranked(s: State, rank: Slot -> int) {
    forall i :: 0 <= i < |s.requests| ==> rank(s.requests[i].source) < rank(s.requests[i].local)
  }

  lemma {:induction false} Highest(d: set<Slot>, rank: Slot -> int) returns (top: Slot)
    requires d != {}
    ensures top in d && forall slot :: slot in d ==> rank(slot) <= rank(top)
    decreases |d|
  {
    top :| top in d;
    if d != {top} {
      assert d - {top} != {};
      var other := Highest(d - {top}, rank);
      if rank(other) > rank(top) { top := other; }
    }
  }

  lemma RankedNotCircular(s: State, rank: Slot -> int, key: SessionKey, d: set<Slot>)
    requires Ranked(s, rank) && StoredSlots(s, key) != {}
    ensures !Circular(s, key, d)
  {
    if d != {} {
      var top := Highest(d, rank);
      assert !MovesInto(s, top, d);
    }
  }

  /** However the loads overlap and fail, the session stays stored when their moves form no cycle. */
  lemma AcyclicLoadsKeepSession(s: State, steps: seq<Step>, rank: Slot -> int, key: SessionKey)
    requires AllWaiting(s) && Ranked(s, rank) && ForKey(s, key)
    requires HasSession(s.stores, key) && Run(s, steps).Some?
    ensures HasSession(Run(s, steps).value.stores, key)
  {
    NoCopies(s, key);
    RankedNotCircular(s, rank, key, EverStored(s, steps, key));
    if Loses(s, steps, key) {
      LossIsCircular(s, steps, key);
    }
  }

  /** In particular when all loads are on one cluster, with whatever cookies. */
  lemma SameClusterLoadsKeepSession(settings: Settings, s: State, steps: seq<Step>, current: ClusterId,
                                    cookies: seq<Cookie>, key: SessionKey)
    requires AllWaiting(s) && |cookies| == |s.requests|
    requires forall i :: 0 <= i < |cookies| ==>
               && cookies[i].key == key
               && Some(s.requests[i].source) == SourceSlot(settings, current, cookies[i])
               && s.requests[i].local == settings.ClusterSlot(current, key)
    requires HasSession(s.stores, key) && Run(s, steps).Some?
    ensures HasSession(Run(s, steps).value.stores, key)
  {
    var rank: Slot -> int := slot => if slot == settings.ClusterSlot(current, key) then 1 else 0;
    forall i | 0 <= i < |s.requests|
      ensures s.requests[i].source.key == key && rank(s.requests[i].source) < rank(s.requests[i].local)
    {
      assert cookies[i].key == key;
    }
    AcyclicLoadsKeepSession(s, steps, rank, key);
  }

  // ----- Loads that form a cycle -----

  /** Each load of `cycle` moves the session to the slot from which the next one takes it, and the last to that of the
      first. */
  predicate IsCycle(s: State, cycle: seq<nat>) {
    && cycle != [] && (forall k :: 0 <= k < |cycle| ==> cycle[k] < |s.requests|)
    && forall k :: 0 <= k < |cycle| ==>
         s.requests[cycle[k]].local == s.requests[cycle[if k + 1 < |cycle| then k + 1 else 0]].source
  }

  /**
   * When some of the loads form a cycle through all copies, such as two clusters that migrate from each
   * other, a run without any failure loses the session.
   */
  lemma CyclicLoadsCanLoseSession(s: State, cycle: seq<nat>, key: SessionKey) returns (steps: seq<Step>)
    requires AllWaiting(s) && ForKey(s, key) && IsCycle(s, cycle)
    requires forall slot :: slot in StoredSlots(s, key) ==>
             exists k :: 0 <= k < |cycle| && s.requests[cycle[k]].source == slot
    ensures NoFailures(steps) && Loses(s, steps, key)
  {
    var d := set k | 0 <= k < |cycle| :: s.requests[cycle[k]].source;
    forall slot | slot in d ensures MovesInto(s, slot, d) {
      var k :| 0 <= k < |cycle| && s.requests[cycle[k]].source == slot;
      var next := if k + 1 < |cycle| then k + 1 else 0;
      assert s.requests[cycle[next]].source in d;
    }
    steps := CircleLoses(s, key, d);
  }
}
