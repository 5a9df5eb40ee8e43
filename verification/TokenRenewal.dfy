/**
 * ReservedUser.loadusertoken: processes that load the access token of one user at the same time and renew
 * it with a conditional update when it is about to expire. Their database operations interleave freely.
 */
module TokenRenewal {
  import opened Totals
  import opened Wrappers

  /** Dates are days. */
  datatype UserToken = UserToken(token: Option<string>, expired: Option<int>, enabled: bool)

  const LIFETIME := 28

  /** The token is neither missing nor the empty string. */
  predicate HasToken(t: UserToken) {
    t.token.Some? && t.token.value != ""
  }

  /** A token without an expiry date, which cannot be compared with a date. */
  predicate Permanent(t: UserToken) {
    HasToken(t) && t.expired.None?
  }

  /** The condition of the renewal loop. */
  predicate NeedsRenewal(t: UserToken, renewdate: int)
    requires !Permanent(t)
  {
    !HasToken(t) || t.expired.value <= renewdate
  }

  /** Where a process is. */
  datatype Phase =
    | Start
    | Loaded(usertoken: UserToken)
    | Checking(usertoken: UserToken, renewdate: int)
    | Renewing(current: Option<string>, usertoken: UserToken, renewdate: int)
    | Refetching(renewdate: int)
    | Done(usertoken: UserToken, renewdate: int)
    | Failed

  /** `row` is the row of the user; `writes` counts the creations and the updates that matched it. */
  datatype State = State(row: Option<UserToken>, today: int, procs: seq<Phase>, writes: nat) {
    function At(p: nat, phase: Phase): State
      requires p < |procs|
    {
      this.(procs := procs[p := phase])
    }
  }

  /** A step of process `p`, with the token that it generates; or the next day. */
  datatype Step = GetOrCreate(p: nat, token: string) | SetDate(p: nat) | Check(p: nat, token: string)
                | Update(p: nat) | Get(p: nat) | NextDay

  predicate Enabled(s: State, step: Step) {
    match step
    case GetOrCreate(p, token) => p < |s.procs| && s.procs[p].Start? && token != ""
    case SetDate(p) => p < |s.procs| && s.procs[p].Loaded?
    case Check(p, token) => p < |s.procs| && s.procs[p].Checking? && token != "" &&
      s.procs[p].usertoken.token != Some(token)
    case Update(p) => p < |s.procs| && s.procs[p].Renewing?
    case Get(p) => p < |s.procs| && s.procs[p].Refetching? && s.row.Some?
    case NextDay => true
  }

  /** The row that the conditional update looks for is still there. */
  predicate UpdateMatches(row: Option<UserToken>, current: Option<string>) {
    row.Some? && if current.None? || current.value == "" then row.value.token.None? else row.value.token == current
  }

  function Apply(s: State, step: Step): State
    requires Enabled(s, step)
  {
    match step
    case GetOrCreate(p, token) =>
      if s.row.Some? then s.At(p, Loaded(s.row.value))
      else
        var t := UserToken(Some(token), Some(s.today + LIFETIME), true);
        s.(row := Some(t), writes := s.writes + 1).At(p, Done(t, s.today + 1))
    case SetDate(p) => s.At(p, Checking(s.procs[p].usertoken, s.today + 1))
    case Check(p, token) =>
      var t, renewdate := s.procs[p].usertoken, s.procs[p].renewdate;
      if Permanent(t) then s.At(p, Failed)
      else if NeedsRenewal(t, renewdate) then
        s.At(p, Renewing(t.token, UserToken(Some(token), Some(s.today + LIFETIME), t.enabled), renewdate))
      else s.At(p, Done(t, renewdate))
    case Update(p) =>
      var phase := s.procs[p];
      if UpdateMatches(s.row, phase.current) then
        var t := phase.usertoken.(enabled := true);
        s.(row := Some(t), writes := s.writes + 1).At(p, Checking(t, phase.renewdate))
      else s.At(p, Refetching(phase.renewdate))
    case Get(p) => s.At(p, Checking(s.row.value, s.procs[p].renewdate))
    case NextDay => s.(today := s.today + 1)
  }

  /** A created and a renewed token are good for 28 days, and a token is renewed when it expires by tomorrow. */
  lemma Dates(s: State, step: Step)
    requires Enabled(s, step)
    ensures step.GetOrCreate? && s.row.None? ==>
            Apply(s, step).row == Some(UserToken(Some(step.token), Some(s.today + 28), true))
    ensures step.SetDate? ==> Apply(s, step).procs[step.p] == Checking(s.procs[step.p].usertoken, s.today + 1)
    ensures step.Check? && Apply(s, step).procs[step.p].Renewing? ==>
              var t := s.procs[step.p].usertoken;
              && Apply(s, step).procs[step.p].usertoken == UserToken(Some(step.token), Some(s.today + 28), t.enabled)
              && (t.token == None || t.token == Some("") ||
                  (t.expired.Some? && t.expired.value <= s.procs[step.p].renewdate))
    ensures step.NextDay? ==> Apply(s, step) == s.(today := s.today + 1)
    ensures !step.NextDay? ==> Apply(s, step).today == s.today
    ensures step.Update? && Apply(s, step).writes > s.writes ==>
              Apply(s, step).row == Some(s.procs[step.p].usertoken.(enabled := true))
  {
  }

  // ----- Runs -----

  predicate Initial(s: State) {
    s.writes == 0 && forall p :: 0 <= p < |s.procs| ==> s.procs[p].Start?
  }

  /** The state after the steps, if each of them is possible. */
  function Run(s: State, steps: seq<Step>): Option<State> {
    if steps == [] then Some(s)
    else
      var before := Run(s, steps[..|steps| - 1]);
      var step := steps[|steps| - 1];
      if before.Some? && Enabled(before.value, step) then Some(Apply(before.value, step)) else None
  }

  // ----- What every reachable state keeps -----

  /** The token replaces the one at the start, on the first day or later. */
  predicate Renewed(start: State, t: UserToken) {
    && HasToken(t) && t.expired.Some? && t.expired.value >= start.today + LIFETIME
    && (start.row.Some? ==> t.token != start.row.value.token)
  }

  /** A process holds what the row was at the start, or what it is since its one renewal. */
  predicate Seen(start: State, s: State, t: UserToken) {
    start.row == Some(t) || (s.writes == 1 && s.row == Some(t))
  }

  predicate PhaseOk(start: State, s: State, phase: Phase) {
    match phase
    case Start => true
    case Loaded(t) => Seen(start, s, t)
    case Checking(t, d) => Seen(start, s, t) && start.today < d <= s.today + 1
    case Renewing(current, t, d) =>
      && start.row.Some? && current == start.row.value.token
      && !Permanent(start.row.value) && NeedsRenewal(start.row.value, d)
      && Renewed(start, t) && start.today < d <= s.today + 1
    case Refetching(d) =>
      (s.writes == 1 || (start.row.Some? && start.row.value.token == Some(""))) && start.today < d <= s.today + 1
    case Done(t, d) =>
      && start.today < d <= s.today + 1
      && ((s.writes == 1 && s.row == Some(t)) || (start.row == Some(t) && !Permanent(t) && !NeedsRenewal(t, d)))
    case Failed => start.row.Some? && Permanent(start.row.value)
  }

  predicate Invariant(start: State, s: State) {
    && |s.procs| == |start.procs| && start.today <= s.today
    && (s.writes == 0 ==> s.row == start.row)
    && (s.writes > 0 ==>
          && s.writes == 1 && s.row.Some? && Renewed(start, s.row.value)
          && (start.row.Some? ==>
                && !Permanent(start.row.value) && start.row.value.token != Some("")
                && NeedsRenewal(start.row.value, s.today + 1)))
    && forall p :: 0 <= p < |s.procs| ==> PhaseOk(start, s, s.procs[p])
  }

  /** The run lasts at most as long as a new token is good for every process. */
  predicate InTime(start: State, s: State) {
    s.today + 1 < start.today + LIFETIME
  }

  lemma InvariantStep(start: State, s: State, step: Step)
    requires Invariant(start, s) && Enabled(s, step) && InTime(start, s)
    ensures Invariant(start, Apply(s, step))
  {
    var s' := Apply(s, step);
    forall p | 0 <= p < |s.procs| ensures PhaseOk(start, s', s'.procs[p]) {
      assert PhaseOk(start, s, s.procs[p]);
    }
  }

  lemma {:induction false} RunInvariant(start: State, steps: seq<Step>)
    requires Initial(start) && Run(start, steps).Some? && InTime(start, Run(start, steps).value)
    ensures Invariant(start, Run(start, steps).value)
    decreases |steps|
  {
    if steps != [] {
      RunInvariant(start, steps[..|steps| - 1]);
      InvariantStep(start, Run(start, steps[..|steps| - 1]).value, steps[|steps| - 1]);
    }
  }

  // ----- What the processes end with -----

  /** The user has no row yet, or a token that expires tomorrow or earlier, or no token. */
  predicate Expiring(start: State) {
    start.row.Some? ==>
      !Permanent(start.row.value) && start.row.value.token != Some("") && NeedsRenewal(start.row.value, start.today + 1)
  }

  /**
   * At most one write ever matches. A process that has left the loop holds the one renewed token, which is
   * still good for more than a day, or found the token at the start good.
   */
  lemma Outcome(start: State, steps: seq<Step>, p: nat)
    requires Initial(start) && Run(start, steps).Some? && InTime(start, Run(start, steps).value)
    requires p < |start.procs|
    ensures var s := Run(start, steps).value;
            && s.writes <= 1 && |s.procs| == |start.procs|
            && (s.writes == 0 ==> s.row == start.row)
            && (s.procs[p].Done? ==>
                  var t := s.procs[p].usertoken;
                  && HasToken(t) && t.expired.Some? && t.expired.value > s.procs[p].renewdate
                  && (start.row == Some(t) || (s.row == Some(t) && t.expired.value > s.today + 1)))
  {
    RunInvariant(start, steps);
    assert PhaseOk(start, Run(start, steps).value, Run(start, steps).value.procs[p]);
  }

  /** From an expiring token, a process leaves the loop only after the one renewal, holding the token of the row. */
  lemma ExpiringOutcome(start: State, steps: seq<Step>, p: nat)
    requires Initial(start) && Run(start, steps).Some? && InTime(start, Run(start, steps).value)
    requires Expiring(start) && p < |start.procs|
    ensures var s := Run(start, steps).value;
            && |s.procs| == |start.procs| && !s.procs[p].Failed?
            && (s.procs[p].Done? ==> s.writes == 1 && s.row == Some(s.procs[p].usertoken) && s.row != start.row)
  {
    RunInvariant(start, steps);
    assert PhaseOk(start, Run(start, steps).value, Run(start, steps).value.procs[p]);
  }

  /** A token without an expiry date makes every process fail; an empty string as token is never renewed and ends
      none. */
  lemma BadTokenOutcome(start: State, steps: seq<Step>, p: nat)
    requires Initial(start) && Run(start, steps).Some? && InTime(start, Run(start, steps).value)
    requires start.row.Some? && p < |start.procs|
    requires Permanent(start.row.value) || start.row.value.token == Some("")
    ensures var s := Run(start, steps).value;
            && s.row == start.row && |s.procs| == |start.procs| && !s.procs[p].Done?
            && (s.procs[p].Failed? ==> Permanent(start.row.value))
  {
    RunInvariant(start, steps);
    assert PhaseOk(start, Run(start, steps).value, Run(start, steps).value.procs[p]);
  }

  // ----- Every process leaves the loop -----

  predicate IsFinal(phase: Phase) {
    phase.Done? || phase.Failed?
  }

  predicate IsStepOf(step: Step, p: nat) {
    !step.NextDay? && step.p == p
  }

  /** A process that has not left the loop always has a next step. */
  lemma NotStuck(start: State, steps: seq<Step>, p: nat) returns (step: Step)
    requires Initial(start) && Run(start, steps).Some? && InTime(start, Run(start, steps).value)
    requires p < |Run(start, steps).value.procs| && !IsFinal(Run(start, steps).value.procs[p])
    ensures IsStepOf(step, p) && Enabled(Run(start, steps).value, step)
  {
    var s := Run(start, steps).value;
    RunInvariant(start, steps);
    assert PhaseOk(start, s, s.procs[p]);
    match s.procs[p]
    case Start => step := GetOrCreate(p, "a");
    case Loaded(_) => step := SetDate(p);
    case Checking(t, _) => step := Check(p, if t.token == Some("a") then "b" else "a");
    case Renewing(_, _, _) => step := Update(p);
    case Refetching(_) => step := Get(p);
  }

  /** How many steps a process can still take, at most. */
  function StepsLeft(start: State): Phase -> int {
    (phase: Phase) =>
      match phase
      case Start => 6
      case Loaded(_) => 5
      case Checking(t, _) => if start.row == Some(t) then 4 else 1
      case Renewing(_, _, _) => 3
      case Refetching(_) => 2
      case Done(_, _) => 0
      case Failed => 0
  }

  lemma StepsLeftDecrease(start: State, s: State, step: Step)
    requires Invariant(start, s) && Enabled(s, step) && InTime(start, s) && !step.NextDay?
    requires start.row.Some? ==> start.row.value.token != Some("")
    ensures StepsLeft(start)(Apply(s, step).procs[step.p]) < StepsLeft(start)(s.procs[step.p])
  {
    assert PhaseOk(start, s, s.procs[step.p]);
  }

  /** The steps of processes in a run. */
  function Work(steps: seq<Step>): nat {
    if steps == [] then 0 else Work(steps[..|steps| - 1]) + if steps[|steps| - 1].NextDay? then 0 else 1
  }

  lemma {:induction false} InitialSteps(start: State, procs: seq<Phase>)
    requires forall p :: 0 <= p < |procs| ==> procs[p].Start?
    ensures Total(procs, StepsLeft(start)) == 6 * |procs|
    decreases |procs|
  {
    if procs != [] {
      InitialSteps(start, procs[..|procs| - 1]);
    }
  }

  lemma {:induction false} StepsLeftNatural(start: State, procs: seq<Phase>)
    ensures Total(procs, StepsLeft(start)) >= 0
    decreases |procs|
  {
    if procs != [] {
      StepsLeftNatural(start, procs[..|procs| - 1]);
    }
  }

  /** Every interleaving ends: together the processes take at most six steps each, whatever the row is but an empty
      string. */
  lemma RunsEnd(start: State, steps: seq<Step>)
    requires Initial(start) && Run(start, steps).Some? && InTime(start, Run(start, steps).value)
    requires start.row.Some? ==> start.row.value.token != Some("")
    ensures Work(steps) <= 6 * |start.procs|
  {
    WorkBound(start, steps);
    InitialSteps(start, start.procs);
    StepsLeftNatural(start, Run(start, steps).value.procs);
  }

  lemma {:induction false} WorkBound(start: State, steps: seq<Step>)
    requires Initial(start) && Run(start, steps).Some? && InTime(start, Run(start, steps).value)
    requires start.row.Some? ==> start.row.value.token != Some("")
    ensures Work(steps) + Total(Run(start, steps).value.procs, StepsLeft(start)) <= Total(start.procs, StepsLeft(start))
    decreases |steps|
  {
    if steps != [] {
      var before, step := steps[..|steps| - 1], steps[|steps| - 1];
      var s := Run(start, before).value;
      WorkBound(start, before);
      RunInvariant(start, before);
      if !step.NextDay? {
        StepsLeftDecrease(start, s, step);
        TotalUpdate(s.procs, step.p, Apply(s, step).procs[step.p], StepsLeft(start));
      }
    }
  }

  /** With an empty string as token a process repeats the loop without end: after three steps it is where it was. */
  lemma {:induction false} EmptyTokenLoops(s: State, p: nat, token: string)
    requires p < |s.procs| && s.procs[p].Checking? && s.row == Some(s.procs[p].usertoken)
    requires s.procs[p].usertoken.token == Some("") && token != ""
    ensures Run(s, [Check(p, token), Update(p), Get(p)]) == Some(s)
  {
    var steps := [Check(p, token), Update(p), Get(p)];
    assert steps[..2] == [Check(p, token), Update(p)];
    assert steps[..2][..1] == [Check(p, token)];
    assert steps[..2][..1][..0] == [];
    var s1 := Apply(s, Check(p, token));
    assert Run(s, steps[..2][..1]) == Some(s1);
    var s2 := Apply(s1, Update(p));
    assert Run(s, steps[..2]) == Some(s2);
    assert Apply(s2, Get(p)).procs == s.procs;
  }

  lemma {:induction false} RunConcat(s: State, a: seq<Step>, b: seq<Step>)
    requires Run(s, a).Some?
    ensures Run(s, a + b) == Run(Run(s, a).value, b)
    ensures Work(a + b) == Work(a) + Work(b)
    decreases |b|
  {
    if b == [] {
      assert a + b == a;
    } else {
      assert (a + b)[..|a + b| - 1] == a + b[..|b| - 1];
      RunConcat(s, a, b[..|b| - 1]);
    }
  }

  lemma LoopWork(p: nat, token: string)
    ensures Work([Check(p, token), Update(p), Get(p)]) == 3
  {
    var steps := [Check(p, token), Update(p), Get(p)];
    assert steps[..2] == [Check(p, token), Update(p)];
    assert steps[..2][..1] == [Check(p, token)];
    assert steps[..2][..1][..0] == [];
    assert Work([Check(p, token)]) == 1;
    assert Work(steps[..2]) == 2;
  }

  /** The first process gets to the check of the loop. */
  lemma FirstCheck(start: State) returns (steps: seq<Step>)
    requires Initial(start) && start.procs != [] && start.row.Some?
    ensures Run(start, steps) == Some(start.At(0, Checking(start.row.value, start.today + 1)))
  {
    steps := [GetOrCreate(0, "a"), SetDate(0)];
    assert steps[..1] == [GetOrCreate(0, "a")];
    assert steps[..1][..0] == [];
    var s1 := start.At(0, Loaded(start.row.value));
    assert Run(start, steps[..1]) == Some(s1);
    assert Apply(s1, SetDate(0)).procs == start.procs[0 := Checking(start.row.value, start.today + 1)];
  }

  /** From an empty string the first process can go round in the loop any number of times, all on the first day. */
  lemma {:induction false} LoopRun(start: State, n: nat) returns (steps: seq<Step>)
    requires Initial(start) && start.procs != [] && start.row.Some? && start.row.value.token == Some("")
    ensures Run(start, steps) == Some(start.At(0, Checking(start.row.value, start.today + 1))) && Work(steps) >= 3 * n
    decreases n
  {
    hide Run, Initial;
    if n == 0 {
      steps := FirstCheck(start);
    } else {
      var before := LoopRun(start, n - 1);
      var s := start.At(0, Checking(start.row.value, start.today + 1));
      var round := [Check(0, "a"), Update(0), Get(0)];
      EmptyTokenLoops(s, 0, "a");
      LoopWork(0, "a");
      RunConcat(start, before, round);
      steps := before + round;
    }
  }

  /** No run within the time takes more steps. */
  ghost predicate WorkBoundedBy(start: State, bound: nat) {
    forall steps :: Run(start, steps).Some? && InTime(start, Run(start, steps).value) ==> Work(steps) <= bound
  }

  /** The work of all interleavings has a bound exactly when the token at the start is not the empty string. */
  lemma EndsExactly(start: State)
    requires Initial(start) && start.procs != []
    ensures (exists bound :: WorkBoundedBy(start, bound)) <==>
            !(start.row.Some? && start.row.value.token == Some(""))
  {
    if start.row.Some? && start.row.value.token == Some("") {
      forall bound: nat ensures !WorkBoundedBy(start, bound) {
        var steps := LoopRun(start, bound + 1);
      }
    } else {
      forall steps | Run(start, steps).Some? && InTime(start, Run(start, steps).value)
        ensures Work(steps) <= 6 * |start.procs|
      {
        RunsEnd(start, steps);
      }
      assert WorkBoundedBy(start, 6 * |start.procs|);
    }
  }
}
