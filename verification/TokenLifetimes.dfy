/**
 * ReservedUser over any time: processes call loadusertoken again and again with the token they hold, enable
 * a disabled token, and may be slow. The token of the row is renewed only when it is about to expire.
 */
module TokenLifetimes {
  import opened Wrappers
  import opened TokenRenewal

  /** A step of the loop; enabling the token after the loop; or the next call with the token that is held. */
  datatype Action = LoopStep(step: Step) | Enable(p: nat) | Again(p: nat)

  /** The expiry date of every token that has been generated or was there at the start. */
  type Issued = map<string, Option<int>>

  datatype Life = Life(state: State, issued: Issued)

  /** Generated tokens are new. */
  predicate IsNew(l: Life, step: Step) {
    match step
    case GetOrCreate(_, token) => token !in l.issued
    case Check(_, token) => token !in l.issued
    case _ => true
  }

  predicate CanAct(l: Life, a: Action) {
    match a
    case LoopStep(step) => Enabled(l.state, step) && IsNew(l, step)
    case Enable(p) => p < |l.state.procs| && l.state.procs[p].Done? && !l.state.procs[p].usertoken.enabled
    case Again(p) => p < |l.state.procs| && l.state.procs[p].Done? && l.state.procs[p].usertoken.enabled
  }

  function IssuedBy(l: Life, step: Step): Issued {
    match step
    case GetOrCreate(_, token) => l.issued[token := Some(l.state.today + LIFETIME)]
    case Check(_, token) => l.issued[token := Some(l.state.today + LIFETIME)]
    case _ => l.issued
  }

  function Act(l: Life, a: Action): Life
    requires CanAct(l, a)
  {
    match a
    case LoopStep(step) => Life(Apply(l.state, step), IssuedBy(l, step))
    case Enable(p) =>
      var s, phase := l.state, l.state.procs[p];
      var row := if s.row.Some? then Some(s.row.value.(enabled := true)) else None;
      l.(state := s.(row := row).At(p, Done(phase.usertoken.(enabled := true), phase.renewdate)))
    case Again(p) => l.(state := l.state.At(p, Loaded(l.state.procs[p].usertoken)))
  }

  function RunOf(l: Life, actions: seq<Action>): Option<Life> {
    if actions == [] then Some(l)
    else
      var before := RunOf(l, actions[..|actions| - 1]);
      var a := actions[|actions| - 1];
      if before.Some? && CanAct(before.value, a) then Some(Act(before.value, a)) else None
  }

  // ----- What every reachable state keeps -----

  predicate IsStart(l: Life) {
    && Initial(l.state)
    && l.issued == if l.state.row.Some? && HasToken(l.state.row.value)
                   then map[l.state.row.value.token.value := l.state.row.value.expired] else map[]
  }

  /**
   * The token is one that was issued with this expiry date; an empty string is only held while it is in the
   * row, and an enabled token only when the row is enabled.
   */
  predicate Known(l: Life, t: UserToken) {
    && l.state.row.Some?
    && (HasToken(t) ==> t.token.value in l.issued && l.issued[t.token.value] == t.expired)
    && (t.token == Some("") ==> l.state.row.value.token == Some(""))
    && (t.enabled ==> l.state.row.value.enabled)
  }

  /** The process is about to replace a token that expires by its renewal date, with one good for a lifetime. */
  predicate Renews(l: Life, current: Option<string>, t: UserToken, d: int) {
    && HasToken(t) && Known(l, t) && t.expired.Some?
    && d - 1 + LIFETIME <= t.expired.value <= l.state.today + LIFETIME
    && (current.Some? && current.value != "" ==>
          && current.value in l.issued && l.issued[current.value].Some?
          && l.issued[current.value].value <= d)
    && (current == Some("") ==> l.state.row.value.token == Some(""))
  }

  predicate PhaseKnown(start: State, l: Life, phase: Phase) {
    match phase
    case Start => true
    case Loaded(t) => Known(l, t)
    case Checking(t, d) => Known(l, t) && start.today < d <= l.state.today + 1
    case Renewing(current, t, d) => Renews(l, current, t, d) && start.today < d <= l.state.today + 1
    case Refetching(d) => start.today < d <= l.state.today + 1
    case Done(t, d) => Known(l, t) && HasToken(t) && t.expired.Some? && t.expired.value > d
    case Failed => true
  }

  /** After `writes` renewals the token of the row is good for this long, counted from the start. */
  predicate RowKnown(start: State, l: Life) {
    && start.today <= l.state.today
    && (l.state.row.Some? ==> Known(l, l.state.row.value))
    && (l.state.writes > 0 ==>
          && l.state.row.Some? && HasToken(l.state.row.value) && l.state.row.value.expired.Some?
          && start.today + LIFETIME + (LIFETIME - 1) * (l.state.writes - 1) <= l.state.row.value.expired.value
          && l.state.row.value.expired.value <= l.state.today + LIFETIME)
  }

  predicate LifeInvariant(start: State, l: Life) {
    && RowKnown(start, l)
    && forall p :: 0 <= p < |l.state.procs| ==> PhaseKnown(start, l, l.state.procs[p])
  }

  /** What is known of a phase stays known when another process steps. */
  lemma PhaseStays(start: State, l: Life, step: Step, phase: Phase)
    requires RowKnown(start, l) && Enabled(l.state, step) && IsNew(l, step) && PhaseKnown(start, l, phase)
    requires !step.NextDay? ==> PhaseKnown(start, l, l.state.procs[step.p])
    ensures PhaseKnown(start, Act(l, LoopStep(step)), phase)
  {
  }

  lemma RowStays(start: State, l: Life, step: Step)
    requires RowKnown(start, l) && Enabled(l.state, step) && IsNew(l, step)
    requires !step.NextDay? ==> PhaseKnown(start, l, l.state.procs[step.p])
    ensures RowKnown(start, Act(l, LoopStep(step)))
  {
  }

  lemma PhaseSteps(start: State, l: Life, step: Step)
    requires RowKnown(start, l) && Enabled(l.state, step) && IsNew(l, step) && !step.NextDay?
    requires PhaseKnown(start, l, l.state.procs[step.p])
    ensures PhaseKnown(start, Act(l, LoopStep(step)), Act(l, LoopStep(step)).state.procs[step.p])
  {
  }

  lemma LoopKeeps(start: State, l: Life, step: Step)
    requires LifeInvariant(start, l) && Enabled(l.state, step) && IsNew(l, step)
    ensures LifeInvariant(start, Act(l, LoopStep(step)))
  {
    var l' := Act(l, LoopStep(step));
    if !step.NextDay? {
      PhaseSteps(start, l, step);
    }
    RowStays(start, l, step);
    hide PhaseKnown, RowKnown;
    forall p | 0 <= p < |l'.state.procs| ensures PhaseKnown(start, l', l'.state.procs[p]) {
      if step.NextDay? || p != step.p {
        PhaseStays(start, l, step, l.state.procs[p]);
      }
    }
  }

  lemma ActionKeeps(start: State, l: Life, a: Action)
    requires LifeInvariant(start, l) && CanAct(l, a)
    ensures LifeInvariant(start, Act(l, a))
  {
    if a.LoopStep? {
      LoopKeeps(start, l, a.step);
    } else {
      var l' := Act(l, a);
      forall p | 0 <= p < |l'.state.procs| ensures PhaseKnown(start, l', l'.state.procs[p]) {
        assert PhaseKnown(start, l, l.state.procs[p]);
      }
    }
  }

  lemma {:induction false} LifeKeeps(l: Life, actions: seq<Action>)
    requires IsStart(l) && RunOf(l, actions).Some?
    ensures LifeInvariant(l.state, RunOf(l, actions).value)
    decreases |actions|
  {
    if actions != [] {
      LifeKeeps(l, actions[..|actions| - 1]);
      ActionKeeps(l.state, RunOf(l, actions[..|actions| - 1]).value, actions[|actions| - 1]);
    }
  }

  // ----- What follows for any time -----

  /**
   * However long the processes run and however slow they are: renewals are a lifetime less a day apart on
   * the average, and a process that has left the loop holds a token that was issued and is good beyond its
   * renewal date.
   */
  lemma WritesBounded(l: Life, actions: seq<Action>)
    requires IsStart(l) && RunOf(l, actions).Some?
    ensures var s := RunOf(l, actions).value.state;
            && (LIFETIME - 1) * (s.writes - 1) <= s.today - l.state.today
            && forall p :: 0 <= p < |s.procs| && s.procs[p].Done? ==>
                 var t := s.procs[p].usertoken;
                 HasToken(t) && t.expired.Some? && t.expired.value > s.procs[p].renewdate
  {
    LifeKeeps(l, actions);
    var end := RunOf(l, actions).value;
    forall p | 0 <= p < |end.state.procs| && end.state.procs[p].Done?
      ensures PhaseKnown(l.state, end, end.state.procs[p])
    {
    }
  }

  /** An update never replaces a token that is good for more than a day. */
  lemma OnlyExpiringReplaced(l: Life, actions: seq<Action>, p: nat)
    requires IsStart(l) && RunOf(l, actions).Some?
    requires var s := RunOf(l, actions).value.state;
             Enabled(s, Update(p)) && UpdateMatches(s.row, s.procs[p].current)
    ensures var s := RunOf(l, actions).value.state;
            && s.row.Some?
            && (HasToken(s.row.value) ==> s.row.value.expired.Some? && s.row.value.expired.value <= s.today + 1)
            && s.procs[p].usertoken.token != s.row.value.token
  {
    LifeKeeps(l, actions);
    var end := RunOf(l, actions).value;
    assert PhaseKnown(l.state, end, end.state.procs[p]);
  }

  /** When a call has ended the token of the row is enabled. */
  lemma EndedIsEnabled(l: Life, actions: seq<Action>, p: nat)
    requires IsStart(l) && RunOf(l, actions).Some? && CanAct(RunOf(l, actions).value, Again(p))
    ensures RunOf(l, actions).value.state.row.Some? && RunOf(l, actions).value.state.row.value.enabled
  {
    LifeKeeps(l, actions);
    var end := RunOf(l, actions).value;
    assert PhaseKnown(l.state, end, end.state.procs[p]);
  }
}
