/**
 * How the logged calls reach redis: which calls a flush takes, what calls are made while it runs, and which
 * window they are sent with.
 */
module TrafficProgress {
  import opened Arithmetic
  import opened Times
  import opened TrafficRecords
  import opened TrafficWindows

  /**
   * A call to one of the log methods. `push` is what happens if the call has to flush: redis may fail, and
   * the request to redis, or the database log of its failure, is itself logged by nested calls.
   */
  datatype Call = Call(entry: Entry, start: int, push: Push)

  datatype Push = Push(succeeds: bool, nested: seq<Call>)

  // ----- The calls of a run -----

  /** What happens to a monitor: a call is logged, or the counters are flushed on request or at exit. */
  datatype Event = LogEvent(call: Call) | FlushEvent(push: Push)

  /** The calls that one flush takes from memory, the end of their window, and whether redis gets them. */
  datatype Flush = Flush(endTime: int, calls: seq<Call>, pushed: bool)

  /** The end of the window, the flushes so far, and the calls that are in memory. */
  datatype Progress = Progress(nextTs: int, flushes: seq<Flush>, held: seq<Call>)

  function WindowEnd(next: int, start: int, interval: nat): int
    requires interval > 0
  {
    WindowStart(next, start, interval) + interval * SECOND
  }

  /** A call flushes when its window has ended, moves the window, and is then in memory itself. */
  function AfterCall(p: Progress, call: Call, interval: nat): Progress
    requires interval > 0
    decreases call, 0
  {
    var q := if call.start < p.nextTs then p
             else
               var f := AfterFlush(p, call.push, interval);
               f.(nextTs := WindowEnd(f.nextTs, call.start, interval));
    q.(held := q.held + [call])
  }

  function Taken(p: Progress, push: Push): Progress {
    Progress(p.nextTs, p.flushes + [Flush(p.nextTs, p.held, push.succeeds)], [])
  }

  /** A flush takes what is in memory, if there is anything, and logs the nested calls. */
  function AfterFlush(p: Progress, push: Push, interval: nat): Progress
    requires interval > 0
    decreases push, |push.nested| + 1
  {
    if p.held == [] then p else AfterNested(Taken(p, push), push, |push.nested|, interval)
  }

  /** After the first `n` nested calls. */
  function AfterNested(p: Progress, push: Push, n: nat, interval: nat): Progress
    requires interval > 0 && n <= |push.nested|
    decreases push, n
  {
    if n == 0 then p else AfterCall(AfterNested(p, push, n - 1, interval), push.nested[n - 1], interval)
  }

  function AfterEvents(p: Progress, events: seq<Event>, interval: nat): Progress
    requires interval > 0
  {
    if events == [] then p
    else
      var before := AfterEvents(p, events[..|events| - 1], interval);
      match events[|events| - 1]
      case LogEvent(call) => AfterCall(before, call, interval)
      case FlushEvent(push) => AfterFlush(before, push, interval)
  }

  // ----- Every call is in one flush or in memory -----

  ghost function FlushedCalls(flushes: seq<Flush>): seq<Call> {
    if flushes == [] then [] else FlushedCalls(flushes[..|flushes| - 1]) + flushes[|flushes| - 1].calls
  }

  /** All calls, flush by flush, and then those in memory. */
  ghost function AllCalls(p: Progress): seq<Call> {
    FlushedCalls(p.flushes) + p.held
  }

  /** The calls that are made when a call is logged: the nested ones of its flush, and then the call itself. */
  ghost function Made(p: Progress, call: Call, interval: nat): seq<Call>
    requires interval > 0
    decreases call, 0
  {
    (if call.start < p.nextTs then [] else MadeByFlush(p, call.push, interval)) + [call]
  }

  ghost function MadeByFlush(p: Progress, push: Push, interval: nat): seq<Call>
    requires interval > 0
    decreases push, |push.nested| + 1
  {
    if p.held == [] then [] else MadeByNested(Taken(p, push), push, |push.nested|, interval)
  }

  ghost function MadeByNested(p: Progress, push: Push, n: nat, interval: nat): seq<Call>
    requires interval > 0 && n <= |push.nested|
    decreases push, n
  {
    if n == 0 then []
    else
      MadeByNested(p, push, n - 1, interval) +
      Made(AfterNested(p, push, n - 1, interval), push.nested[n - 1], interval)
  }

  ghost function MadeBy(p: Progress, events: seq<Event>, interval: nat): seq<Call>
    requires interval > 0
  {
    if events == [] then []
    else
      var front := events[..|events| - 1];
      var before := AfterEvents(p, front, interval);
      MadeBy(p, front, interval) +
      match events[|events| - 1]
      case LogEvent(call) => Made(before, call, interval)
      case FlushEvent(push) => MadeByFlush(before, push, interval)
  }

  lemma TakenCalls(p: Progress, push: Push)
    ensures AllCalls(Taken(p, push)) == AllCalls(p)
  {
    assert Taken(p, push).flushes[..|p.flushes|] == p.flushes;
  }

  lemma {:induction false} CallMade(p: Progress, call: Call, interval: nat)
    requires interval > 0
    ensures AllCalls(AfterCall(p, call, interval)) == AllCalls(p) + Made(p, call, interval)
    decreases call, 0
  {
    if call.start >= p.nextTs {
      FlushMade(p, call.push, interval);
    }
    hide FlushedCalls, AfterFlush, MadeByFlush;
    var q, made := if call.start < p.nextTs then p else AfterFlush(p, call.push, interval),
                   if call.start < p.nextTs then [] else MadeByFlush(p, call.push, interval);
    assert AllCalls(q) == AllCalls(p) + made;
    assert AllCalls(AfterCall(p, call, interval)) == AllCalls(q) + [call];
  }

  lemma {:induction false} FlushMade(p: Progress, push: Push, interval: nat)
    requires interval > 0
    ensures AllCalls(AfterFlush(p, push, interval)) == AllCalls(p) + MadeByFlush(p, push, interval)
    decreases push, |push.nested| + 1
  {
    if p.held != [] {
      TakenCalls(p, push);
      NestedMade(Taken(p, push), push, |push.nested|, interval);
    }
  }

  lemma {:induction false} NestedMade(p: Progress, push: Push, n: nat, interval: nat)
    requires interval > 0 && n <= |push.nested|
    ensures AllCalls(AfterNested(p, push, n, interval)) == AllCalls(p) + MadeByNested(p, push, n, interval)
    decreases push, n
  {
    hide AllCalls;
    if n > 0 {
      NestedMade(p, push, n - 1, interval);
      CallMade(AfterNested(p, push, n - 1, interval), push.nested[n - 1], interval);
    }
  }

  /** Flushes and memory together hold exactly the calls that were made, each once and in their order. */
  lemma {:induction false} EventsMade(p: Progress, events: seq<Event>, interval: nat)
    requires interval > 0
    ensures AllCalls(AfterEvents(p, events, interval)) == AllCalls(p) + MadeBy(p, events, interval)
  {
    hide AllCalls, AfterCall, AfterFlush, Made, MadeByFlush;
    if events != [] {
      var front := events[..|events| - 1];
      var before := AfterEvents(p, front, interval);
      EventsMade(p, front, interval);
      match events[|events| - 1]
      case LogEvent(call) => CallMade(before, call, interval);
      case FlushEvent(push) => FlushMade(before, push, interval);
    }
  }

  /** The calls of the events themselves. */
  function CallsOf(events: seq<Event>): seq<Call> {
    if events == [] then []
    else
      CallsOf(events[..|events| - 1]) +
      match events[|events| - 1]
      case LogEvent(call) => [call]
      case FlushEvent(_) => []
  }

  predicate HasNested(e: Event) {
    (if e.LogEvent? then e.call.push else e.push).nested != []
  }

  /** When redis logs nothing itself, these are the calls of the events. */
  lemma {:induction false} MadeWithoutNested(p: Progress, events: seq<Event>, interval: nat)
    requires interval > 0 && forall e :: e in events ==> !HasNested(e)
    ensures MadeBy(p, events, interval) == CallsOf(events)
  {
    if events != [] {
      var front, last := events[..|events| - 1], events[|events| - 1];
      MadeWithoutNested(p, front, interval);
      assert last in events;
      NothingNested(AfterEvents(p, front, interval), if last.LogEvent? then last.call.push else last.push, interval);
      hide AfterEvents, MadeByFlush;
    }
  }

  lemma NothingNested(p: Progress, push: Push, interval: nat)
    requires interval > 0 && push.nested == []
    ensures MadeByFlush(p, push, interval) == []
  {
  }

  /** The call and all that is nested in it. */
  ghost function Tree(call: Call): seq<Call>
    decreases call, 0
  {
    Branches(call.push, |call.push.nested|) + [call]
  }

  ghost function Branches(push: Push, n: nat): seq<Call>
    requires n <= |push.nested|
    decreases push, n
  {
    if n == 0 then [] else Branches(push, n - 1) + Tree(push.nested[n - 1])
  }

  ghost function TreesOf(events: seq<Event>): seq<Call> {
    if events == [] then []
    else
      TreesOf(events[..|events| - 1]) +
      match events[|events| - 1]
      case LogEvent(call) => Tree(call)
      case FlushEvent(push) => Branches(push, |push.nested|)
  }

  lemma {:induction false} MadeInTree(p: Progress, call: Call, interval: nat)
    requires interval > 0
    ensures multiset(Made(p, call, interval)) <= multiset(Tree(call))
    decreases call, 0
  {
    FlushInTree(p, call.push, interval);
    hide MadeByFlush, Branches;
  }

  lemma {:induction false} FlushInTree(p: Progress, push: Push, interval: nat)
    requires interval > 0
    ensures multiset(MadeByFlush(p, push, interval)) <= multiset(Branches(push, |push.nested|))
    decreases push, |push.nested| + 1
  {
    if p.held != [] {
      NestedInTree(Taken(p, push), push, |push.nested|, interval);
    }
  }

  lemma {:induction false} NestedInTree(p: Progress, push: Push, n: nat, interval: nat)
    requires interval > 0 && n <= |push.nested|
    ensures multiset(MadeByNested(p, push, n, interval)) <= multiset(Branches(push, n))
    decreases push, n
  {
    hide Made, Tree, AfterNested;
    if n > 0 {
      NestedInTree(p, push, n - 1, interval);
      MadeInTree(AfterNested(p, push, n - 1, interval), push.nested[n - 1], interval);
    }
  }

  /** The calls of the events are all made, and beyond those at most what is nested in them, nothing twice. */
  lemma {:induction false} MadeOnce(p: Progress, events: seq<Event>, interval: nat)
    requires interval > 0
    ensures multiset(CallsOf(events)) <= multiset(MadeBy(p, events, interval)) <= multiset(TreesOf(events))
  {
    if events != [] {
      var front, last := events[..|events| - 1], events[|events| - 1];
      var before := AfterEvents(p, front, interval);
      MadeOnce(p, front, interval);
      if last.LogEvent? {
        MadeInTree(before, last.call, interval);
      } else {
        FlushInTree(before, last.push, interval);
      }
      hide AfterEvents, MadeByFlush, Branches, Tree;
    }
  }

  // ----- What redis does not get -----

  /** The flushes that redis got, or did not get. */
  function Outcomes(flushes: seq<Flush>, pushed: bool): seq<Flush> {
    if flushes == [] then []
    else
      var last := flushes[|flushes| - 1];
      Outcomes(flushes[..|flushes| - 1], pushed) + if last.pushed == pushed then [last] else []
  }

  lemma OutcomesAppend(flushes: seq<Flush>, f: Flush, pushed: bool)
    ensures Outcomes(flushes + [f], pushed) ==
            if f.pushed == pushed then Outcomes(flushes, pushed) + [f] else Outcomes(flushes, pushed)
  {
    assert (flushes + [f])[..|flushes|] == flushes;
  }

  /** No push fails while the calls nested in it are logged. */
  ghost predicate Succeeds(p: Push) {
    p.succeeds && forall i :: 0 <= i < |p.nested| ==> Succeeds(p.nested[i].push)
  }

  ghost predicate EventSucceeds(e: Event) {
    Succeeds(if e.LogEvent? then e.call.push else e.push)
  }

  ghost function Lost(p: Progress): seq<Flush> {
    Outcomes(p.flushes, false)
  }

  lemma {:induction false} CallLosesNone(p: Progress, call: Call, interval: nat)
    requires interval > 0 && Succeeds(call.push)
    ensures Lost(AfterCall(p, call, interval)) == Lost(p)
    decreases call, 0
  {
    hide Outcomes, Succeeds;
    FlushLosesNone(p, call.push, interval);
  }

  lemma {:induction false} FlushLosesNone(p: Progress, push: Push, interval: nat)
    requires interval > 0 && Succeeds(push)
    ensures Lost(AfterFlush(p, push, interval)) == Lost(p)
    decreases push, |push.nested| + 1
  {
    hide Outcomes;
    if p.held != [] {
      OutcomesAppend(p.flushes, Flush(p.nextTs, p.held, true), false);
      NestedLosesNone(Taken(p, push), push, |push.nested|, interval);
    }
  }

  lemma {:induction false} NestedLosesNone(p: Progress, push: Push, n: nat, interval: nat)
    requires interval > 0 && n <= |push.nested| && Succeeds(push)
    ensures Lost(AfterNested(p, push, n, interval)) == Lost(p)
    decreases push, n
  {
    hide Lost;
    if n > 0 {
      NestedLosesNone(p, push, n - 1, interval);
      CallLosesNone(AfterNested(p, push, n - 1, interval), push.nested[n - 1], interval);
    }
  }

  /** Only failing pushes lose calls. */
  lemma {:induction false} EventsLoseNone(p: Progress, events: seq<Event>, interval: nat)
    requires interval > 0 && forall e :: e in events ==> EventSucceeds(e)
    ensures Lost(AfterEvents(p, events, interval)) == Lost(p)
  {
    hide Lost;
    if events != [] {
      var front, last := events[..|events| - 1], events[|events| - 1];
      EventsLoseNone(p, front, interval);
      assert last in events;
      match last
      case LogEvent(call) => CallLosesNone(AfterEvents(p, front, interval), call, interval);
      case FlushEvent(push) => FlushLosesNone(AfterEvents(p, front, interval), push, interval);
    }
  }

  // ----- The time of the calls in a flush -----

  ghost predicate InTime(f: Flush) {
    forall call :: call in f.calls ==> call.start < f.endTime
  }

  ghost predicate FlushedInTime(p: Progress) {
    forall f :: f in p.flushes ==> InTime(f)
  }

  /** The calls in memory started before the end of the window. */
  ghost predicate HeldInTime(p: Progress) {
    forall call :: call in p.held ==> call.start < p.nextTs
  }

  /**
   * The memory holds a call from after the window only when a call that flushed has moved the window back
   * behind a nested call.
   */
  lemma HeldInTimeExactly(p: Progress, call: Call, interval: nat)
    requires interval > 0
    ensures HeldInTime(AfterCall(p, call, interval)) <==>
            if call.start < p.nextTs then HeldInTime(p)
            else
              var q := AfterFlush(p, call.push, interval);
              forall h :: h in q.held ==> h.start < WindowEnd(q.nextTs, call.start, interval)
  {
    hide AfterFlush;
    var q := if call.start < p.nextTs then p else AfterFlush(p, call.push, interval);
    assert forall h :: h in AfterCall(p, call, interval).held <==> h in q.held || h == call;
  }

  /** All calls nested in the push, at any depth, start before the time. */
  ghost predicate AllBefore(push: Push, time: int) {
    forall i :: 0 <= i < |push.nested| ==> push.nested[i].start < time && AllBefore(push.nested[i].push, time)
  }

  /** What is nested in the call starts before its window ends, and the same for every nested call. */
  ghost predicate TidyCall(call: Call, interval: nat)
    requires interval > 0
  {
    AllBefore(call.push, WindowEnd(0, call.start, interval)) && Tidy(call.push, interval)
  }

  ghost predicate Tidy(push: Push, interval: nat)
    requires interval > 0
  {
    forall i :: 0 <= i < |push.nested| ==> TidyCall(push.nested[i], interval)
  }

  /** The window of a time is the same, from whichever window it is computed. */
  lemma SameWindow(next: int, start: int, interval: nat)
    requires interval > 0 && OnGrid(next, interval)
    ensures WindowEnd(next, start, interval) == WindowEnd(0, start, interval)
    ensures OnGrid(WindowEnd(next, start, interval), interval) && start < WindowEnd(next, start, interval)
  {
    WindowStartOnGrid(next, start, interval);
    NextOnGrid(WindowStart(next, start, interval), interval);
    var g := interval * SECOND;
    assert 0 == g * 0;
    MulDiv(g, 0);
    WindowStartOnGrid(0, start, interval);
    SameMultiple(WindowStart(next, start, interval), WindowStart(0, start, interval), start, g);
  }

  lemma SameMultiple(a: int, b: int, t: int, g: int)
    requires g > 0 && a % g == 0 && b % g == 0 && a <= t < a + g && b <= t < b + g
    ensures a == b
  {
    var i, j := a / g, b / g;
    assert a == g * i && b == g * j;
    assert g * (i - j) == g * i - g * j;
    MulSign(g, i - j);
  }

  /** The calls in memory start before the time. */
  ghost predicate HeldBefore(p: Progress, time: int) {
    forall call :: call in p.held ==> call.start < time
  }

  ghost predicate Punctual(p: Progress, interval: nat)
    requires interval > 0
  {
    OnGrid(p.nextTs, interval) && FlushedInTime(p) && HeldInTime(p)
  }

  lemma TakenPunctual(p: Progress, push: Push, interval: nat)
    requires interval > 0 && Punctual(p, interval)
    ensures Punctual(Taken(p, push), interval)
  {
    hide OnGrid;
  }

  lemma {:induction false} NestedBefore(p: Progress, push: Push, n: nat, time: int, interval: nat)
    requires interval > 0 && n <= |push.nested| && AllBefore(push, time) && HeldBefore(p, time)
    ensures HeldBefore(AfterNested(p, push, n, interval), time)
    decreases push, n
  {
    if n > 0 {
      NestedBefore(p, push, n - 1, time, interval);
      CallBefore(AfterNested(p, push, n - 1, interval), push.nested[n - 1], time, interval);
    }
  }

  lemma {:induction false} CallBefore(p: Progress, call: Call, time: int, interval: nat)
    requires interval > 0 && HeldBefore(p, time) && call.start < time && AllBefore(call.push, time)
    ensures HeldBefore(AfterCall(p, call, interval), time)
    decreases call, 0
  {
    hide AllBefore;
    if call.start >= p.nextTs && p.held != [] {
      NestedBefore(Taken(p, call.push), call.push, |call.push.nested|, time, interval);
    }
  }

  lemma {:induction false} NestedPunctual(p: Progress, push: Push, n: nat, interval: nat)
    requires interval > 0 && n <= |push.nested| && Tidy(push, interval) && Punctual(p, interval)
    ensures Punctual(AfterNested(p, push, n, interval), interval)
    decreases push, n
  {
    hide Punctual;
    if n > 0 {
      NestedPunctual(p, push, n - 1, interval);
      CallPunctual(AfterNested(p, push, n - 1, interval), push.nested[n - 1], interval);
    }
  }

  lemma {:induction false} CallPunctual(p: Progress, call: Call, interval: nat)
    requires interval > 0 && TidyCall(call, interval) && Punctual(p, interval)
    ensures Punctual(AfterCall(p, call, interval), interval)
    decreases call, 0
  {
    hide OnGrid, Tidy, AllBefore, WindowEnd;
    if call.start >= p.nextTs {
      FlushPunctual(p, call.push, interval);
      var end := WindowEnd(0, call.start, interval);
      if p.held != [] {
        NestedBefore(Taken(p, call.push), call.push, |call.push.nested|, end, interval);
      }
      SameWindow(AfterFlush(p, call.push, interval).nextTs, call.start, interval);
    }
  }

  lemma {:induction false} FlushPunctual(p: Progress, push: Push, interval: nat)
    requires interval > 0 && Tidy(push, interval) && Punctual(p, interval)
    ensures Punctual(AfterFlush(p, push, interval), interval)
    decreases push, |push.nested| + 1
  {
    hide Punctual, Tidy;
    if p.held != [] {
      TakenPunctual(p, push, interval);
      NestedPunctual(Taken(p, push), push, |push.nested|, interval);
    }
  }

  ghost predicate TidyEvent(e: Event, interval: nat)
    requires interval > 0
  {
    match e
    case LogEvent(call) => TidyCall(call, interval)
    case FlushEvent(push) => Tidy(push, interval)
  }

  /** When nothing is nested beyond the window of its call, every flush holds only calls from before its end. */
  lemma {:induction false} EventsPunctual(p: Progress, events: seq<Event>, interval: nat)
    requires interval > 0 && Punctual(p, interval) && forall e :: e in events ==> TidyEvent(e, interval)
    ensures Punctual(AfterEvents(p, events, interval), interval)
  {
    hide Punctual, Tidy, TidyCall;
    if events != [] {
      var front, last := events[..|events| - 1], events[|events| - 1];
      EventsPunctual(p, front, interval);
      assert last in events;
      var before := AfterEvents(p, front, interval);
      match last
      case LogEvent(call) => CallPunctual(before, call, interval);
      case FlushEvent(push) => FlushPunctual(before, push, interval);
    }
  }

  /**
   * Otherwise not: a call that flushes and has one call nested that starts after its own window leaves that
   * call in memory, and the next flush sends it with the earlier window.
   */
  lemma LateFlush(p: Progress, call: Call, nested: Call, push: Push, interval: nat)
    requires interval > 0 && OnGrid(p.nextTs, interval) && p.held != [] && call.start >= p.nextTs
    requires call.push.nested == [nested] && nested.start >= WindowEnd(0, call.start, interval)
    ensures var q := AfterFlush(AfterCall(p, call, interval), push.(nested := []), interval);
            var f := Flush(WindowEnd(0, call.start, interval), [nested, call], push.succeeds);
            q.flushes != [] && q.flushes[|q.flushes| - 1] == f && !InTime(f)
  {
    hide OnGrid, WindowEnd;
    var end := WindowEnd(0, call.start, interval);
    var t := Taken(p, call.push);
    SameWindow(p.nextTs, nested.start, interval);
    AfterFirst(t, nested, interval);
    var q := AfterCall(t, nested, interval);
    assert AfterFlush(p, call.push, interval) == q by { OneNested(t, call.push, interval); }
    SameWindow(q.nextTs, call.start, interval);
    assert AfterCall(p, call, interval) == Progress(end, t.flushes, [nested, call]);
    assert nested in [nested, call];
    NoneNested(Taken(AfterCall(p, call, interval), push), push.(nested := []), interval);
  }

  /** The first call after a flush does not flush. */
  lemma AfterFirst(p: Progress, call: Call, interval: nat)
    requires interval > 0 && p.held == []
    ensures AfterCall(p, call, interval) ==
            Progress(if call.start < p.nextTs then p.nextTs else WindowEnd(p.nextTs, call.start, interval),
                     p.flushes, [call])
  {
  }

  lemma NoneNested(p: Progress, push: Push, interval: nat)
    requires interval > 0 && push.nested == []
    ensures AfterNested(p, push, |push.nested|, interval) == p
  {
  }

  lemma OneNested(p: Progress, push: Push, interval: nat)
    requires interval > 0 && |push.nested| == 1
    ensures AfterNested(p, push, 1, interval) == AfterCall(p, push.nested[0], interval)
  {
    assert AfterNested(p, push, 0, interval) == p;
  }
}
