/**
 * _MemoryCacheWithTrafficMonitor: calls are counted in memory and flushed to redis when their window of
 * time has ended.
 */
module TrafficCounters {
  import opened Times
  import opened Totals
  import opened TrafficProgress
  import opened TrafficRecords
  import opened TrafficWindows
  import opened Wrappers

  /** A record list that was pushed to redis, with its window. */
  datatype Payload = Payload(startTime: int, endTime: int, data: Data)

  // ----- Sums over payloads and calls -----

  ghost function Sent(payloads: seq<Payload>, c: Counter): int {
    Total(payloads, (p: Payload) => Read(p.data, c) as int)
  }

  /** How many of the calls the counter counts. */
  ghost function Counted(calls: seq<Call>, c: Counter): int {
    Total(calls, (call: Call) => if Hits(call.entry, c) then 1 else 0)
  }

  lemma SentAppend(payloads: seq<Payload>, p: Payload, c: Counter)
    ensures Sent(payloads + [p], c) == Sent(payloads, c) + Read(p.data, c)
  {
    TotalConcat(payloads, [p], (p: Payload) => Read(p.data, c) as int);
    TotalOne(p, (p: Payload) => Read(p.data, c) as int);
  }

  lemma CountedConcat(a: seq<Call>, b: seq<Call>, c: Counter)
    ensures Counted(a + b, c) == Counted(a, c) + Counted(b, c)
  {
    TotalConcat(a, b, (call: Call) => if Hits(call.entry, c) then 1 else 0);
  }

  lemma CountedOne(call: Call, c: Counter)
    ensures Counted([call], c) == if Hits(call.entry, c) then 1 else 0
  {
    TotalOne(call, (call: Call) => if Hits(call.entry, c) then 1 else 0);
  }

  lemma {:induction false} CountedNatural(calls: seq<Call>, c: Counter)
    ensures Counted(calls, c) >= 0
  {
    if calls != [] {
      CountedNatural(calls[..|calls| - 1], c);
    }
  }

  lemma FlushedAppend(flushes: seq<Flush>, f: Flush, c: Counter)
    ensures Counted(FlushedCalls(flushes + [f]), c) == Counted(FlushedCalls(flushes), c) + Counted(f.calls, c)
  {
    assert (flushes + [f])[..|flushes|] == flushes;
    CountedConcat(FlushedCalls(flushes), f.calls, c);
  }

  /** Flushed calls are in redis or lost. */
  lemma {:induction false} FlushedOrLost(flushes: seq<Flush>, c: Counter)
    ensures Counted(FlushedCalls(flushes), c) ==
            Counted(FlushedCalls(Outcomes(flushes, true)), c) + Counted(FlushedCalls(Outcomes(flushes, false)), c)
    decreases |flushes|
  {
    if flushes == [] {
      CountedConcat([], [], c);
    } else {
      hide Counted, FlushedCalls, Outcomes;
      var front, last := flushes[..|flushes| - 1], flushes[|flushes| - 1];
      assert flushes == front + [last];
      FlushedOrLost(front, c);
      FlushedAppend(front, last, c);
      OutcomesAppend(front, last, true);
      OutcomesAppend(front, last, false);
      FlushedAppend(Outcomes(front, last.pushed), last, c);
    }
  }

  class TrafficMonitor {
    const interval: nat
    /** The levels of the web requests and of the requests to redis and the database. */
    const level: Level
    const redisLevel: Level
    const dbLevel: Level
    /** None before the first call. */
    var data: Option<Data>
    var ts: int
    var nextTs: int
    /** The list in redis. */
    var pushed: seq<Payload>
    /** The flushes so far, and the calls that are counted in memory. */
    ghost var flushes: seq<Flush>
    ghost var held: seq<Call>

    function LevelOf(name: Name): Level {
      if name == "Redis" then redisLevel else if name == "DB" then dbLevel else level
    }

    lemma LevelsOf(name: Name)
      ensures LevelOf("Redis") == redisLevel && LevelOf("DB") == dbLevel
      ensures name != "Redis" && name != "DB" ==> LevelOf(name) == level
    {
    }

    function Memory(): Data
      reads this`data
    {
      if data.Some? then data.value else map[]
    }

    ghost function Progress(): Progress
      reads this`nextTs, this`flushes, this`held
    {
      TrafficProgress.Progress(nextTs, flushes, held)
    }

    ghost predicate BalancedData(d: Data) {
      forall name :: name in d ==> Balanced(LevelOf(name), d[name])
    }

    /** Every counter of the data is the number of the calls that it counts. */
    ghost predicate Counts(d: Data, calls: seq<Call>) {
      forall c: Counter :: Kept(LevelOf(c.name), c) ==> Read(d, c) == Counted(calls, c)
    }

    /** Every payload is of one window within a day, has traffic, and its numbers add up. */
    ghost predicate ValidPayload(p: Payload)
      requires interval > 0
    {
      && OnGrid(p.startTime, interval) && p.endTime == p.startTime + interval * SECOND
      && p.startTime / DAY == (p.endTime - 1) / DAY
      && HasTrafficData(p.data) && BalancedData(p.data)
    }

    /** The payload holds exactly the calls of the flush, with the end of its window. */
    ghost predicate Carries(p: Payload, f: Flush)
      requires interval > 0
    {
      ValidPayload(p) && p.endTime == f.endTime && Counts(p.data, f.calls)
    }

    ghost predicate InRedis()
      requires interval > 0
      reads this
    {
      var sent := Outcomes(flushes, true);
      |pushed| == |sent| && forall i :: 0 <= i < |pushed| ==> Carries(pushed[i], sent[i])
    }

    /** Memory and the list in redis hold exactly the calls of the progress. */
    ghost predicate Valid()
      reads this
    {
      && ValidInterval(interval)
      && OnGrid(ts, interval) && nextTs == ts + interval * SECOND
      && BalancedData(Memory()) && Counts(Memory(), held)
      && InRedis()
    }

    /** There is something to flush exactly when calls are in memory. */
    lemma TrafficIsHeld()
      requires Valid()
      ensures HasTrafficData(Memory()) <==> held != []
    {
      if held != [] {
        var front, last := held[..|held| - 1], held[|held| - 1];
        var c := OfName(last.entry.name);
        assert held == front + [last];
        CountedConcat(front, [last], c);
        CountedOne(last, c);
        CountedNatural(front, c);
        assert Read(Memory(), c) > 0;
      }
      if name :| name in Memory() && Memory()[name].requests > 0 {
        assert Read(Memory(), OfName(name)) == Counted(held, OfName(name));
      }
    }

    constructor (now: int, interval: nat, level: Level, redisLevel: Level, dbLevel: Level)
      requires ValidInterval(interval)
      ensures Valid()
      ensures this.interval == interval && pushed == [] && flushes == [] && held == []
      ensures ts <= now < nextTs
    {
      this.interval, this.level, this.redisLevel, this.dbLevel := interval, level, redisLevel, dbLevel;
      data := None;
      ts := FirstWindow(now, interval);
      nextTs := FirstWindow(now, interval) + interval * SECOND;
      pushed, flushes, held := [], [], [];
      new;
      FirstWindowOnGrid(now, interval);
    }

    /** Adds a call to the counters of its name. */
    method Count(call: Call)
      requires Valid()
      modifies this`data, this`held
      ensures Valid() && held == old(held) + [call]
    {
      var e := call.entry;
      ghost var before := Memory();
      var level := LevelOf(e.name);
      if data.None? {
        data := Some(map[e.name := NewRecord(level, e)]);
      } else if e.name !in data.value {
        data := Some(data.value[e.name := NewRecord(level, e)]);
      } else {
        data := Some(data.value[e.name := AddToRecord(level, data.value[e.name], e)]);
      }
      held := held + [call];
      NewRecordAdds(level, e);
      ghost var r := if e.name in before then before[e.name] else EMPTY;
      AddToRecordBalanced(level, r, e);
      CountedOnce(before, call, old(held));
    }

    lemma CountedOnce(before: Data, call: Call, earlier: seq<Call>)
      requires var e := call.entry;
               var level := LevelOf(e.name); var r := if e.name in before then before[e.name] else EMPTY;
               Shaped(level, r) && Memory() == before[e.name := AddToRecord(level, r, e)]
      requires Counts(before, earlier)
      ensures Counts(Memory(), earlier + [call])
    {
      var e := call.entry;
      forall c: Counter | Kept(LevelOf(c.name), c) ensures Read(Memory(), c) == Counted(earlier + [call], c) {
        CountedConcat(earlier, [call], c);
        CountedOne(call, c);
        if e.name == c.name {
          AddToRecordReads(LevelOf(e.name), if e.name in before then before[e.name] else EMPTY, e, c);
        }
      }
    }

    /** The records become a payload, which is pushed or lost, and the counters restart from 0. */
    method Take(push: Push)
      requires Valid() && data.Some? && HasTrafficData(data.value)
      modifies this`data, this`pushed, this`flushes, this`held
      ensures Valid() && Progress() == Taken(old(Progress()), push)
      ensures pushed == old(pushed) + if push.succeeds then [Payload(ts, nextTs, old(Memory()))] else []
    {
      hide Balanced, Total, HasTrafficData;
      var p := Payload(ts, nextTs, data.value);
      ghost var f := Flush(nextTs, held, push.succeeds);
      data := Some(Cleaned(data.value));
      if push.succeeds {
        pushed := pushed + [p];
      }
      flushes, held := flushes + [f], [];
      CleanedValid(p);
      CleanedCounts(p.data);
      OutcomesAppend(old(flushes), f, true);
    }

    lemma CleanedCounts(d: Data)
      ensures Counts(Cleaned(d), [])
    {
      forall c: Counter ensures Read(Cleaned(d), c) == Counted([], c) {
        CleanedReads(d, c);
      }
    }

    lemma CleanedValid(p: Payload)
      requires ValidInterval(interval) && OnGrid(p.startTime, interval) && p.endTime == p.startTime + interval * SECOND
      requires HasTrafficData(p.data) && BalancedData(p.data)
      ensures ValidPayload(p) && BalancedData(Cleaned(p.data))
    {
      WindowInDay(p.startTime, interval);
      forall name | name in p.data ensures Balanced(LevelOf(name), Cleaned(p.data)[name]) {
        CleanedBalanced(LevelOf(name), p.data[name]);
      }
    }

    /** _save_traffic_data */
    method SaveTrafficData(push: Push) returns (saved: bool)
      requires Valid()
      modifies this
      ensures Valid() && Progress() == AfterFlush(old(Progress()), push, interval)
      ensures saved <==> HasTrafficData(old(Memory()))
      ensures !saved ==> unchanged(this)
      ensures var flushed := saved && push.succeeds;
              old(pushed) + (if flushed then [Payload(old(ts), old(nextTs), old(Memory()))] else []) <= pushed
      decreases push, |push.nested| + 1
    {
      TrafficIsHeld();
      if data.None? || !HasTrafficData(data.value) {
        return false;
      }
      Take(push);
      ghost var taken, first := Progress(), pushed;
      for i := 0 to |push.nested|
        invariant Valid() && Progress() == AfterNested(taken, push, i, interval)
        invariant first <= pushed
      {
        LogRequest(push.nested[i]);
      }
      saved := true;
    }

    /** _log_request_1, _log_request_2 and _log_request_3: flushes when the window has ended, then counts the call. */
    method LogRequest(call: Call)
      requires Valid()
      modifies this
      ensures Valid() && Progress() == AfterCall(old(Progress()), call, interval)
      ensures if call.start < old(nextTs) then ts == old(ts) && nextTs == old(nextTs) && pushed == old(pushed)
              else ts <= call.start < nextTs
      ensures var flushed := call.start >= old(nextTs) && HasTrafficData(old(Memory())) && call.push.succeeds;
              old(pushed) + (if flushed then [Payload(old(ts), old(nextTs), old(Memory()))] else []) <= pushed
      decreases call, 0
    {
      if call.start >= nextTs {
        var _ := SaveTrafficData(call.push);
        MoveWindow(call.start);
      }
      Count(call);
    }

    /** The nested calls of a flush may have moved the window before, even past `start`. */
    method MoveWindow(start: int)
      requires Valid()
      modifies this`ts, this`nextTs
      ensures Valid() && nextTs == WindowEnd(old(nextTs), start, interval)
      ensures ts <= start < nextTs
    {
      NextOnGrid(ts, interval);
      WindowStartOnGrid(nextTs, start, interval);
      ts := WindowStart(nextTs, start, interval);
      nextTs := ts + interval * SECOND;
    }

    /**
     * A whole run: flushes and memory hold all calls that were made, each once and in their order, and every
     * payload in redis carries the calls of its flush.
     */
    method Serve(events: seq<Event>)
      requires Valid()
      modifies this
      ensures Valid() && Progress() == AfterEvents(old(Progress()), events, interval)
      ensures AllCalls(Progress()) == AllCalls(old(Progress())) + MadeBy(old(Progress()), events, interval)
      ensures (forall e :: e in events ==> EventSucceeds(e)) ==> Lost(Progress()) == Lost(old(Progress()))
      ensures old(pushed) <= pushed
    {
      ghost var start := Progress();
      for i := 0 to |events|
        invariant Valid() && Progress() == AfterEvents(start, events[..i], interval) && old(pushed) <= pushed
      {
        assert events[..i + 1][..i] == events[..i];
        match events[i]
        case LogEvent(call) => LogRequest(call);
        case FlushEvent(push) => var _ := SaveTrafficData(push);
      }
      assert events[..|events|] == events;
      EventsMade(start, events, interval);
      if forall e :: e in events ==> EventSucceeds(e) {
        EventsLoseNone(start, events, interval);
      }
    }

    /** Every counter has every call exactly once: in memory, in redis or in a flush that redis did not get. */
    lemma Conserved(c: Counter)
      requires Valid() && Kept(LevelOf(c.name), c)
      ensures Read(Memory(), c) + Sent(pushed, c) + Counted(FlushedCalls(Lost(Progress())), c) ==
              Counted(AllCalls(Progress()), c)
    {
      SentIsCounted(pushed, Outcomes(flushes, true), c);
      FlushedOrLost(flushes, c);
      CountedConcat(FlushedCalls(flushes), held, c);
    }

    lemma {:induction false} SentIsCounted(payloads: seq<Payload>, sent: seq<Flush>, c: Counter)
      requires interval > 0 && Kept(LevelOf(c.name), c) && |payloads| == |sent|
      requires forall i :: 0 <= i < |payloads| ==> Carries(payloads[i], sent[i])
      ensures Sent(payloads, c) == Counted(FlushedCalls(sent), c)
      decreases |payloads|
    {
      if payloads != [] {
        var n := |payloads| - 1;
        assert payloads == payloads[..n] + [payloads[n]] && sent == sent[..n] + [sent[n]];
        assert Read(payloads[n].data, c) == Counted(sent[n].calls, c) by { assert Carries(payloads[n], sent[n]); }
        hide Sent, FlushedCalls, Carries, Counted;
        SentIsCounted(payloads[..n], sent[..n], c);
        SentAppend(payloads[..n], payloads[n], c);
        FlushedAppend(sent[..n], sent[n], c);
      }
    }
  }
}
