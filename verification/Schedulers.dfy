/**
 * IntervalTaskRunable and HourListTaskRunable: when a periodic task may run. Times are microseconds from
 * a local midnight, in a zone with a fixed offset.
 */
module Schedulers {
  import opened Arithmetic
  import opened Times
  import opened Wrappers

  /** `next` is the first slot after `dt`. */
  ghost predicate LeastAfter(slots: iset<int>, next: int, dt: int) {
    next in slots && next > dt && forall t :: t in slots && t > dt ==> next <= t
  }

  /** Some slot lies after `previous`, up to and including `dt`. */
  ghost predicate SlotBetween(slots: iset<int>, previous: int, dt: int) {
    exists t :: t in slots && previous < t <= dt
  }

  /** Moving on to a time before the next slot keeps it the next slot. */
  lemma LeastAfterLater(slots: iset<int>, next: int, previous: int, dt: int)
    requires LeastAfter(slots, next, previous) && previous <= dt
    ensures SlotBetween(slots, previous, dt) <==> next <= dt
    ensures next > dt ==> LeastAfter(slots, next, dt)
  {
    if next <= dt {
      assert next in slots && previous < next <= dt;
    }
  }

  // ----- Intervals -----

  /** The midnights and every multiple of the interval from them, for an interval that divides the day. */
  ghost function IntervalSlots(interval: nat): iset<int>
    requires interval > 0
  {
    iset t: int | t % (interval * SECOND) == 0
  }

  /** The seconds of the day at which the interval that follows `secondsInDay` starts. */
  function SecondsForNextRun(secondsInDay: nat, interval: nat): nat
    requires interval > 0
  {
    secondsInDay + (interval - secondsInDay % interval)
  }

  /** The first multiple of `g` after a time that lies in the `m`-th interval. */
  lemma LeastMultiple(g: int, m: int, dt: int, slots: iset<int>)
    requires g > 0 && g * (m - 1) <= dt < g * m && slots == iset t: int | t % g == 0
    ensures LeastAfter(slots, g * m, dt)
  {
    MulDiv(g, m);
    forall t | t in slots && t > dt ensures g * m <= t {
      MultiplesApart(g, m - 1, t);
    }
  }

  /** A day is a whole number of intervals, so the slots counted from midnight are the same every day. */
  lemma GridPoint(dt: int, interval: nat) returns (m: int)
    requires interval > 0 && 86400 % interval == 0
    ensures var today := dt / DAY * DAY;
            && today + SecondsForNextRun((dt - today) / SECOND, interval) * SECOND == interval * SECOND * m
            && interval * SECOND * (m - 1) <= dt < interval * SECOND * m
  {
    var a, b := dt / DAY, 86400 / interval;
    var s := (dt - a * DAY) / SECOND;
    m := a * b + s / interval + 1;
    SlotMultiple(interval, a, b, s / interval);
    SlotAround(dt - a * DAY, s, s / interval, s % interval, interval);
  }

  lemma SlotMultiple(interval: int, a: int, b: int, q: int)
    requires interval * b == 86400
    ensures interval * SECOND * (a * b + q + 1) == a * DAY + (interval * q + interval) * SECOND
    ensures interval * SECOND * (a * b + q) == a * DAY + interval * q * SECOND
  {
    assert interval * (a * b) == a * (interval * b);
    assert interval * (a * b + q) == a * 86400 + interval * q;
    assert interval * SECOND * (a * b + q) == SECOND * (interval * (a * b + q));
    assert interval * SECOND * (a * b + q + 1) == interval * SECOND * (a * b + q) + interval * SECOND;
  }

  lemma SlotAround(t: int, s: int, q: int, r: int, interval: int)
    requires s * SECOND <= t < (s + 1) * SECOND && s == interval * q + r && 0 <= r < interval
    ensures interval * q * SECOND <= t < (interval * q + interval) * SECOND
  {
  }

  lemma NextIntervalSlot(dt: int, interval: nat)
    requires interval > 0 && 86400 % interval == 0
    ensures var today := dt / DAY * DAY;
            LeastAfter(IntervalSlots(interval), today + SecondsForNextRun((dt - today) / SECOND, interval) * SECOND, dt)
  {
    var m := GridPoint(dt, interval);
    LeastMultiple(interval * SECOND, m, dt, IntervalSlots(interval));
  }

  class IntervalTaskRunable {
    const interval: nat
    var nextRuntime: Option<int>
    ghost var lastCall: int

    ghost predicate Valid()
      reads this
    {
      && interval > 0 && 86400 % interval == 0
      && (nextRuntime.Some? ==> LeastAfter(IntervalSlots(interval), nextRuntime.value, lastCall))
    }

    constructor (seconds: nat)
      requires seconds > 0 && 86400 % seconds == 0
      ensures Valid() && interval == seconds && nextRuntime == None
    {
      interval, nextRuntime := seconds, None;
    }

    method CanRun(dt: int) returns (r: bool)
      requires Valid() && (nextRuntime.Some? ==> lastCall <= dt)
      modifies this
      ensures Valid() && lastCall == dt && nextRuntime.Some?
      ensures LeastAfter(IntervalSlots(interval), nextRuntime.value, dt)
      ensures r <==> old(nextRuntime).Some? && SlotBetween(IntervalSlots(interval), old(lastCall), dt)
    {
      NextIntervalSlot(dt, interval);
      if nextRuntime.Some? {
        LeastAfterLater(IntervalSlots(interval), nextRuntime.value, lastCall, dt);
      }
      lastCall := dt;
      var today := dt / DAY * DAY;
      if nextRuntime.None? {
        nextRuntime := Some(today + SecondsForNextRun((dt - today) / SECOND, interval) * SECOND);
        return false;
      } else if nextRuntime.value > dt {
        return false;
      } else {
        nextRuntime := Some(today + SecondsForNextRun((dt - today) / SECOND, interval) * SECOND);
        return true;
      }
    }
  }

  // ----- Lists of hours -----

  /** The hours of a day, increasing. */
  predicate ValidHours(hours: seq<nat>) {
    hours != [] && hours[|hours| - 1] < 24 && forall i, j :: 0 <= i < j < |hours| ==> hours[i] < hours[j]
  }

  ghost function HourSlots(hours: seq<nat>): iset<int> {
    iset t: int | t % HOUR == 0 && (t / HOUR) % 24 in hours
  }

  function TimeDiff(hours: seq<nat>, i: nat): nat
    requires ValidHours(hours) && i < |hours|
  {
    if i == 0 then 24 - hours[|hours| - 1] + hours[0] else hours[i] - hours[i - 1]
  }

  function NextIndex(hours: seq<nat>, i: nat): nat {
    if i == |hours| - 1 then 0 else i + 1
  }

  /** In whole hours: adding the difference leads to the next listed hour, and no listed hour lies between. */
  lemma NextHour(hours: seq<nat>, i: nat, h: int)
    requires ValidHours(hours) && i < |hours| && h % 24 == hours[i]
    ensures var j := NextIndex(hours, i);
            var h' := h + TimeDiff(hours, j);
            h' > h && h' % 24 == hours[j] && forall x :: h < x < h' ==> x % 24 !in hours
  {
    var j := NextIndex(hours, i);
    var h' := h + TimeDiff(hours, j);
    var last := |hours| - 1;
    forall x | h < x < h' ensures x % 24 !in hours {
      forall k | 0 <= k < |hours| ensures hours[k] != x % 24 {
        assert hours[0] <= hours[k] <= hours[last];
        if i < last {
          assert x % 24 == hours[i] + (x - h);
          assert k <= i || k >= j;
        } else if x / 24 == h / 24 {
          assert x % 24 == hours[last] + (x - h);
        } else {
          assert x % 24 < hours[0];
        }
      }
    }
  }

  /** The same for slots: stepping from one slot by the difference of the next index skips none. */
  lemma NextHourSlot(hours: seq<nat>, i: nat, t: int)
    requires ValidHours(hours) && i < |hours| && t % HOUR == 0 && (t / HOUR) % 24 == hours[i]
    ensures var j := NextIndex(hours, i);
            var next := t + TimeDiff(hours, j) * HOUR;
            && next > t && next % HOUR == 0 && (next / HOUR) % 24 == hours[j]
            && forall u :: u in HourSlots(hours) && u < next ==> u <= t
  {
    var j := NextIndex(hours, i);
    var next := t + TimeDiff(hours, j) * HOUR;
    NextHour(hours, i, t / HOUR);
    assert next / HOUR == t / HOUR + TimeDiff(hours, j);
    forall u | u in HourSlots(hours) && u > t ensures next <= u {
      assert u / HOUR > t / HOUR;
      assert u / HOUR >= next / HOUR;
    }
  }

  class HourListTaskRunable {
    const hours: seq<nat>
    const timediffs: seq<nat>
    var index: nat
    var nextRuntime: Option<int>
    ghost var lastCall: int

    ghost predicate Valid()
      reads this
    {
      && ValidHours(hours)
      && |timediffs| == |hours| && (forall i :: 0 <= i < |hours| ==> timediffs[i] == TimeDiff(hours, i))
      && (nextRuntime.Some? ==> AtSlot(nextRuntime.value) && LeastAfter(HourSlots(hours), nextRuntime.value, lastCall))
    }

    /** `t` is the slot of the current index. */
    ghost predicate AtSlot(t: int)
      reads this
    {
      index < |hours| && t % HOUR == 0 && (t / HOUR) % 24 == hours[index]
    }

    constructor (hourList: seq<nat>)
      requires ValidHours(hourList)
      ensures Valid() && hours == hourList && nextRuntime == None
    {
      hours, nextRuntime, index := hourList, None, 0;
      var diffs: seq<nat> := [];
      if |hourList| == 1 {
        diffs := [24];
      } else {
        var i := 0;
        while i < |hourList|
          invariant |diffs| == i <= |hourList|
          invariant forall k :: 0 <= k < i ==> diffs[k] == TimeDiff(hourList, k)
        {
          if i == 0 {
            diffs := diffs + [24 - hourList[|hourList| - 1] + hourList[0]];
          } else {
            diffs := diffs + [hourList[i] - hourList[i - 1]];
          }
          i := i + 1;
        }
      }
      timediffs := diffs;
    }

    /** The catch-up loop: moves from slot to slot until the next one is in the future. */
    method CatchUp(start: int, dt: int) returns (next: int)
      requires ValidHours(hours)
      requires |timediffs| == |hours| && forall i :: 0 <= i < |hours| ==> timediffs[i] == TimeDiff(hours, i)
      requires AtSlot(start) && forall t :: t in HourSlots(hours) && t < start ==> t <= dt
      modifies this`index
      ensures AtSlot(next) && LeastAfter(HourSlots(hours), next, dt)
    {
      next := start;
      while next <= dt
        invariant AtSlot(next)
        invariant forall t :: t in HourSlots(hours) && t < next ==> t <= dt
        decreases dt - next
      {
        NextHourSlot(hours, index, next);
        if index == |hours| - 1 {
          index := 0;
        } else {
          index := index + 1;
        }
        next := next + timediffs[index] * HOUR;
      }
    }

    method CanRun(dt: int) returns (r: bool)
      requires Valid() && (nextRuntime.Some? ==> lastCall <= dt)
      modifies this
      ensures Valid() && lastCall == dt && nextRuntime.Some?
      ensures LeastAfter(HourSlots(hours), nextRuntime.value, dt)
      ensures r <==> old(nextRuntime).Some? && SlotBetween(HourSlots(hours), old(lastCall), dt)
    {
      if nextRuntime.Some? {
        LeastAfterLater(HourSlots(hours), nextRuntime.value, lastCall, dt);
      }
      if nextRuntime.None? {
        index := 0;
        var start := dt / DAY * DAY + hours[0] * HOUR;
        FirstSlotOfDay(hours, dt);
        var next := CatchUp(start, dt);
        nextRuntime := Some(next);
        r := false;
      } else if nextRuntime.value > dt {
        r := false;
      } else {
        var next := CatchUp(nextRuntime.value, dt);
        nextRuntime := Some(next);
        r := true;
      }
      lastCall := dt;
    }
  }

  /** Every slot before the first one of the day is on an earlier day. */
  lemma FirstSlotOfDay(hours: seq<nat>, dt: int)
    requires ValidHours(hours)
    ensures var start := dt / DAY * DAY + hours[0] * HOUR;
            && start % HOUR == 0 && (start / HOUR) % 24 == hours[0]
            && forall t :: t in HourSlots(hours) && t < start ==> t <= dt
  {
    var d := dt / DAY;
    var start := d * DAY + hours[0] * HOUR;
    assert start == (24 * d + hours[0]) * HOUR;
    assert hours[0] < 24;
    forall t | t in HourSlots(hours) && t < start ensures t <= dt {
      var h := t / HOUR;
      var k :| 0 <= k < |hours| && hours[k] == h % 24;
      assert hours[0] <= hours[k];
      assert h < 24 * d + hours[0];
      assert h / 24 < d;
    }
  }
}
