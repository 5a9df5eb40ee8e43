/**
 * The windows of time in which calls are counted. Times are microseconds from a local midnight, in a zone
 * with a fixed offset.
 */
module TrafficWindows {
  import opened Arithmetic
  import opened Times

  ghost predicate OnGrid(t: int, interval: nat)
    requires interval > 0
  {
    t % (interval * SECOND) == 0
  }

  /** The intervals that divide the day, and so the ones that settings.py admits. */
  predicate DividesDay(interval: nat) {
    0 < interval <= 86400 && 86400 % interval == 0
  }

  /** TRAFFIC_MONITOR_INTERVAL for the configured number of seconds: one hour instead of a number that is not
      admitted. */
  function ConfiguredInterval(value: int): nat {
    if value > 0 && 86400 % value == 0 then value else 3600
  }

  /** The attribute `seconds` of a timedelta leaves out its whole days; the windows are computed modulo it. */
  function TimedeltaSeconds(interval: nat): nat {
    interval % 86400
  }

  /** The intervals for which the windows can be computed. */
  predicate ValidInterval(interval: nat) {
    DividesDay(interval) && interval < 86400
  }

  /** Every configured interval divides the day, and the window arithmetic divides by zero for just one of them, the
      whole day. */
  lemma WholeDayDividesByZero(value: int)
    ensures DividesDay(ConfiguredInterval(value))
    ensures TimedeltaSeconds(ConfiguredInterval(value)) == 0 <==> value == 86400
    ensures ValidInterval(ConfiguredInterval(value)) <==> value != 86400
    ensures value != 86400 ==> TimedeltaSeconds(ConfiguredInterval(value)) == ConfiguredInterval(value)
  {
    if value > 0 && 86400 % value == 0 {
      NoLargerDivisor(value);
    }
  }

  /** A number that divides the day is taken, and one hour for every other. */
  lemma ConfiguredExactly(value: int)
    ensures (exists n: nat :: n * value == 86400) ==> ConfiguredInterval(value) == value
    ensures !(exists n: nat :: n * value == 86400) ==> ConfiguredInterval(value) == 3600
  {
    if n: nat :| n * value == 86400 {
      if value <= 0 { NotPositive(n, value); }
      assert n * value == value * n;
      MulDiv(value, n);
    }
    if value > 0 && 86400 % value == 0 {
      var n := 86400 / value;
      assert value * n == n * value == 86400;
    }
  }

  lemma NotPositive(n: nat, value: int)
    requires value <= 0
    ensures n * value <= 0
  {
  }

  lemma NoLargerDivisor(value: int)
    requires value > 0 && 86400 % value == 0
    ensures value <= 86400
  {
  }

  /** The start of the window of `start`, counted from the end `next` of a window, before or after `start`. */
  function WindowStart(next: int, start: int, interval: nat): int
    requires interval > 0
  {
    var passed := start - next;
    next + (passed - passed % (interval * SECOND))
  }

  lemma WindowStartOnGrid(next: int, start: int, interval: nat)
    requires interval > 0 && OnGrid(next, interval)
    ensures OnGrid(WindowStart(next, start, interval), interval)
    ensures WindowStart(next, start, interval) <= start < WindowStart(next, start, interval) + interval * SECOND
  {
    var g := interval * SECOND;
    var passed := start - next;
    var a, b := next / g, passed / g;
    assert next == g * a && passed == g * b + passed % g;
    assert g * a + g * b == g * (a + b);
    MulDiv(g, a + b);
  }

  lemma NextOnGrid(ts: int, interval: nat)
    requires interval > 0 && OnGrid(ts, interval)
    ensures OnGrid(ts + interval * SECOND, interval)
  {
    var g := interval * SECOND;
    var k := ts / g;
    assert ts == g * k;
    assert g * k + g == g * (k + 1);
    MulDiv(g, k + 1);
  }

  lemma IntervalsOfDay(interval: nat)
    requires DividesDay(interval)
    ensures DAY == (interval * SECOND) * (86400 / interval)
  {
    var n := 86400 / interval;
    assert 86400 == interval * n;
    assert (interval * SECOND) * n == (interval * n) * SECOND;
  }

  /** No window crosses midnight. */
  lemma WindowInDay(ts: int, interval: nat)
    requires DividesDay(interval) && OnGrid(ts, interval)
    ensures ts / DAY == (ts + interval * SECOND - 1) / DAY
  {
    var g, n, k, q := interval * SECOND, 86400 / interval, ts / (interval * SECOND), ts / DAY;
    IntervalsOfDay(interval);
    assert ts == g * k;
    assert g * k - DAY * q == g * (k - n * q) by {
      assert DAY * q == g * (n * q);
    }
    var r := ts - DAY * q;
    assert 0 <= r < DAY;
    MulDiv(g, n);
    MultiplesApart(g, k - n * q, DAY);
    assert r + g <= DAY by {
      assert g * (k - n * q + 1) == r + g;
    }
  }

  /** The window in which a process starts. */
  function FirstWindow(now: int, interval: nat): int
    requires interval > 0
  {
    var secondsInDay := (now % DAY) / SECOND;
    (now - now % DAY) + (secondsInDay - secondsInDay % interval) * SECOND
  }

  lemma FirstWindowOnGrid(now: int, interval: nat)
    requires ValidInterval(interval)
    ensures OnGrid(FirstWindow(now, interval), interval)
    ensures FirstWindow(now, interval) <= now < FirstWindow(now, interval) + interval * SECOND
  {
    var g, n, q := interval * SECOND, 86400 / interval, now / DAY;
    var s := (now % DAY) / SECOND;
    var b := s / interval;
    IntervalsOfDay(interval);
    assert s == interval * b + s % interval;
    assert (s - s % interval) * SECOND == g * b;
    assert now - now % DAY == DAY * q == g * (n * q);
    assert g * (n * q) + g * b == g * (n * q + b);
    MulDiv(g, n * q + b);
  }
}
