/**
 * The daily, weekly and monthly report periods. A local time is a civil date with the microseconds since
 * midnight, in a zone with a fixed offset; instants are microseconds on the proleptic Gregorian calendar.
 */
module ReportPeriods {
  import opened Times

  predicate IsLeap(year: nat) {
    year % 4 == 0 && (year % 100 != 0 || year % 400 == 0)
  }

  function DaysInMonth(year: nat, month: nat): nat {
    if month == 2 then if IsLeap(year) then 29 else 28
    else if month == 4 || month == 6 || month == 9 || month == 11 then 30
    else 31
  }

  function DaysBeforeMonth(year: nat, month: nat): nat
    requires month >= 1
  {
    if month == 1 then 0 else DaysBeforeMonth(year, month - 1) + DaysInMonth(year, month - 1)
  }

  function DaysBeforeYear(year: nat): int
    requires year >= 1
  {
    var y := year - 1;
    365 * y + y / 4 - y / 100 + y / 400
  }

  /** The ordinal of the first day of a month; 1 January of year 1 is day 1. */
  function MonthStart(year: nat, month: nat): int
    requires year >= 1 && month >= 1
  {
    DaysBeforeYear(year) + DaysBeforeMonth(year, month) + 1
  }

  datatype CivilTime = CivilTime(year: nat, month: nat, day: nat, micros: nat) {
    predicate Valid() {
      year >= 1 && 1 <= month <= 12 && 1 <= day <= DaysInMonth(year, month) && micros < DAY
    }

    function Ordinal(): int
      requires Valid()
    {
      MonthStart(year, month) + day - 1
    }

    function Instant(): int
      requires Valid()
    {
      Ordinal() * DAY + micros
    }

    /** Monday is 0. */
    function Weekday(): nat
      requires Valid()
    {
      (Ordinal() + 6) % 7
    }
  }

  type LocalTime = t: CivilTime | t.Valid() witness CivilTime(1, 1, 1, 0)

  // ----- The period functions -----

  function StartOfDay(dt: LocalTime): int {
    CivilTime(dt.year, dt.month, dt.day, 0).Instant()
  }

  function EndOfDay(dt: LocalTime): int {
    CivilTime(dt.year, dt.month, dt.day, 0).Instant() + DAY
  }

  function StartOfWeek(dt: LocalTime, startOfWeekMonday: bool): int {
    var today := CivilTime(dt.year, dt.month, dt.day, 0).Instant();
    if startOfWeekMonday then
      if dt.Weekday() == 0 then today else today - dt.Weekday() * DAY
    else
      if dt.Weekday() == 6 then today else today - (dt.Weekday() + 1) * DAY
  }

  function EndOfWeek(dt: LocalTime, startOfWeekMonday: bool): int {
    StartOfWeek(dt, startOfWeekMonday) + 7 * DAY
  }

  function StartOfMonth(dt: LocalTime): int {
    CivilTime(dt.year, dt.month, 1, 0).Instant()
  }

  function EndOfMonth(dt: LocalTime): int {
    if dt.month < 12 then CivilTime(dt.year, dt.month + 1, 1, 0).Instant()
    else CivilTime(dt.year + 1, 1, 1, 0).Instant()
  }

  datatype ReportType = DailyReport | WeeklyReport | MonthlyReport

  function ReportStart(t: ReportType, dt: LocalTime, startOfWeekMonday: bool): int {
    match t
    case DailyReport => StartOfDay(dt)
    case WeeklyReport => StartOfWeek(dt, startOfWeekMonday)
    case MonthlyReport => StartOfMonth(dt)
  }

  function ReportEnd(t: ReportType, dt: LocalTime, startOfWeekMonday: bool): int {
    match t
    case DailyReport => EndOfDay(dt)
    case WeeklyReport => EndOfWeek(dt, startOfWeekMonday)
    case MonthlyReport => EndOfMonth(dt)
  }

  // ----- The calendar -----

  /** The first days of consecutive months are a month apart, also across the end of a year. */
  lemma NextMonthStart(year: nat, month: nat)
    requires year >= 1 && 1 <= month <= 12
    ensures MonthStart(year, month) + DaysInMonth(year, month) ==
            if month < 12 then MonthStart(year, month + 1) else MonthStart(year + 1, 1)
  {
    if month == 12 {
      assert DaysBeforeMonth(year, 2) == 31;
      assert DaysBeforeMonth(year, 4) == 31 + DaysInMonth(year, 2) + 31;
      assert DaysBeforeMonth(year, 6) == DaysBeforeMonth(year, 4) + 61;
      assert DaysBeforeMonth(year, 8) == DaysBeforeMonth(year, 6) + 61;
      assert DaysBeforeMonth(year, 10) == DaysBeforeMonth(year, 8) + 61;
      assert DaysBeforeMonth(year, 12) == DaysBeforeMonth(year, 10) + 61;
      YearLength(year);
    }
  }

  lemma YearLength(year: nat)
    requires year >= 1
    ensures DaysBeforeYear(year + 1) == DaysBeforeYear(year) + if IsLeap(year) then 366 else 365
  {
    DivStep4(year);
    DivStep100(year);
    DivStep400(year);
    LeapCases(year);
    YearCount(year, year / 4, year / 100, year / 400, (year - 1) / 4, (year - 1) / 100, (year - 1) / 400);
  }

  lemma LeapCases(year: nat)
    ensures year % 400 == 0 ==> year % 100 == 0
    ensures year % 100 == 0 ==> year % 4 == 0
  {
    assert year % 400 == 0 ==> year == 100 * (4 * (year / 400));
    assert year % 100 == 0 ==> year == 4 * (25 * (year / 100));
  }

  lemma YearCount(year: nat, a: int, b: int, c: int, a0: int, b0: int, c0: int)
    requires year >= 1
    requires a == a0 + if year % 4 == 0 then 1 else 0
    requires b == b0 + if year % 100 == 0 then 1 else 0
    requires c == c0 + if year % 400 == 0 then 1 else 0
    requires (year % 400 == 0 ==> year % 100 == 0) && (year % 100 == 0 ==> year % 4 == 0)
    ensures 365 * year + a - b + c == 365 * (year - 1) + a0 - b0 + c0 + if IsLeap(year) then 366 else 365
  {
  }

  lemma DivStep4(year: nat)
    requires year >= 1
    ensures year / 4 == (year - 1) / 4 + if year % 4 == 0 then 1 else 0
  {
  }

  lemma DivStep100(year: nat)
    requires year >= 1
    ensures year / 100 == (year - 1) / 100 + if year % 100 == 0 then 1 else 0
  {
  }

  lemma DivStep400(year: nat)
    requires year >= 1
    ensures year / 400 == (year - 1) / 400 + if year % 400 == 0 then 1 else 0
  {
  }

  /** An earlier month ends before a later one starts. */
  lemma {:induction false} MonthsOrdered(y1: nat, m1: nat, y2: nat, m2: nat)
    requires 1 <= y1 && 1 <= m1 <= 12 && 1 <= m2 <= 12 && (y1 < y2 || (y1 == y2 && m1 < m2))
    ensures MonthStart(y1, m1) + DaysInMonth(y1, m1) <= MonthStart(y2, m2)
    decreases y2 - y1, m2
  {
    var y, m := if m2 > 1 then y2 else y2 - 1, if m2 > 1 then m2 - 1 else 12;
    NextMonthStart(y, m);
    if !(y == y1 && m == m1) {
      MonthsOrdered(y1, m1, y, m);
    }
  }

  // ----- Periods partition time -----

  /** The days of a period: it runs from the first of them up to, but not including, the second. */
  function PeriodDays(t: ReportType, dt: LocalTime, monday: bool): (int, int) {
    match t
    case DailyReport => (dt.Ordinal(), dt.Ordinal() + 1)
    case WeeklyReport =>
      var first := dt.Ordinal() - (dt.Ordinal() + if monday then 6 else 7) % 7;
      (first, first + 7)
    case MonthlyReport => (MonthStart(dt.year, dt.month),
                           MonthStart(dt.year, dt.month) + DaysInMonth(dt.year, dt.month))
  }

  lemma PeriodIsDays(t: ReportType, dt: LocalTime, monday: bool)
    ensures ReportStart(t, dt, monday) == PeriodDays(t, dt, monday).0 * DAY
    ensures ReportEnd(t, dt, monday) == PeriodDays(t, dt, monday).1 * DAY
    ensures PeriodDays(t, dt, monday).0 <= dt.Ordinal() < PeriodDays(t, dt, monday).1
  {
    match t
    case DailyReport =>
    case WeeklyReport => WeekStart(dt, monday);
    case MonthlyReport => NextMonthStart(dt.year, dt.month);
  }

  lemma WeekStart(a: LocalTime, monday: bool)
    ensures StartOfWeek(a, monday) == (a.Ordinal() - (a.Ordinal() + if monday then 6 else 7) % 7) * DAY
  {
    hide MonthStart;
    var n := a.Ordinal();
    assert CivilTime(a.year, a.month, a.day, 0).Ordinal() == n;
    WeekdayShift(n);
    DaysBack(n, if monday then a.Weekday() else if a.Weekday() == 6 then 0 else a.Weekday() + 1);
  }

  lemma WeekdayShift(n: int)
    ensures (n + 7) % 7 == if (n + 6) % 7 == 6 then 0 else (n + 6) % 7 + 1
  {
  }

  lemma DaysBack(n: int, w: int)
    ensures n * DAY - w * DAY == (n - w) * DAY
  {
  }

  /** A time lies between two midnights exactly when its day lies between their days. */
  lemma InstantBetween(first: int, end: int, dt: LocalTime)
    ensures first * DAY <= dt.Instant() < end * DAY <==> first <= dt.Ordinal() < end
  {
    BetweenDays(first, end, dt.Ordinal(), dt.micros);
  }

  lemma BetweenDays(first: int, end: int, day: int, micros: int)
    requires 0 <= micros < 86_400_000_000
    ensures first * 86_400_000_000 <= day * 86_400_000_000 + micros < end * 86_400_000_000 <==> first <= day < end
  {
  }

  /** The start and the end of a period are midnights, and the time lies between them. */
  lemma InPeriod(t: ReportType, dt: LocalTime, monday: bool)
    ensures ReportStart(t, dt, monday) <= dt.Instant() < ReportEnd(t, dt, monday)
    ensures exists first, end :: ReportStart(t, dt, monday) == first * DAY && ReportEnd(t, dt, monday) == end * DAY
  {
    var (first, end) := PeriodDays(t, dt, monday);
    PeriodIsDays(t, dt, monday);
    InstantBetween(first, end, dt);
  }

  /** Two times share the start of their period exactly when the second lies in the period of the first. */
  lemma SamePeriod(t: ReportType, a: LocalTime, b: LocalTime, monday: bool)
    ensures ReportStart(t, a, monday) == ReportStart(t, b, monday) <==>
            ReportStart(t, a, monday) <= b.Instant() < ReportEnd(t, a, monday)
    ensures ReportStart(t, a, monday) == ReportStart(t, b, monday) ==>
            ReportEnd(t, a, monday) == ReportEnd(t, b, monday)
  {
    var (first, end) := PeriodDays(t, a, monday);
    PeriodIsDays(t, a, monday);
    PeriodIsDays(t, b, monday);
    SameDays(t, a, b, monday);
    InstantBetween(first, end, b);
  }

  /** The same on whole days. */
  lemma SameDays(t: ReportType, a: LocalTime, b: LocalTime, monday: bool)
    ensures var (first, end) := PeriodDays(t, a, monday);
            && (PeriodDays(t, b, monday).0 == first <==> first <= b.Ordinal() < end)
            && (PeriodDays(t, b, monday).0 == first ==> PeriodDays(t, b, monday).1 == end)
  {
    hide MonthStart;
    match t
    case DailyReport =>
    case WeeklyReport => SameWeek(a.Ordinal(), b.Ordinal(), if monday then 6 else 7);
    case MonthlyReport => SameMonth(a, b);
  }

  lemma SameWeek(i: int, j: int, shift: int)
    ensures j - (j + shift) % 7 == i - (i + shift) % 7 <==> 0 <= j - (i - (i + shift) % 7) < 7
  {
  }

  lemma SameMonth(a: LocalTime, b: LocalTime)
    ensures var start := MonthStart(a.year, a.month);
            && (MonthStart(b.year, b.month) == start <==> a.year == b.year && a.month == b.month)
            && (MonthStart(b.year, b.month) == start <==> start <= b.Ordinal() < start + DaysInMonth(a.year, a.month))
  {
    if a.year < b.year || (a.year == b.year && a.month < b.month) {
      MonthsOrdered(a.year, a.month, b.year, b.month);
    } else if b.year < a.year || (a.year == b.year && b.month < a.month) {
      MonthsOrdered(b.year, b.month, a.year, a.month);
    }
  }

  /** Weeks and months are made of whole days: two times of one day are in the same week and the same month. */
  lemma WholeDays(t: ReportType, a: LocalTime, b: LocalTime, monday: bool)
    requires StartOfDay(a) == StartOfDay(b)
    ensures ReportStart(t, a, monday) == ReportStart(t, b, monday)
  {
    PeriodIsDays(DailyReport, a, monday);
    PeriodIsDays(DailyReport, b, monday);
    PeriodIsDays(t, a, monday);
    PeriodIsDays(t, b, monday);
    SameDays(t, a, b, monday);
  }

  // ----- The calendar, day by day -----

  /** The day after, at midnight. */
  function NextDay(dt: LocalTime): LocalTime {
    if dt.day < DaysInMonth(dt.year, dt.month) then CivilTime(dt.year, dt.month, dt.day + 1, 0)
    else if dt.month < 12 then CivilTime(dt.year, dt.month + 1, 1, 0)
    else CivilTime(dt.year + 1, 1, 1, 0)
  }

  /** The months have the days of the calendar, and February has 29 in every fourth year, but not in three of four
      full centuries. */
  lemma MonthLengths(year: nat)
    ensures forall m :: m in {1, 3, 5, 7, 8, 10, 12} ==> DaysInMonth(year, m) == 31
    ensures forall m :: m in {4, 6, 9, 11} ==> DaysInMonth(year, m) == 30
    ensures year % 4 != 0 ==> DaysInMonth(year, 2) == 28
    ensures year % 4 == 0 && year % 100 != 0 ==> DaysInMonth(year, 2) == 29
    ensures year % 100 == 0 && year % 400 != 0 ==> DaysInMonth(year, 2) == 28
    ensures year % 400 == 0 ==> DaysInMonth(year, 2) == 29
  {
    LeapCases(year);
  }

  /** Days are consecutive, and every day has the weekday after that of the day before. */
  lemma NextDayIsNext(dt: LocalTime)
    ensures NextDay(dt).Ordinal() == dt.Ordinal() + 1
    ensures NextDay(dt).Weekday() == if dt.Weekday() == 6 then 0 else dt.Weekday() + 1
  {
    NextMonthStart(dt.year, dt.month);
    hide MonthStart;
    WeekdayShift(dt.Ordinal());
  }

  /** Known weekdays: 1 January 1970 was a Thursday, 29 February 2000 a Tuesday, 1 January 2024 a Monday. */
  lemma KnownWeekdays()
    ensures CivilTime(1970, 1, 1, 0).Valid() && CivilTime(1970, 1, 1, 0).Weekday() == 3
    ensures CivilTime(2000, 2, 29, 0).Valid() && CivilTime(2000, 2, 29, 0).Weekday() == 1
    ensures CivilTime(2024, 1, 1, 0).Valid() && CivilTime(2024, 1, 1, 0).Weekday() == 0
  {
  }

  /** Every day from 1 January of year 1 is a civil date. */
  lemma {:induction false} DateOf(ordinal: int) returns (dt: LocalTime)
    requires ordinal >= 1
    ensures dt.Ordinal() == ordinal && dt.micros == 0
    decreases ordinal
  {
    if ordinal == 1 {
      dt := CivilTime(1, 1, 1, 0);
    } else {
      var before := DateOf(ordinal - 1);
      dt := NextDay(before);
      NextDayIsNext(before);
    }
  }

  lemma SameInstant(a: LocalTime, day: int)
    requires a.Instant() == day * DAY
    ensures a.micros == 0 && a.Ordinal() == day
  {
    InstantBetween(day, day + 1, a);
  }

  /**
   * The start of a period is the midnight of the day itself, of the last Monday or Sunday, or of the first
   * day of the month.
   */
  lemma StartsOn(t: ReportType, dt: LocalTime, monday: bool, start: LocalTime)
    requires start.Instant() == ReportStart(t, dt, monday)
    ensures start.micros == 0
    ensures t.DailyReport? ==> start.Ordinal() == dt.Ordinal()
    ensures t.WeeklyReport? ==>
              start.Weekday() == (if monday then 0 else 6) && dt.Ordinal() - 6 <= start.Ordinal() <= dt.Ordinal()
    ensures t.MonthlyReport? ==> start.Ordinal() == CivilTime(dt.year, dt.month, 1, 0).Ordinal() <= dt.Ordinal()
  {
    var (first, end) := PeriodDays(t, dt, monday);
    PeriodIsDays(t, dt, monday);
    SameInstant(start, first);
    WeekFirst(dt.Ordinal(), monday);
  }

  lemma WeekFirst(n: int, monday: bool)
    ensures var first := n - (n + if monday then 6 else 7) % 7;
            (first + 6) % 7 == (if monday then 0 else 6) && n - 6 <= first <= n
  {
  }

  /** Unless the week began before the calendar, there is such a day. */
  lemma WeekStartExists(dt: LocalTime, monday: bool) returns (start: LocalTime)
    requires StartOfWeek(dt, monday) >= DAY
    ensures start.Instant() == StartOfWeek(dt, monday) && start.Weekday() == if monday then 0 else 6
  {
    PeriodIsDays(WeeklyReport, dt, monday);
    var (first, end) := PeriodDays(WeeklyReport, dt, monday);
    AtLeastOne(first);
    start := DateOf(first);
    StartsOn(WeeklyReport, dt, monday, start);
  }

  lemma AtLeastOne(day: int)
    requires day * DAY >= DAY
    ensures day >= 1
  {
  }
}
