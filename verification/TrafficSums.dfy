/** Traffic data rows, report keys and the sums a report must hold. */
module TrafficSums {
  import opened Wrappers
  import opened ReportPeriods
  import opened Times
  import opened Totals

  /** The counters of a row and of a report. */
  datatype Counts = Counts(requests: nat, getRemoteSessions: nat, deleteRemoteSessions: nat) {
    function Plus(other: Counts): Counts {
      Counts(requests + other.requests, getRemoteSessions + other.getRemoteSessions,
             deleteRemoteSessions + other.deleteRemoteSessions)
    }

    function Get(m: Measure): nat {
      match m
      case Requests => requests
      case GetRemoteSessions => getRemoteSessions
      case DeleteRemoteSessions => deleteRemoteSessions
    }
  }

  datatype Measure = Requests | GetRemoteSessions | DeleteRemoteSessions

  const ZERO := Counts(0, 0, 0)

  type ClusterId = Option<string>

  /** The report over all clusters. */
  const AUTH2: ClusterId := Some("AUTH2")

  /** A row of TrafficData; the requests to the database and redis are only tested for being zero. */
  datatype Row = Row(clusterid: ClusterId, batchid: int, startTime: LocalTime, counts: Counts, otherRequests: nat)

  datatype ReportKey = ReportKey(clusterid: ClusterId, reportType: ReportType, startTime: int)

  /** The report is the one of the row's cluster or, when the row has a cluster, the one over all clusters. */
  predicate CountsFor(clusterid: ClusterId, rowCluster: ClusterId) {
    clusterid == rowCluster || (rowCluster.Some? && clusterid == AUTH2)
  }

  predicate Matches(r: Row, key: ReportKey, monday: bool) {
    CountsFor(key.clusterid, r.clusterid) && key.startTime == ReportStart(key.reportType, r.startTime, monday)
  }

  /** What a row adds to one counter of a report. */
  function Contribution(key: ReportKey, m: Measure, monday: bool): Row -> int {
    (r: Row) => if Matches(r, key, monday) then r.counts.Get(m) else 0
  }

  ghost function Sum(rows: seq<Row>, key: ReportKey, m: Measure, monday: bool): int {
    Total(rows, Contribution(key, m, monday))
  }

  // ----- Which reports a row counts in -----

  /**
   * A row counts in the daily, weekly and monthly report of its cluster and, when it has one, in those over
   * all clusters, each for the period of its start; and in no other report.
   */
  lemma ContributionExactly(r: Row, key: ReportKey, m: Measure, monday: bool)
    requires r.clusterid != AUTH2
    ensures Contribution(key, m, monday)(r) ==
            if (key.clusterid == r.clusterid || (key.clusterid == Some("AUTH2") && r.clusterid != None))
               && key.startTime == ReportStart(key.reportType, r.startTime, monday)
            then match m
                 case Requests => r.counts.requests
                 case GetRemoteSessions => r.counts.getRemoteSessions
                 case DeleteRemoteSessions => r.counts.deleteRemoteSessions
            else 0
  {
  }

  /** What a row adds to the report of the `i`-th cluster. */
  function ClusterParts(clusters: seq<ClusterId>, t: ReportType, start: int, m: Measure,
                        monday: bool): int -> (Row -> int)
  {
    i => Contribution(ReportKey(if 0 <= i < |clusters| then clusters[i] else AUTH2, t, start), m, monday)
  }

  /** Of the first `n` clusters a row counts in the report of its own. */
  lemma {:induction false} ClusterPartsOfRow(r: Row, clusters: seq<ClusterId>, n: nat, t: ReportType, start: int,
                                             m: Measure, monday: bool)
    requires n <= |clusters| && NoDuplicates(clusters) && AUTH2 !in clusters
    ensures PartsOf(r, ClusterParts(clusters, t, start, m, monday), n) ==
            if r.clusterid in clusters[..n] then Contribution(ReportKey(r.clusterid, t, start), m, monday)(r) else 0
    decreases n
  {
    if n > 0 {
      ClusterPartsOfRow(r, clusters, n - 1, t, start, m, monday);
      assert clusters[..n] == clusters[..n - 1] + [clusters[n - 1]];
      assert clusters[n - 1] in clusters;
    }
  }

  /** The report over all clusters is the sum of the reports of the clusters, for whatever rows. */
  lemma AllClusters(rows: seq<Row>, clusters: seq<ClusterId>, t: ReportType, start: int, m: Measure, monday: bool)
    requires NoDuplicates(clusters) && AUTH2 !in clusters && None !in clusters
    requires forall r :: r in rows ==> r.clusterid in clusters
    ensures Sum(rows, ReportKey(AUTH2, t, start), m, monday) ==
            TotalOfParts(rows, ClusterParts(clusters, t, start, m, monday), |clusters|)
  {
    var parts := ClusterParts(clusters, t, start, m, monday);
    forall r | r in rows
      ensures Contribution(ReportKey(AUTH2, t, start), m, monday)(r) == PartsOf(r, parts, |clusters|)
    {
      ClusterPartsOfRow(r, clusters, |clusters|, t, start, m, monday);
      assert clusters[..|clusters|] == clusters;
    }
    TotalIsSumOfParts(rows, Contribution(ReportKey(AUTH2, t, start), m, monday), parts, |clusters|);
  }

  // ----- Roll-up -----

  /** What a row adds to the daily report of the `i`-th day from `start`. */
  function DailyParts(clusterid: ClusterId, start: int, m: Measure, monday: bool): int -> (Row -> int) {
    i => Contribution(ReportKey(clusterid, DailyReport, start + i * DAY), m, monday)
  }

  /** The sum of the daily sums of `n` consecutive days. */
  ghost function DailySums(rows: seq<Row>, clusterid: ClusterId, start: int, n: nat, m: Measure, monday: bool): int {
    TotalOfParts(rows, DailyParts(clusterid, start, m, monday), n)
  }

  lemma DayOf(dt: LocalTime, day: int, monday: bool)
    ensures ReportStart(DailyReport, dt, monday) == day * DAY <==> dt.Ordinal() == day
  {
    PeriodIsDays(DailyReport, dt, monday);
  }

  lemma DailyPart(r: Row, clusterid: ClusterId, first: int, i: int, m: Measure, monday: bool)
    ensures DailyParts(clusterid, first * DAY, m, monday)(i)(r) ==
            if CountsFor(clusterid, r.clusterid) && r.startTime.Ordinal() == first + i then r.counts.Get(m) else 0
  {
    DayOf(r.startTime, first + i, monday);
  }

  /** One row counts on exactly one day, and only when its day is among the `n`. */
  lemma {:induction false} DailyPartsOfRow(r: Row, clusterid: ClusterId, first: int, n: nat, m: Measure, monday: bool)
    ensures PartsOf(r, DailyParts(clusterid, first * DAY, m, monday), n) ==
            if CountsFor(clusterid, r.clusterid) && first <= r.startTime.Ordinal() < first + n then r.counts.Get(m)
            else 0
    decreases n
  {
    if n > 0 {
      DailyPartsOfRow(r, clusterid, first, n - 1, m, monday);
      DailyPart(r, clusterid, first, n - 1, m, monday);
    }
  }

  lemma InDays(t: ReportType, a: LocalTime, b: LocalTime, monday: bool)
    ensures ReportStart(t, a, monday) == ReportStart(t, b, monday) <==>
            PeriodDays(t, a, monday).0 <= b.Ordinal() < PeriodDays(t, a, monday).1
  {
    PeriodIsDays(t, a, monday);
    PeriodIsDays(t, b, monday);
    SameDays(t, a, b, monday);
  }

  /** A weekly or monthly sum is the sum of the daily sums of its days. */
  lemma RollUp(rows: seq<Row>, clusterid: ClusterId, t: ReportType, dt: LocalTime, m: Measure, monday: bool)
    ensures var (first, end) := PeriodDays(t, dt, monday);
            && first <= end
            && Sum(rows, ReportKey(clusterid, t, ReportStart(t, dt, monday)), m, monday) ==
               DailySums(rows, clusterid, ReportStart(t, dt, monday), end - first, m, monday)
  {
    var (first, end) := PeriodDays(t, dt, monday);
    PeriodIsDays(t, dt, monday);
    var whole := Contribution(ReportKey(clusterid, t, ReportStart(t, dt, monday)), m, monday);
    var parts := DailyParts(clusterid, first * DAY, m, monday);
    hide Contribution, DailyParts, PeriodDays, ReportStart;
    forall r | r in rows ensures whole(r) == PartsOf(r, parts, end - first) {
      RowRollsUp(r, clusterid, t, dt, m, monday);
    }
    TotalIsSumOfParts(rows, whole, parts, end - first);
  }

  lemma RowRollsUp(r: Row, clusterid: ClusterId, t: ReportType, dt: LocalTime, m: Measure, monday: bool)
    ensures var (first, end) := PeriodDays(t, dt, monday);
            && first <= end
            && Contribution(ReportKey(clusterid, t, ReportStart(t, dt, monday)), m, monday)(r) ==
               PartsOf(r, DailyParts(clusterid, first * DAY, m, monday), end - first)
  {
    var (first, end) := PeriodDays(t, dt, monday);
    PeriodIsDays(t, dt, monday);
    DailyPartsOfRow(r, clusterid, first, end - first, m, monday);
    InDays(t, dt, r.startTime, monday);
    hide DailyParts, PeriodDays, ReportStart, PartsOf;
  }
}
