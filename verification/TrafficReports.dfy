/** trafficdata._populate_reports: traffic rows are added to reports batch by batch, up to a committed batch id. */
module TrafficReports {
  import opened Wrappers
  import opened ReportPeriods
  import opened Times
  import opened Totals
  import opened TrafficSums

  /** The batch id of the fake row that ends the rows of a cluster; every real batch id is later. */
  const BATCHID_END := 0

  const REPORTS := [DailyReport, WeeklyReport, MonthlyReport]

  /** A report held by the running job. */
  datatype HeldReport = HeldReport(counts: Counts, changed: bool)

  // ----- The rows that count -----

  /** The row's batch is not after the last processed batch of its cluster. */
  predicate IsProcessed(last: map<ClusterId, int>, r: Row) {
    r.clusterid in last && r.batchid <= last[r.clusterid]
  }

  ghost function Processed(rows: seq<Row>, last: map<ClusterId, int>): seq<Row> {
    Filter(rows, (r: Row) => IsProcessed(last, r))
  }

  /** The row is one of the cluster's that the job still has to read. */
  predicate IsSelected(c: ClusterId, last: map<ClusterId, int>, r: Row) {
    r.clusterid == c && !IsProcessed(last, r)
  }

  function Select(rows: seq<Row>, c: ClusterId, last: map<ClusterId, int>): (s: seq<Row>)
    ensures forall r :: multiset(s)[r] == if IsSelected(c, last, r) then multiset(rows)[r] else 0
  {
    if rows == [] then []
    else
      var front, r := rows[..|rows| - 1], rows[|rows| - 1];
      assert rows == front + [r];
      Select(front, c, last) + if IsSelected(c, last, r) then [r] else []
  }

  lemma {:induction false} SelectSize(rows: seq<Row>, c: ClusterId, last: map<ClusterId, int>)
    ensures |multiset(Select(rows, c, last))| <= |rows|
    decreases |rows|
  {
    if rows != [] {
      SelectSize(rows[..|rows| - 1], c, last);
    }
  }

  ghost predicate Ordered(s: seq<Row>) {
    forall i, j :: 0 <= i < j < |s| ==> s[i].batchid <= s[j].batchid
  }

  function InsertByBatch(s: seq<Row>, r: Row): (t: seq<Row>)
    ensures multiset(t) == multiset(s) + multiset{r}
  {
    if s == [] || s[|s| - 1].batchid <= r.batchid then s + [r]
    else
      assert s == s[..|s| - 1] + [s[|s| - 1]];
      InsertByBatch(s[..|s| - 1], r) + [s[|s| - 1]]
  }

  lemma {:induction false} InsertOrdered(s: seq<Row>, r: Row)
    requires Ordered(s)
    ensures Ordered(InsertByBatch(s, r))
    decreases |s|
  {
    if s != [] && s[|s| - 1].batchid > r.batchid {
      var front, last := s[..|s| - 1], s[|s| - 1];
      InsertOrdered(front, r);
      var t := InsertByBatch(front, r);
      forall i | 0 <= i < |t| ensures t[i].batchid <= last.batchid {
        assert t[i] in multiset(t);
        assert t[i] == r || t[i] in front;
      }
    }
  }

  /** order_by("batchid") */
  function OrderByBatch(s: seq<Row>): (t: seq<Row>)
    ensures multiset(t) == multiset(s)
  {
    if s == [] then []
    else
      assert s == s[..|s| - 1] + [s[|s| - 1]];
      InsertByBatch(OrderByBatch(s[..|s| - 1]), s[|s| - 1])
  }

  lemma {:induction false} OrderByBatchOrdered(s: seq<Row>)
    ensures Ordered(OrderByBatch(s))
  {
    if s != [] {
      OrderByBatchOrdered(s[..|s| - 1]);
      InsertOrdered(OrderByBatch(s[..|s| - 1]), s[|s| - 1]);
    }
  }

  predicate IsEmpty(r: Row) {
    r.counts == ZERO && r.otherRequests == 0
  }

  /** Committing batch `b` of cluster `c` makes exactly the rows `u`, read since the commit before, count as
      processed. */
  lemma CommitProcesses(rows: seq<Row>, last: map<ClusterId, int>, c: ClusterId, b: int,
                        before: seq<Row>, u: seq<Row>, after: seq<Row>, start: map<ClusterId, int>)
    requires multiset(before + u + after) == multiset(Select(rows, c, start))
    requires c in start ==> c in last && start[c] <= last[c]
    requires forall r :: r in before ==> c in last && r.batchid <= last[c]
    requires forall r :: r in u ==> r.batchid == b
    requires u != [] && (c in last ==> b > last[c])
    requires forall r :: r in after ==> r.batchid > b
    ensures multiset(Processed(rows, last[c := b])) == multiset(Processed(rows, last) + u)
  {
    forall r ensures multiset(Processed(rows, last[c := b]))[r] == multiset(Processed(rows, last) + u)[r] {
      CommitProcessesRow(rows, last, c, b, before, u, after, start, r);
    }
  }

  lemma CommitProcessesRow(rows: seq<Row>, last: map<ClusterId, int>, c: ClusterId, b: int,
                           before: seq<Row>, u: seq<Row>, after: seq<Row>, start: map<ClusterId, int>, r: Row)
    requires multiset(before + u + after) == multiset(Select(rows, c, start))
    requires c in start ==> c in last && start[c] <= last[c]
    requires r in before ==> c in last && r.batchid <= last[c]
    requires r in u ==> r.batchid == b
    requires c in last ==> b > last[c]
    requires r in after ==> r.batchid > b
    ensures multiset(Processed(rows, last[c := b]))[r] == multiset(Processed(rows, last) + u)[r]
  {
    var last' := last[c := b];
    FilterCount(rows, (x: Row) => IsProcessed(last', x), r);
    FilterCount(rows, (x: Row) => IsProcessed(last, x), r);
    assert multiset(before + u + after)[r] == multiset(before)[r] + multiset(u)[r] + multiset(after)[r];
    assert multiset(Select(rows, c, start))[r] == if IsSelected(c, start, r) then multiset(rows)[r] else 0;
    assert r !in u ==> multiset(u)[r] == 0;
    assert r !in before ==> multiset(before)[r] == 0;
    assert r !in after ==> multiset(after)[r] == 0;
    assert r in u ==> r in multiset(before + u + after);
  }

  /** A row of the cluster has the batch id. */
  ghost predicate HasBatch(rows: seq<Row>, c: ClusterId, b: int) {
    exists r :: r in rows && r.clusterid == c && r.batchid == b
  }

  /** No processed batch id has gone back, and those that have grown are batch ids of rows. */
  ghost predicate Grown(rows: seq<Row>, before: map<ClusterId, int>, after: map<ClusterId, int>) {
    && (forall k :: k in before ==> k in after && before[k] <= after[k])
    && (forall k :: k in after ==> (k in before && after[k] == before[k]) || HasBatch(rows, k, after[k]))
  }

  lemma GrownByCommit(rows: seq<Row>, start: map<ClusterId, int>, last: map<ClusterId, int>, c: ClusterId, b: int)
    requires Grown(rows, start, last) && (c in last ==> last[c] <= b) && HasBatch(rows, c, b)
    ensures Grown(rows, start, last[c := b])
    ensures c in start ==> c in last && start[c] <= last[c]
  {
    hide HasBatch;
  }

  lemma GrownTransitive(rows: seq<Row>, a: map<ClusterId, int>, b: map<ClusterId, int>, c: map<ClusterId, int>)
    requires Grown(rows, a, b) && Grown(rows, b, c)
    ensures Grown(rows, a, c)
  {
    hide HasBatch;
  }

  lemma SelectedBatch(rows: seq<Row>, c: ClusterId, start: map<ClusterId, int>, data: seq<Row>, i: nat)
    requires multiset(data) == multiset(Select(rows, c, start)) && i < |data|
    ensures HasBatch(rows, c, data[i].batchid)
  {
    assert data[i] in multiset(data);
    assert multiset(Select(rows, c, start))[data[i]] > 0;
  }

  /**
   * Where the loop over the rows `data` of cluster `c` stands, which were selected when the processed
   * batch ids were `start` and are now `last`: `j` rows are committed and `i` are added.
   */
  ghost predicate Position(rows: seq<Row>, c: ClusterId, data: seq<Row>, start: map<ClusterId, int>,
                           last: map<ClusterId, int>, j: nat, i: nat) {
    && j <= i <= |data| && Ordered(data)
    && multiset(data) == multiset(Select(rows, c, start))
    && Grown(rows, start, last)
    && (j > 0 ==> c in last) && (forall t :: 0 <= t < j ==> data[t].batchid <= last[c])
    && (forall t :: j <= t < |data| ==> c in last ==> data[t].batchid > last[c])
    && (forall t :: j <= t < i ==> data[t].batchid == data[i - 1].batchid)
  }

  /** The batch of the rows read since the last commit is complete when the next row is of another batch. */
  lemma PositionCommit(rows: seq<Row>, c: ClusterId, data: seq<Row>, start: map<ClusterId, int>,
                       last: map<ClusterId, int>, j: nat, i: nat, b: int)
    requires Position(rows, c, data, start, last, j, i) && j < i && b == data[i - 1].batchid
    requires i < |data| ==> data[i].batchid != b
    ensures Position(rows, c, data, start, last[c := b], i, i)
    ensures c in last ==> last[c] <= b
    ensures multiset(Processed(rows, last[c := b])) == multiset(Processed(rows, last) + data[j..i])
  {
    SelectedBatch(rows, c, start, data, i - 1);
    BatchBounds(data, i, b);
    hide Grown, HasBatch, Select, Processed, Ordered;
    GrownByCommit(rows, start, last, c, b);
    BatchProcessed(rows, last, c, b, data, j, i, start);
  }

  lemma BatchBounds(data: seq<Row>, i: nat, b: int)
    requires Ordered(data) && 0 < i <= |data| && b == data[i - 1].batchid && (i < |data| ==> data[i].batchid != b)
    ensures forall t :: 0 <= t < i ==> data[t].batchid <= b
    ensures forall t :: i <= t < |data| ==> data[t].batchid > b
  {
  }

  lemma BatchProcessed(rows: seq<Row>, last: map<ClusterId, int>, c: ClusterId, b: int, data: seq<Row>, j: nat,
                       i: nat, start: map<ClusterId, int>)
    requires j < i <= |data| && multiset(data) == multiset(Select(rows, c, start))
    requires c in start ==> c in last && start[c] <= last[c]
    requires j > 0 ==> c in last
    requires forall t :: 0 <= t < j ==> data[t].batchid <= last[c]
    requires forall t :: j <= t < i ==> data[t].batchid == b
    requires c in last ==> b > last[c]
    requires forall t :: i <= t < |data| ==> data[t].batchid > b
    ensures multiset(Processed(rows, last[c := b])) == multiset(Processed(rows, last) + data[j..i])
  {
    hide Select, Processed;
    assert data[..j] + data[j..i] + data[i..] == data;
    CommitProcesses(rows, last, c, b, data[..j], data[j..i], data[i..], start);
  }

  lemma PositionRead(rows: seq<Row>, c: ClusterId, data: seq<Row>, start: map<ClusterId, int>,
                     last: map<ClusterId, int>, j: nat, i: nat)
    requires Position(rows, c, data, start, last, j, i) && i < |data|
    requires j < i ==> data[i].batchid == data[i - 1].batchid
    ensures Position(rows, c, data, start, last, j, i + 1)
  {
  }

  lemma PositionStart(rows: seq<Row>, c: ClusterId, last: map<ClusterId, int>)
    ensures Position(rows, c, OrderByBatch(Select(rows, c, last)), last, last, 0, 0)
    ensures forall t :: 0 <= t < |OrderByBatch(Select(rows, c, last))| ==>
              OrderByBatch(Select(rows, c, last))[t] in rows && OrderByBatch(Select(rows, c, last))[t].clusterid == c
  {
    var data := OrderByBatch(Select(rows, c, last));
    OrderByBatchOrdered(Select(rows, c, last));
    forall r | r in data ensures r in rows && IsSelected(c, last, r) {
      assert r in multiset(data);
    }
    forall t | 0 <= t < |data| ensures data[t] in rows && IsSelected(c, last, data[t]) {
      assert data[t] in data;
    }
  }

  /** At the end every row of the cluster is processed. */
  lemma PositionEnd(rows: seq<Row>, c: ClusterId, data: seq<Row>, start: map<ClusterId, int>, last: map<ClusterId, int>)
    requires Position(rows, c, data, start, last, |data|, |data|)
    ensures forall r :: r in rows && r.clusterid == c ==> IsProcessed(last, r)
  {
    forall r | r in rows && r.clusterid == c ensures IsProcessed(last, r) {
      if !IsProcessed(start, r) {
        assert multiset(Select(rows, c, start))[r] == multiset(rows)[r];
        assert r in multiset(data);
      }
    }
  }

  /** Adding the rows `u` to sums over the processed rows gives the sums after their commit. */
  lemma SumAfterCommit(rows: seq<Row>, last: map<ClusterId, int>, last': map<ClusterId, int>, u: seq<Row>,
                       key: ReportKey, m: Measure, monday: bool)
    requires multiset(Processed(rows, last')) == multiset(Processed(rows, last) + u)
    ensures Sum(Processed(rows, last'), key, m, monday) ==
            Sum(Processed(rows, last), key, m, monday) + Sum(u, key, m, monday)
  {
    var part := Contribution(key, m, monday);
    TotalPermutation(Processed(rows, last'), Processed(rows, last) + u, part);
    TotalConcat(Processed(rows, last), u, part);
  }

  lemma SumAppend(u: seq<Row>, r: Row, key: ReportKey, m: Measure, monday: bool)
    ensures Sum(u + [r], key, m, monday) == Sum(u, key, m, monday) + Contribution(key, m, monday)(r)
  {
    TotalConcat(u, [r], Contribution(key, m, monday));
    TotalOne(r, Contribution(key, m, monday));
  }

  class ReportJob {
    const startOfWeekMonday: bool
    /** Tables: the traffic data, the reports, and the last saved and last processed batch id of each cluster. */
    var rows: seq<Row>
    var reports: map<ReportKey, Counts>
    var lastSaved: map<ClusterId, int>
    var lastProcessed: map<ClusterId, int>
    /** The memory of the running job. */
    var trafficReports: map<ReportKey, HeldReport>

    constructor (monday: bool)
      ensures Consistent() && rows == [] && lastSaved == map[] && lastProcessed == map[]
    {
      startOfWeekMonday := monday;
      rows, reports, lastSaved, lastProcessed, trafficReports := [], map[], map[], map[], map[];
    }

    /** A report that has not been created counts as zero. */
    function Stored(key: ReportKey): Counts
      reads this
    {
      if key in reports then reports[key] else ZERO
    }

    function Held(key: ReportKey): Counts
      reads this
    {
      if key in trafficReports then trafficReports[key].counts else Stored(key)
    }

    /** Every stored report is the sum over the processed rows that belong to it. */
    ghost predicate Consistent()
      reads this
    {
      forall key, m :: Stored(key).Get(m) == Sum(Processed(rows, lastProcessed), key, m, startOfWeekMonday)
    }

    /** The job is ahead of the tables by exactly the rows `u`, and the change flags are right. */
    ghost predicate AheadBy(u: seq<Row>)
      reads this
    {
      && (forall key, m :: Held(key).Get(m) == Stored(key).Get(m) + Sum(u, key, m, startOfWeekMonday))
      && FlagsRight()
    }

    ghost predicate FlagsRight()
      reads this
    {
      forall key :: key in trafficReports && !trafficReports[key].changed ==> trafficReports[key].counts == Stored(key)
    }

    /** Gets the report from memory, from the table or as a new empty row of the table, and adds to it. */
    method AddToReport(key: ReportKey, counts: Counts)
      requires FlagsRight()
      modifies this`reports, this`trafficReports
      ensures FlagsRight()
      ensures forall k :: Stored(k) == old(Stored(k))
      ensures forall k :: Held(k) == if k == key then old(Held(k)).Plus(counts) else old(Held(k))
    {
      if key !in trafficReports {
        if key !in reports {
          reports := reports[key := ZERO];
        }
        trafficReports := trafficReports[key := HeldReport(reports[key], false)];
      }
      trafficReports := trafficReports[key := HeldReport(trafficReports[key].counts.Plus(counts), true)];
    }

    function ReportKeys(r: Row, t: ReportType): seq<ReportKey> {
      var start := ReportStart(t, r.startTime, startOfWeekMonday);
      if r.clusterid.Some? then [ReportKey(r.clusterid, t, start), ReportKey(AUTH2, t, start)]
      else [ReportKey(None, t, start)]
    }

    lemma ReportKeysMatch(r: Row, t: ReportType, key: ReportKey)
      ensures key in ReportKeys(r, t) <==> key.reportType == t && Matches(r, key, startOfWeekMonday)
    {
      var start := ReportStart(t, r.startTime, startOfWeekMonday);
      assert ReportKeys(r, t)[0].startTime == start;
      if r.clusterid.Some? {
        assert ReportKeys(r, t)[1].clusterid == AUTH2;
      }
    }

    /** Adds a row to its daily, weekly and monthly reports. */
    method AddRow(r: Row)
      requires FlagsRight() && r.clusterid != AUTH2
      modifies this`reports, this`trafficReports
      ensures FlagsRight()
      ensures forall k :: Stored(k) == old(Stored(k))
      ensures forall k, m :: Held(k).Get(m) == old(Held(k).Get(m)) + Contribution(k, m, startOfWeekMonday)(r)
    {
      for i := 0 to |REPORTS|
        invariant FlagsRight()
        invariant forall k :: Stored(k) == old(Stored(k))
        invariant forall k :: Held(k) == if k.reportType in REPORTS[..i] && Matches(r, k, startOfWeekMonday)
                                         then old(Held(k)).Plus(r.counts) else old(Held(k))
      {
        AddRowToType(r, REPORTS[i]);
      }
      forall k: ReportKey ensures k.reportType in REPORTS[..|REPORTS|] {
        match k.reportType
        case DailyReport => assert REPORTS[0] in REPORTS[..3];
        case WeeklyReport => assert REPORTS[1] in REPORTS[..3];
        case MonthlyReport => assert REPORTS[2] in REPORTS[..3];
      }
    }

    method AddRowToType(r: Row, t: ReportType)
      requires FlagsRight() && r.clusterid != AUTH2
      modifies this`reports, this`trafficReports
      ensures FlagsRight()
      ensures forall k :: Stored(k) == old(Stored(k))
      ensures forall k :: Held(k) == if k.reportType == t && Matches(r, k, startOfWeekMonday)
                                     then old(Held(k)).Plus(r.counts) else old(Held(k))
    {
      var keys := ReportKeys(r, t);
      for j := 0 to |keys|
        invariant FlagsRight()
        invariant forall k :: Stored(k) == old(Stored(k))
        invariant forall k :: Held(k) == if k in keys[..j] then old(Held(k)).Plus(r.counts) else old(Held(k))
      {
        AddToReport(keys[j], r.counts);
      }
      forall k ensures k in keys[..|keys|] <==> k.reportType == t && Matches(r, k, startOfWeekMonday) {
        ReportKeysMatch(r, t, k);
      }
    }

    /** One transaction: the changed reports and the processed batch id; then the flags are reset. */
    method Commit(c: ClusterId, batchid: int)
      requires FlagsRight()
      modifies this`reports, this`lastProcessed, this`trafficReports
      ensures lastProcessed == old(lastProcessed)[c := batchid]
      ensures forall k :: Stored(k) == Held(k) == old(Held(k))
      ensures FlagsRight()
    {
      reports := reports + (map k | k in trafficReports && trafficReports[k].changed :: trafficReports[k].counts);
      lastProcessed := lastProcessed[c := batchid];
      trafficReports := map k | k in trafficReports :: HeldReport(trafficReports[k].counts, false);
    }

    /** All rows of the cluster are processed. */
    ghost predicate Finished(c: ClusterId)
      reads this
    {
      forall r :: r in rows && r.clusterid == c ==> IsProcessed(lastProcessed, r)
    }

    /** Commits the rows `u`, all of one batch, that the job is ahead by. */
    method CommitBatch(c: ClusterId, ghost u: seq<Row>, batchid: int)
      requires Consistent() && AheadBy(u)
      requires multiset(Processed(rows, lastProcessed[c := batchid])) == multiset(Processed(rows, lastProcessed) + u)
      modifies this`reports, this`lastProcessed, this`trafficReports
      ensures Consistent() && AheadBy([])
      ensures lastProcessed == old(lastProcessed)[c := batchid]
    {
      ghost var last := lastProcessed;
      forall key, m ensures Held(key).Get(m) == Sum(Processed(rows, last[c := batchid]), key, m, startOfWeekMonday) {
        SumAfterCommit(rows, last, last[c := batchid], u, key, m, startOfWeekMonday);
      }
      Commit(c, batchid);
    }

    /** Adds the next row, unless it has no requests at all. */
    method ReadRow(r: Row, ghost u: seq<Row>, ghost u': seq<Row>)
      requires u' == u + [r] && Consistent() && AheadBy(u) && r.clusterid != AUTH2
      modifies this`reports, this`trafficReports
      ensures Consistent() && AheadBy(u')
    {
      forall key, m ensures Sum(u', key, m, startOfWeekMonday) ==
                            Sum(u, key, m, startOfWeekMonday) + Contribution(key, m, startOfWeekMonday)(r) {
        SumAppend(u, r, key, m, startOfWeekMonday);
      }
      if !IsEmpty(r) {
        AddRow(r);
      }
    }

    /** The job has committed `j` of the rows of cluster `c` and is ahead by the rows up to `i`. */
    ghost predicate Reading(c: ClusterId, data: seq<Row>, start: map<ClusterId, int>, j: nat, i: nat)
      reads this
    {
      && Position(rows, c, data, start, lastProcessed, j, i)
      && Consistent() && AheadBy(data[j..i])
    }

    /** The batch of the row that was read last. */
    ghost function LastBatch(data: seq<Row>, i: nat): Option<int>
      requires i <= |data|
    {
      if i == 0 then None else Some(data[i - 1].batchid)
    }

    /** Before a row is added: when it starts another batch, the rows read so far are committed. */
    method CommitIfNewBatch(c: ClusterId, data: seq<Row>, i: nat, processing: Option<int>, steps: nat,
                            ghost start: map<ClusterId, int>, ghost j: nat)
      returns (left: nat, crashed: bool, ghost j': nat)
      requires Reading(c, data, start, j, i) && (j == i ==> i == 0) && processing == LastBatch(data, i)
      requires forall t :: 0 <= t < |data| ==> data[t].batchid > BATCHID_END
      modifies this`reports, this`lastProcessed, this`trafficReports
      ensures Consistent() && Grown(rows, start, lastProcessed)
      ensures !crashed ==> Reading(c, data, start, j', i)
      ensures !crashed ==> if i < |data| then j' < i ==> data[i].batchid == data[i - 1].batchid else j' == i
      ensures steps >= 1 ==> !crashed && left >= steps - 1
    {
      left, crashed, j' := steps, false, j;
      var batchid := if i < |data| then data[i].batchid else BATCHID_END;
      if processing.Some? && processing.value != batchid {
        if left == 0 {
          return left, true, j;
        }
        left := left - 1;
        PositionCommit(rows, c, data, start, lastProcessed, j, i, processing.value);
        CommitBatch(c, data[j..i], processing.value);
        j' := i;
        SliceFacts(data, i, i);
      }
    }

    /** One turn of the loop: the commit that is due and the next row. */
    method ReadNext(c: ClusterId, data: seq<Row>, i: nat, processing: Option<int>, steps: nat,
                    ghost start: map<ClusterId, int>, ghost j: nat)
      returns (left: nat, crashed: bool, ghost j': nat)
      requires Reading(c, data, start, j, i) && i < |data| && (j == i ==> i == 0) && processing == LastBatch(data, i)
      requires forall t :: 0 <= t < |data| ==> data[t].batchid > BATCHID_END && data[t].clusterid != AUTH2
      modifies this`reports, this`lastProcessed, this`trafficReports
      ensures Consistent() && Grown(rows, start, lastProcessed)
      ensures !crashed ==> j' <= i && Reading(c, data, start, j', i + 1)
      ensures steps >= 2 ==> !crashed && left >= steps - 2
    {
      left, crashed, j' := CommitIfNewBatch(c, data, i, processing, steps, start, j);
      if crashed || left == 0 {
        return left, true, j';
      }
      left := left - 1;
      PositionRead(rows, c, data, start, lastProcessed, j', i);
      SliceFacts(data, j', i);
      ReadRow(data[i], data[j'..i], data[j'..i + 1]);
    }

    /** The rows of the cluster after its last processed batch id, in the order of their batches. */
    method NewRows(c: ClusterId) returns (data: seq<Row>)
      requires forall r :: r in rows ==> r.batchid > BATCHID_END
      ensures Position(rows, c, data, lastProcessed, lastProcessed, 0, 0)
      ensures forall t :: 0 <= t < |data| ==> data[t].batchid > BATCHID_END && data[t].clusterid == c
      ensures |data| <= |rows|
    {
      data := OrderByBatch(Select(rows, c, lastProcessed));
      PositionStart(rows, c, lastProcessed);
      SelectSize(rows, c, lastProcessed);
      assert |data| == |multiset(data)|;
    }

    /** The loop over the new rows of a cluster; it stops where the process crashes. */
    method ReadAll(c: ClusterId, data: seq<Row>, steps: nat, ghost start: map<ClusterId, int>)
      returns (left: nat, crashed: bool, ghost j: nat)
      requires Reading(c, data, start, 0, 0) && Grown(rows, start, lastProcessed)
      requires forall t :: 0 <= t < |data| ==> data[t].batchid > BATCHID_END && data[t].clusterid != AUTH2
      modifies this`reports, this`lastProcessed, this`trafficReports
      ensures Consistent() && Grown(rows, start, lastProcessed)
      ensures !crashed ==> Reading(c, data, start, j, |data|) && (j == |data| ==> |data| == 0)
      ensures steps >= 2 * |data| ==> !crashed && left >= steps - 2 * |data|
    {
      hide Position, Consistent, AheadBy;
      left, crashed, j := steps, false, 0;
      var processingBatchid: Option<int> := None;
      for i := 0 to |data|
        invariant Reading(c, data, start, j, i) && (j == i ==> i == 0) && Grown(rows, start, lastProcessed)
        invariant processingBatchid == LastBatch(data, i)
        invariant steps >= 2 * |data| ==> left >= steps - 2 * i
      {
        left, crashed, j := ReadNext(c, data, i, processingBatchid, left, start, j);
        if crashed {
          return;
        }
        processingBatchid := Some(data[i].batchid);
      }
    }

    /** A row needs at most two steps, for a commit and for reading it, and the last batch one more. */
    static function StepsFor(rows: seq<Row>): nat {
      2 * |rows| + 1
    }

    /** That for every cluster. */
    static function StepsForAll(clusters: nat, rows: seq<Row>): nat {
      if clusters == 0 then 0 else StepsForAll(clusters - 1, rows) + StepsFor(rows)
    }

    /** One cluster: its new rows, and the fake row at their end, which belongs to no batch and so commits the last
        one. */
    method ProcessCluster(c: ClusterId, steps: nat) returns (left: nat, crashed: bool)
      requires c != AUTH2 && Consistent() && AheadBy([])
      requires forall r :: r in rows ==> r.batchid > BATCHID_END
      modifies this`reports, this`lastProcessed, this`trafficReports
      ensures Consistent() && Grown(rows, old(lastProcessed), lastProcessed)
      ensures !crashed ==> AheadBy([]) && Finished(c)
      ensures steps >= StepsFor(rows) ==> !crashed && left >= steps - StepsFor(rows)
    {
      var data := NewRows(c);
      ghost var start, j := lastProcessed, 0;
      SliceFacts(data, 0, 0);
      left, crashed, j := ReadAll(c, data, steps, start);
      if !crashed {
        var processingBatchid := if data == [] then None else Some(data[|data| - 1].batchid);
        left, crashed, j := CommitIfNewBatch(c, data, |data|, processingBatchid, left, start, j);
        if !crashed {
          PositionEnd(rows, c, data, start, lastProcessed);
          SliceFacts(data, |data|, |data|);
        }
      }
    }

    static lemma SliceFacts(data: seq<Row>, j: nat, i: nat)
      requires j <= i <= |data|
      ensures j == i ==> data[j..i] == []
      ensures i < |data| ==> data[j..i] + [data[i]] == data[j..i + 1]
    {
    }

    /**
     * _populate_reports over the clusters, in any order; `steps` is how far the process gets. Whether it
     * ends or crashes, every stored report is the sum of the processed rows, so a rerun counts no row twice
     * and leaves none out. It ends when it gets two steps for each row and one more, for every cluster.
     */
    method PopulateReports(clusters: seq<ClusterId>, steps: nat) returns (crashed: bool)
      requires Consistent() && AUTH2 !in clusters
      requires forall r :: r in rows ==> r.batchid > BATCHID_END
      modifies this`reports, this`lastProcessed, this`trafficReports
      ensures rows == old(rows) && Consistent() && Grown(rows, old(lastProcessed), lastProcessed)
      ensures !crashed ==> forall c :: c in clusters ==> Finished(c)
      ensures steps >= StepsForAll(|clusters|, rows) ==> !crashed
    {
      trafficReports := map[];
      var left: nat := steps;
      crashed := false;
      for i := 0 to |clusters|
        invariant rows == old(rows) && Consistent() && AheadBy([])
        invariant Grown(rows, old(lastProcessed), lastProcessed)
        invariant forall k :: 0 <= k < i ==> Finished(clusters[k])
        invariant steps >= StepsForAll(|clusters|, rows) ==> left >= StepsForAll(|clusters| - i, rows)
      {
        ghost var before := lastProcessed;
        left, crashed := ProcessCluster(clusters[i], left);
        GrownTransitive(rows, old(lastProcessed), before, lastProcessed);
        if crashed {
          return;
        }
      }
    }

    /** A new row keeps the reports right exactly when it comes with a batch id that is not processed yet, or counts
        nothing. */
    method SaveRow(r: Row)
      requires Consistent()
      modifies this`rows
      ensures rows == old(rows) + [r]
      ensures Consistent() <==> !IsProcessed(lastProcessed, r) || r.counts == ZERO
    {
      ghost var before := rows;
      rows := rows + [r];
      SavedRow(before, r);
    }

    lemma SavedRow(before: seq<Row>, r: Row)
      requires rows == before + [r]
      requires forall key, m :: Stored(key).Get(m) == Sum(Processed(before, lastProcessed), key, m, startOfWeekMonday)
      ensures Consistent() <==> !IsProcessed(lastProcessed, r) || r.counts == ZERO
    {
      var done := Processed(before, lastProcessed);
      assert rows[..|rows| - 1] == before;
      assert Processed(rows, lastProcessed) == done + if IsProcessed(lastProcessed, r) then [r] else [];
      forall key, m ensures Sum(Processed(rows, lastProcessed), key, m, startOfWeekMonday) ==
            Sum(done, key, m, startOfWeekMonday) +
            if IsProcessed(lastProcessed, r) then Contribution(key, m, startOfWeekMonday)(r) else 0
      {
        SumAppend(done, r, key, m, startOfWeekMonday);
        assert done + [] == done;
      }
      var own := ReportKey(r.clusterid, DailyReport, ReportStart(DailyReport, r.startTime, startOfWeekMonday));
      forall m ensures Contribution(own, m, startOfWeekMonday)(r) == r.counts.Get(m) {
      }
      if Consistent() && IsProcessed(lastProcessed, r) {
        assert forall m :: Stored(own).Get(m) == Sum(Processed(rows, lastProcessed), own, m, startOfWeekMonday);
        assert r.counts.Get(Requests) == 0 && r.counts.Get(GetRemoteSessions) == 0 &&
               r.counts.Get(DeleteRemoteSessions) == 0;
      }
    }

    /** A weekly or monthly report holds the sum of the daily reports of its days. */
    lemma ReportsRollUp(clusterid: ClusterId, t: ReportType, dt: LocalTime, m: Measure)
      requires Consistent()
      ensures var (first, end) := PeriodDays(t, dt, startOfWeekMonday);
              && first <= end
              && Stored(ReportKey(clusterid, t, ReportStart(t, dt, startOfWeekMonday))).Get(m) ==
                 StoredDays(clusterid, ReportStart(t, dt, startOfWeekMonday), end - first, m)
    {
      var (first, end) := PeriodDays(t, dt, startOfWeekMonday);
      RollUp(Processed(rows, lastProcessed), clusterid, t, dt, m, startOfWeekMonday);
      StoredDaysSum(clusterid, ReportStart(t, dt, startOfWeekMonday), end - first, m);
    }

    /** The daily reports of `n` consecutive days together. */
    ghost function StoredDays(clusterid: ClusterId, start: int, n: nat, m: Measure): int
      reads this
    {
      if n == 0 then 0
      else
        StoredDays(clusterid, start, n - 1, m) +
        Stored(ReportKey(clusterid, DailyReport, start + (n - 1) * DAY)).Get(m)
    }

    lemma {:induction false} StoredDaysSum(clusterid: ClusterId, start: int, n: nat, m: Measure)
      requires Consistent()
      ensures StoredDays(clusterid, start, n, m) ==
              DailySums(Processed(rows, lastProcessed), clusterid, start, n, m, startOfWeekMonday)
      decreases n
    {
      if n > 0 {
        StoredDaysSum(clusterid, start, n - 1, m);
        assert Stored(ReportKey(clusterid, DailyReport, start + (n - 1) * DAY)).Get(m) ==
               Sum(Processed(rows, lastProcessed), ReportKey(clusterid, DailyReport, start + (n - 1) * DAY), m,
                   startOfWeekMonday);
      }
    }
  }
}
