/** trafficdata.save2db run after run: new rows are saved with a new batch id, then the reports are populated. */
module TrafficRuns {
  import opened TrafficSums
  import opened TrafficReports

  /** The rows of a cluster, saved in one transaction together with their batch id. */
  datatype Saved = Saved(clusterid: ClusterId, rows: seq<Row>)

  /**
   * One call of save2db: the batch id from the clock, what is saved for the clusters whose data could be
   * saved, the clusters whose reports are populated, and how far the process gets with that.
   */
  datatype Run = Run(batchid: int, saved: seq<Saved>, clusters: seq<ClusterId>, steps: nat)

  predicate IsValidSaved(s: Saved, batchid: int) {
    s.clusterid != AUTH2 && forall r :: r in s.rows ==> r.clusterid == s.clusterid && r.batchid == batchid
  }

  predicate IsValidRun(run: Run) {
    && run.batchid > BATCHID_END && AUTH2 !in run.clusters
    && forall s :: s in run.saved ==> IsValidSaved(s, run.batchid)
  }

  /** Some saved batch id is not before the new one: the clock went back, and save2db raises. */
  predicate ClockBack(lastSaved: map<ClusterId, int>, batchid: int) {
    exists c :: c in lastSaved && lastSaved[c] >= batchid
  }

  function SavedBatches(lastSaved: map<ClusterId, int>, saved: seq<Saved>, batchid: int): map<ClusterId, int> {
    if saved == [] then lastSaved
    else SavedBatches(lastSaved, saved[..|saved| - 1], batchid)[saved[|saved| - 1].clusterid := batchid]
  }

  function RowsOf(saved: seq<Saved>): seq<Row> {
    if saved == [] then [] else RowsOf(saved[..|saved| - 1]) + saved[|saved| - 1].rows
  }

  // ----- What the runs save -----

  function LastSavedAfter(lastSaved: map<ClusterId, int>, runs: seq<Run>): map<ClusterId, int> {
    if runs == [] then lastSaved
    else
      var before, run := LastSavedAfter(lastSaved, runs[..|runs| - 1]), runs[|runs| - 1];
      if ClockBack(before, run.batchid) then before else SavedBatches(before, run.saved, run.batchid)
  }

  /** The rows of all runs but those that raise. */
  function RowsSaved(lastSaved: map<ClusterId, int>, runs: seq<Run>): seq<Row> {
    if runs == [] then []
    else
      var before, run := runs[..|runs| - 1], runs[|runs| - 1];
      RowsSaved(lastSaved, before) +
      if ClockBack(LastSavedAfter(lastSaved, before), run.batchid) then [] else RowsOf(run.saved)
  }

  /** The rows of all clusters are saved, those of one after those of another. */
  lemma RowsOfAll(saved: seq<Saved>, s: Saved)
    ensures RowsOf([]) == [] && RowsOf(saved + [s]) == RowsOf(saved) + s.rows
  {
    assert (saved + [s])[..|saved|] == saved;
  }

  /** The clock has not gone back exactly when every saved batch id is before the new one. */
  lemma ClockBackExactly(lastSaved: map<ClusterId, int>, batchid: int)
    ensures !ClockBack(lastSaved, batchid) <==> forall c :: c in lastSaved ==> lastSaved[c] < batchid
  {
  }

  /** One more run adds its rows and batch ids, unless the clock went back. */
  lemma OneMoreRun(lastSaved: map<ClusterId, int>, runs: seq<Run>, run: Run)
    ensures RowsSaved(lastSaved, []) == [] && LastSavedAfter(lastSaved, []) == lastSaved
    ensures var before, after := LastSavedAfter(lastSaved, runs), LastSavedAfter(lastSaved, runs + [run]);
            if ClockBack(before, run.batchid)
            then after == before && RowsSaved(lastSaved, runs + [run]) == RowsSaved(lastSaved, runs)
            else
              && RowsSaved(lastSaved, runs + [run]) == RowsSaved(lastSaved, runs) + RowsOf(run.saved)
              && forall c ::
                   if exists s :: s in run.saved && s.clusterid == c then c in after && after[c] == run.batchid
                             else (c in before <==> c in after) && (c in before ==> after[c] == before[c])
  {
    hide ClockBack;
    assert (runs + [run])[..|runs|] == runs;
    SavedBatchIds(LastSavedAfter(lastSaved, runs), run.saved, run.batchid);
    hide SavedBatches, RowsOf;
  }

  lemma {:induction false} SavedBatchIds(lastSaved: map<ClusterId, int>, saved: seq<Saved>, batchid: int)
    ensures forall c :: if exists s :: s in saved && s.clusterid == c
                        then c in SavedBatches(lastSaved, saved, batchid) &&
                             SavedBatches(lastSaved, saved, batchid)[c] == batchid
                        else (c in lastSaved <==> c in SavedBatches(lastSaved, saved, batchid)) &&
                             (c in lastSaved ==> SavedBatches(lastSaved, saved, batchid)[c] == lastSaved[c])
    decreases |saved|
  {
    if saved != [] {
      var front, last := saved[..|saved| - 1], saved[|saved| - 1];
      SavedBatchIds(lastSaved, front, batchid);
      assert forall s :: s in saved <==> s in front || s == last;
    }
  }

  // ----- What every run keeps -----

  ghost predicate SavedBefore(rows: seq<Row>, lastSaved: map<ClusterId, int>) {
    forall r :: r in rows ==> r.batchid > BATCHID_END && r.clusterid in lastSaved && r.batchid <= lastSaved[r.clusterid]
  }

  ghost predicate ProcessedBefore(lastProcessed: map<ClusterId, int>, lastSaved: map<ClusterId, int>) {
    forall c :: c in lastProcessed ==> c in lastSaved && lastProcessed[c] <= lastSaved[c]
  }

  ghost predicate Valid(job: ReportJob)
    reads job
  {
    && job.Consistent()
    && SavedBefore(job.rows, job.lastSaved) && ProcessedBefore(job.lastProcessed, job.lastSaved)
  }

  /** What has grown is a batch id of a row, and so has been saved. */
  lemma GrownIsSaved(rows: seq<Row>, before: map<ClusterId, int>, after: map<ClusterId, int>,
                     lastSaved: map<ClusterId, int>)
    requires Grown(rows, before, after) && SavedBefore(rows, lastSaved) && ProcessedBefore(before, lastSaved)
    ensures ProcessedBefore(after, lastSaved)
  {
  }

  /** Every batch id is before the one of the run. */
  ghost predicate AllBefore(lastProcessed: map<ClusterId, int>, batchid: int) {
    forall c :: c in lastProcessed ==> lastProcessed[c] < batchid
  }

  lemma NoClockBack(lastProcessed: map<ClusterId, int>, lastSaved: map<ClusterId, int>, batchid: int)
    requires ProcessedBefore(lastProcessed, lastSaved) && !ClockBack(lastSaved, batchid)
    ensures AllBefore(lastProcessed, batchid)
    ensures forall c :: c in lastSaved ==> lastSaved[c] < batchid
  {
  }

  /** Rows and batch id of one cluster are saved. */
  lemma SavedKeeps(rows: seq<Row>, s: Saved, lastProcessed: map<ClusterId, int>, lastSaved: map<ClusterId, int>,
                   batchid: int)
    requires SavedBefore(rows, lastSaved) && ProcessedBefore(lastProcessed, lastSaved)
    requires IsValidSaved(s, batchid) && batchid > BATCHID_END && forall c :: c in lastSaved ==> lastSaved[c] <= batchid
    ensures SavedBefore(rows + s.rows, lastSaved[s.clusterid := batchid])
    ensures ProcessedBefore(lastProcessed, lastSaved[s.clusterid := batchid])
  {
  }

  /** The transaction that saves the rows of one cluster. */
  method SaveData(job: ReportJob, s: Saved, batchid: int)
    requires Valid(job) && IsValidSaved(s, batchid) && batchid > BATCHID_END && AllBefore(job.lastProcessed, batchid)
    requires forall c :: c in job.lastSaved ==> job.lastSaved[c] <= batchid
    modifies job`rows, job`lastSaved
    ensures Valid(job)
    ensures job.rows == old(job.rows) + s.rows && job.lastSaved == old(job.lastSaved)[s.clusterid := batchid]
  {
    SavedKeeps(job.rows, s, job.lastProcessed, job.lastSaved, batchid);
    for i := 0 to |s.rows|
      invariant job.Consistent() && job.rows == old(job.rows) + s.rows[..i] && job.lastSaved == old(job.lastSaved)
    {
      assert s.rows[i] in s.rows && s.rows[..i + 1] == s.rows[..i] + [s.rows[i]];
      job.SaveRow(s.rows[i]);
    }
    assert s.rows[..|s.rows|] == s.rows;
    job.lastSaved := job.lastSaved[s.clusterid := batchid];
  }

  method SaveAllData(job: ReportJob, saved: seq<Saved>, batchid: int)
    requires Valid(job) && AllBefore(job.lastProcessed, batchid) && batchid > BATCHID_END
    requires forall s :: s in saved ==> IsValidSaved(s, batchid)
    requires forall c :: c in job.lastSaved ==> job.lastSaved[c] <= batchid
    modifies job`rows, job`lastSaved
    ensures Valid(job)
    ensures job.rows == old(job.rows) + RowsOf(saved)
    ensures job.lastSaved == SavedBatches(old(job.lastSaved), saved, batchid)
  {
    hide Valid, IsValidSaved;
    assert old(job.rows) + [] == old(job.rows);
    for i := 0 to |saved|
      invariant Valid(job) && job.rows == old(job.rows) + RowsOf(saved[..i])
      invariant job.lastSaved == SavedBatches(old(job.lastSaved), saved[..i], batchid)
      invariant forall c :: c in job.lastSaved ==> job.lastSaved[c] <= batchid
    {
      assert saved[..i + 1][..i] == saved[..i] && saved[i] in saved;
      SaveData(job, saved[i], batchid);
      assert (old(job.rows) + RowsOf(saved[..i])) + saved[i].rows == old(job.rows) + RowsOf(saved[..i + 1]);
    }
    assert saved[..|saved|] == saved;
  }

  /** save2db; it raises before it saves anything when the clock went back, and may crash while it populates. */
  method Save2Db(job: ReportJob, run: Run) returns (raised: bool, crashed: bool)
    requires Valid(job) && IsValidRun(run)
    modifies job
    ensures Valid(job)
    ensures raised <==> ClockBack(old(job.lastSaved), run.batchid)
    ensures raised ==> unchanged(job)
    ensures !raised ==> job.rows == old(job.rows) + RowsOf(run.saved)
    ensures !raised ==> job.lastSaved == SavedBatches(old(job.lastSaved), run.saved, run.batchid)
    ensures !raised && !crashed ==> forall c :: c in run.clusters ==> job.Finished(c)
    ensures raised || run.steps >= ReportJob.StepsForAll(|run.clusters|, job.rows) ==> !crashed
  {
    raised, crashed := ClockBack(job.lastSaved, run.batchid), false;
    if !raised {
      NoClockBack(job.lastProcessed, job.lastSaved, run.batchid);
      SaveAllData(job, run.saved, run.batchid);
      ghost var before := job.lastProcessed;
      crashed := job.PopulateReports(run.clusters, run.steps);
      GrownIsSaved(job.rows, before, job.lastProcessed, job.lastSaved);
    }
  }

  /** When all clusters are finished no row is left out. */
  lemma {:induction false} AllProcessed(rows: seq<Row>, lastProcessed: map<ClusterId, int>)
    requires forall r :: r in rows ==> IsProcessed(lastProcessed, r)
    ensures Processed(rows, lastProcessed) == rows
    decreases |rows|
  {
    if rows != [] {
      AllProcessed(rows[..|rows| - 1], lastProcessed);
      assert rows[|rows| - 1] in rows;
    }
  }

  /** Every report is the sum over all rows that have been saved. */
  ghost predicate Complete(job: ReportJob)
    reads job
  {
    forall key, m :: job.Stored(key).Get(m) == Sum(job.rows, key, m, job.startOfWeekMonday)
  }

  lemma FinishedIsComplete(job: ReportJob, clusters: seq<ClusterId>)
    requires Valid(job) && (forall c :: c in clusters ==> job.Finished(c))
    requires forall c :: c in job.lastSaved ==> c in clusters
    ensures Complete(job)
  {
    forall r | r in job.rows ensures IsProcessed(job.lastProcessed, r) {
      assert job.Finished(r.clusterid);
    }
    AllProcessed(job.rows, job.lastProcessed);
  }

  /** What the last of the runs returned. */
  datatype Ending = NoRun | Raised | Crashed | Ended

  /** The last run raises exactly when the clock went back, gets to its end with enough steps, and is complete then. */
  ghost predicate EndsRight(job: ReportJob, runs: seq<Run>, lastSaved: map<ClusterId, int>, ending: Ending)
    reads job
  {
    if runs == [] then ending == NoRun
    else
      var before, last := runs[..|runs| - 1], runs[|runs| - 1];
      && (ending == Raised <==> ClockBack(LastSavedAfter(lastSaved, before), last.batchid))
      && (ending == Crashed ==> last.steps < ReportJob.StepsForAll(|last.clusters|, job.rows))
      && (ending == Ended && (forall c :: c in job.lastSaved ==> c in last.clusters) ==> Complete(job))
      && ending != NoRun
  }

  /** The tables hold the rows of all runs that did not raise. */
  ghost predicate Served(job: ReportJob, runs: seq<Run>, rows: seq<Row>, lastSaved: map<ClusterId, int>, ending: Ending)
    reads job
  {
    && Valid(job)
    && job.rows == rows + RowsSaved(lastSaved, runs)
    && job.lastSaved == LastSavedAfter(lastSaved, runs)
    && EndsRight(job, runs, lastSaved, ending)
  }

  /** One more run. */
  method ServeNext(job: ReportJob, runs: seq<Run>, run: Run, ghost rows: seq<Row>, ghost lastSaved: map<ClusterId, int>,
                   ghost ending: Ending)
    returns (ending': Ending)
    requires Served(job, runs, rows, lastSaved, ending) && IsValidRun(run)
    modifies job
    ensures Served(job, runs + [run], rows, lastSaved, ending')
  {
    hide Valid, IsValidRun, ReportJob.Finished, Complete, ClockBack, ReportJob.StepsForAll;
    assert (runs + [run])[..|runs|] == runs;
    ghost var before := job.rows;
    var raised, crashed := Save2Db(job, run);
    ending' := if raised then Raised else if crashed then Crashed else Ended;
    assert before + [] == before;
    assert (rows + RowsSaved(lastSaved, runs)) + RowsOf(run.saved) ==
           rows + (RowsSaved(lastSaved, runs) + RowsOf(run.saved));
    if ending' == Ended && forall c :: c in job.lastSaved ==> c in run.clusters {
      FinishedIsComplete(job, run.clusters);
    }
  }

  /**
   * Over any runs, whenever the clock goes back and wherever a process crashes: the table holds the rows of
   * all runs that did not raise, and the reports count every processed row once. A run with enough steps
   * gets to its end, and when it populates the reports of all clusters that have saved anything, no row is
   * left out.
   */
  method Serve(job: ReportJob, runs: seq<Run>) returns (ending: Ending)
    requires Valid(job) && forall run :: run in runs ==> IsValidRun(run)
    modifies job
    ensures Served(job, runs, old(job.rows), old(job.lastSaved), ending)
  {
    ending := NoRun;
    assert old(job.rows) + [] == old(job.rows);
    for i := 0 to |runs|
      invariant Served(job, runs[..i], old(job.rows), old(job.lastSaved), ending)
    {
      hide Served, IsValidRun;
      assert runs[..i] + [runs[i]] == runs[..i + 1];
      ending := ServeNext(job, runs[..i], runs[i], old(job.rows), old(job.lastSaved), ending);
    }
    assert runs[..|runs|] == runs;
  }
}
