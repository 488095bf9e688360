/** One run of the synchronizer: the freshness gate, the start of the
    requested range, the fetch of every region and the merge into the table
    (update.py:30-32, 36-56, 80-86). The clock and the file's modification
    time arrive as parameters. */
module Sync {
  import opened Rows
  import opened Coverage
  import opened Pagination
  import opened Merge

  /** The display window reaches back three days from now. */
  const LookbackSeconds: int := 3 * 24 * 60 * 60
  /** A table written within the last ten minutes is not refreshed. */
  const FreshnessSeconds: int := 10 * 60

  /** What loading the persisted table produced: its rows and the time it was
      last written, or a failure (missing file, unreadable contents). */
  datatype Load = LoadFailed | Loaded(rows: seq<Row>, lastUpdate: int)

  /** `last_update`: the file's modification time, `datetime.min` after a
      failed load. */
  function LastUpdate(load: Load): int
  {
    match load
    case LoadFailed => MinInstant
    case Loaded(_, t) => t
  }

  /** `min_timestamp` and `max_timestamp` as the loader leaves them. */
  function PriorWindow(load: Load): Window
  {
    match load
    case LoadFailed => FallbackWindow()
    case Loaded(rows, _) => CoverageOf(rows)
  }

  /** The freshness gate `now - last_update > 10 minutes`. */
  predicate ShouldFetch(now: int, lastUpdate: int)
  {
    now - lastUpdate > FreshnessSeconds
  }

  /** `start_request`: the prior table's `max_timestamp` when its
      `min_timestamp` lies before the window start, else the window start.
      A comparison with NaT (an empty table) is false. */
  function StartRequest(w: Window, start: int): (t: int)
    ensures t == start || (w.Window? && w.minTimestamp < start && t == w.maxTimestamp)
  {
    if w.Window? && w.minTimestamp < start then w.maxTimestamp else start
  }

  /** In terms of the table: the request resumes from the earliest per-zone
      maximum exactly when every zone already has a sample before the window
      start, and every zone then has a sample at or after the resume point,
      so no zone is left with a gap; otherwise the whole window is asked
      for. */
  lemma StartRequestResumesOnlyWithoutGaps(rows: seq<Row>, start: int)
    ensures var t := StartRequest(CoverageOf(rows), start);
      && (t != start ==> rows != [] && EveryZoneSampledBy(rows, start - 1) && EveryZoneSampledFrom(rows, t))
      && (rows != [] && EveryZoneSampledBy(rows, start - 1) ==> t == CoverageOf(rows).maxTimestamp)
      && (rows == [] ==> t == start)
  {
    if rows != [] {
      MinTimestampIsEarliestFullCoverage(rows, start - 1);
      MaxTimestampIsLatestFullCoverage(rows, CoverageOf(rows).maxTimestamp);
    }
  }

  /** After a failed load the fetch always happens (the clock reads later
      than ten minutes past `datetime.min`) and always covers the whole
      window. */
  lemma FailedLoadFetchesWholeWindow(now: int)
    requires MinInstant + FreshnessSeconds < now <= MaxInstant
    ensures ShouldFetch(now, LastUpdate(LoadFailed))
    ensures StartRequest(PriorWindow(LoadFailed), now - LookbackSeconds) == now - LookbackSeconds
  {
  }

  /** The outcome of one run: the loaded table kept as it is (it is fresh),
      a refreshed table (written back to the file), or an abort. The source
      aborts when the fetch returned no record at all: the frame built from
      an empty list has no `Timestamp` column, so the lookup at update.py:82
      raises outside any `try`, before the merge and before the file is
      written. */
  datatype Outcome =
    | Kept(table: seq<Row>)
    | Refreshed(startRequest: int, table: seq<Row>)
    | Aborted(startRequest: int)

  /** One run: when the table is stale, fetch every region from
      `start_request` and merge; otherwise keep the loaded table. `answers`
      holds, per region, the pages the API answers with. */
  method Synchronize(load: Load, now: int, regions: seq<string>, answers: seq<seq<Page>>)
    returns (out: Outcome)
    requires MinInstant + FreshnessSeconds < now
    requires |answers| == |regions|
    requires forall r :: 0 <= r < |answers| ==> Terminates(answers[r])
    ensures out.Kept? <==> !ShouldFetch(now, LastUpdate(load))
    ensures out.Kept? ==> load.Loaded? && out.table == load.rows
    ensures !out.Kept? ==> out.startRequest == StartRequest(PriorWindow(load), now - LookbackSeconds)
    ensures out.Aborted? <==> ShouldFetch(now, LastUpdate(load)) && AllCollected(regions, answers) == []
    ensures out.Refreshed? ==> out.table == MergeFetched(
      if load.Loaded? then Some(load.rows) else None, AllCollected(regions, answers))
  {
    var start := now - LookbackSeconds;
    var lastUpdate := LastUpdate(load);
    if now - lastUpdate > FreshnessSeconds {
      var startRequest := StartRequest(PriorWindow(load), start);
      var fetched := FetchAll(regions, answers);
      if fetched == [] {
        out := Aborted(startRequest);
      } else {
        var prior := if load.Loaded? then Some(load.rows) else None;
        out := Refreshed(startRequest, MergeFetched(prior, fetched));
      }
    } else {
      out := Kept(load.rows);
    }
  }
}
