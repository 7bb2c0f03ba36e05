/** The earlier `resample_to_quarter_hour`: the same per-sensor nearest
    matching onto the same grid, but with one inexact-flag column and one
    stale-flag column per sensor, stale meaning four equal readings in a row
    (zeros and text included), and fewer statistics. */
module ResampleV7 {
  import opened Types
  import opened Clock
  import opened Grid
  import opened Matcher
  import opened Stale
  import opened Counting
  import opened Table

  datatype Stats = Stats(
    totalIntervals: nat,
    totalInexactMatches: nat,
    staleBySensor: seq<nat>,
    totalStale: nat,
    start: int,
    end: int)

  /** The resampled table: values, `<sensor>_Inexact_Flag` and
      `<sensor>_Stale_Flag` columns, each indexed [sensor][row]. */
  datatype Resampled = Resampled(
    dates: seq<int>,
    names: seq<string>,
    columns: seq<seq<Cell>>,
    inexactFlags: seq<seq<bool>>,
    staleFlags: seq<seq<bool>>)

  datatype Output = Output(table: Resampled, stats: Stats)

  /** Every part of the output has one entry per grid row and per sensor. */
  predicate Shaped(o: Output, sensors: nat)
  {
    var rows := |o.table.dates|;
    && |o.table.names| == sensors
    && |o.table.columns| == sensors
    && (forall s :: 0 <= s < sensors ==> |o.table.columns[s]| == rows)
    && |o.table.inexactFlags| == sensors && Rectangular(o.table.inexactFlags, rows)
    && |o.table.staleFlags| == sensors && Rectangular(o.table.staleFlags, rows)
    && |o.stats.staleBySensor| == sensors
    && o.stats.totalIntervals == rows
  }

  /** The stale pass over a matched frame. */
  function Tabulate(f: Frame, grid: seq<int>): (t: Resampled)
    requires Fits(f, |grid|)
    ensures t.dates == grid && t.names == f.names && t.columns == f.columns && t.inexactFlags == f.inexact
    ensures |t.staleFlags| == |f.columns| && Rectangular(t.staleFlags, |grid|)
  {
    Resampled(grid, f.names, f.columns, f.inexact, StaleMatrixV7(f.columns, |grid|))
  }

  /** The statistics of a matched frame. */
  function Summarize(f: Frame, grid: seq<int>): (st: Stats)
    requires |grid| > 0 && Fits(f, |grid|)
    ensures st.totalIntervals == |grid| && |st.staleBySensor| == |f.columns|
  {
    var staleCounts := RowCounts(StaleMatrixV7(f.columns, |grid|));
    Stats(|grid|, TotalCount(f.inexact), staleCounts, Sum(staleCounts), grid[0], grid[|grid| - 1])
  }

  /** Both results over a matched frame. */
  function Assemble(f: Frame, grid: seq<int>): (o: Output)
    requires |grid| > 0 && Fits(f, |grid|)
    ensures o.table == Tabulate(f, grid) && o.stats == Summarize(f, grid)
    ensures Shaped(o, |f.columns|)
  {
    Output(Tabulate(f, grid), Summarize(f, grid))
  }

  /** The output over a given grid of at least one instant. */
  function Build(stores: seq<SensorStore>, grid: seq<int>, tol: int): (o: Output)
    requires |grid| > 0
    ensures o.table.dates == grid && o.table.names == Names(stores)
    ensures Shaped(o, |stores|)
  {
    Assemble(MatchFrame(stores, grid, tol), grid)
  }

  /** `resample_to_quarter_hour(combined_df, tolerance_minutes)`: nothing
      for an input without samples; otherwise the table over the
      quarter-hour grid of the observed time range. */
  function Resample(stores: seq<SensorStore>, toleranceMinutes: int): (r: Option<Output>)
    ensures r.None? <==> |AllTimes(stores)| == 0
    ensures r.Some? ==>
      && r.value.table.dates == SampleGrid(stores)
      && r.value == Build(stores, r.value.table.dates, toleranceMinutes * SecondsPerMinute)
      && Shaped(r.value, |stores|)
  {
    if |AllTimes(stores)| == 0 then None
    else Some(Build(stores, SampleGrid(stores), toleranceMinutes * SecondsPerMinute))
  }

  /** Each cell is missing, with a false inexact flag, exactly when no
      non-missing sample of its sensor lies within the tolerance of the row's
      instant; otherwise it copies the earliest-listed closest such sample,
      and its inexact flag says whether that sample lay off the
      quarter-hour. */
  lemma CellIsNearestSample(stores: seq<SensorStore>, grid: seq<int>, tol: int, r: nat, s: nat)
    requires r < |grid| && s < |stores|
    ensures var t := Build(stores, grid, tol).table;
      var samples := stores[s].samples;
      && (t.columns[s][r] == Missing <==> NoneEligible(samples, grid[r], tol))
      && (t.columns[s][r] == Missing ==> !t.inexactFlags[s][r])
      && (t.columns[s][r] != Missing ==>
            exists i :: IsNearest(samples, grid[r], tol, i)
              && t.columns[s][r] == samples[i].value
              && (t.inexactFlags[s][r] <==> !IsOnQuarterHour(samples[i].t)))
  {
    var m := MatchCell(stores[s].samples, grid[r], tol);
    var f := MatchFrame(stores, grid, tol);
    assert Build(stores, grid, tol) == Assemble(f, grid);
    assert f.columns[s][r] == m.value && f.inexact[s][r] == m.inexact;
  }

  /** A cell is flagged stale exactly when it closes a run of four or more
      equal non-missing readings; zeros and text are flagged like any other
      value, and the first three rows never are. */
  lemma StaleFlagsAreRunsOfFour(f: Frame, grid: seq<int>, s: nat, r: nat)
    requires Fits(f, |grid|) && s < |f.columns| && r < |grid|
    ensures var t := Tabulate(f, grid);
      && (t.staleFlags[s][r] <==> RunLength(f.columns[s], r) >= 4)
      && (r < 3 ==> !t.staleFlags[s][r])
  {
    StaleV7IffRunOfFour(f.columns[s], r);
  }

  /** The statistics agree with the table: the inexact total is the number
      of set inexact flags, counted sensor by sensor or row by row alike;
      each sensor's stale count is the number of its set stale flags and the
      stale total is their sum; the date range is the grid's. */
  lemma StatsMatchTable(f: Frame, grid: seq<int>)
    requires Fits(f, |grid|) && |grid| > 0
    ensures var o := Assemble(f, grid);
      && o.stats.totalInexactMatches == TotalCount(o.table.inexactFlags)
      && o.stats.totalInexactMatches == TotalCount(Transpose(o.table.inexactFlags, |grid|))
      && (forall s :: 0 <= s < |f.columns| ==> o.stats.staleBySensor[s] == CountTrue(o.table.staleFlags[s]))
      && o.stats.totalStale == Sum(o.stats.staleBySensor)
      && o.stats.totalStale == TotalCount(o.table.staleFlags)
      && o.stats.start == grid[0] && o.stats.end == grid[|grid| - 1]
  {
    CountInterchange(f.inexact, |grid|);
  }
}
