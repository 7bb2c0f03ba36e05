/** The newer `resample_to_quarter_hour`: per-sensor nearest matching onto
    the quarter-hour grid, a row-major table of inexact cells, stale flags
    from runs of three equal non-zero readings consolidated per row, the
    per-row zero classification, and the summary statistics. */
module ResampleV10 {
  import opened Types
  import opened Clock
  import opened Grid
  import opened Matcher
  import opened Stale
  import opened ZeroFlags
  import opened Counting
  import opened Table

  /** Default half-width of the matching window, in minutes. */
  const DefaultToleranceMinutes: int := 2

  datatype ZeroCounts = ZeroCounts(clear: nat, single: nat, repeated: nat)

  datatype Stats = Stats(
    totalIntervals: nat,
    totalInexactCells: nat,
    staleBySensor: seq<nat>,
    totalStaleFlags: nat,
    rowsWithStaleData: nat,
    zeroFlagCounts: ZeroCounts,
    start: int,
    end: int)

  /** The resampled table: `columns` is indexed [sensor][row]; the stale
      and zero columns hold one entry per row. */
  datatype Resampled = Resampled(
    dates: seq<int>,
    names: seq<string>,
    columns: seq<seq<Cell>>,
    staleDataFlag: seq<bool>,
    staleSensors: seq<seq<string>>,
    zeroValueFlag: seq<ZeroFlag>)

  /** The table, its statistics and the inexact-cell map, indexed
      [row][sensor]. */
  datatype Output = Output(table: Resampled, stats: Stats, inexactCells: seq<seq<bool>>)

  /** Every part of the output has one entry per grid row and per sensor. */
  predicate Shaped(o: Output, sensors: nat)
  {
    var rows := |o.table.dates|;
    && |o.table.names| == sensors
    && |o.table.columns| == sensors
    && (forall s :: 0 <= s < sensors ==> |o.table.columns[s]| == rows)
    && |o.table.staleDataFlag| == rows
    && |o.table.staleSensors| == rows
    && |o.table.zeroValueFlag| == rows
    && |o.inexactCells| == rows
    && Rectangular(o.inexactCells, sensors)
    && |o.stats.staleBySensor| == sensors
    && o.stats.totalIntervals == rows
  }

  /** The stale and zero passes over a matched frame. */
  function Tabulate(f: Frame, grid: seq<int>): (t: Resampled)
    requires Fits(f, |grid|)
    ensures t.dates == grid && t.names == f.names && t.columns == f.columns
    ensures |t.staleDataFlag| == |grid| && |t.staleSensors| == |grid| && |t.zeroValueFlag| == |grid|
  {
    var rows := |grid|;
    var stale := StaleMatrixV10(f.columns, f.numeric, rows);
    Resampled(grid, f.names, f.columns, StaleFlagByRow(f.names, stale, rows),
              StaleSensorsByRow(f.names, stale, rows), ZeroFlagsOf(f.columns, f.numeric, rows))
  }

  /** The statistics of a matched frame. */
  function Summarize(f: Frame, grid: seq<int>): (st: Stats)
    requires |grid| > 0 && Fits(f, |grid|)
    ensures st.totalIntervals == |grid| && |st.staleBySensor| == |f.columns|
  {
    var rows := |grid|;
    var stale := StaleMatrixV10(f.columns, f.numeric, rows);
    var zero := ZeroFlagsOf(f.columns, f.numeric, rows);
    var staleCounts := RowCounts(stale);
    Stats(
      rows,
      TotalCount(Transpose(f.inexact, rows)),
      staleCounts,
      Sum(staleCounts),
      CountTrue(StaleFlagByRow(f.names, stale, rows)),
      ZeroCounts(CountOf(zero, Clear), CountOf(zero, Single), CountOf(zero, Repeated)),
      grid[0],
      grid[rows - 1])
  }

  /** All three results over a matched frame. */
  function Assemble(f: Frame, grid: seq<int>): (o: Output)
    requires |grid| > 0 && Fits(f, |grid|)
    ensures o.table == Tabulate(f, grid) && o.stats == Summarize(f, grid)
    ensures o.inexactCells == Transpose(f.inexact, |grid|)
    ensures Shaped(o, |f.columns|)
  {
    Output(Tabulate(f, grid), Summarize(f, grid), Transpose(f.inexact, |grid|))
  }

  /** The output over a given grid of at least one instant. */
  function Build(stores: seq<SensorStore>, grid: seq<int>, tol: int): (o: Output)
    requires |grid| > 0
    ensures o.table.dates == grid && o.table.names == Names(stores)
    ensures Shaped(o, |stores|)
  {
    Assemble(MatchFrame(stores, grid, tol), grid)
  }

  /** `resample_to_quarter_hour(combined_df, tolerance_minutes)`: nothing
      for an input without samples; otherwise the table, one row per instant
      of the quarter-hour grid of the observed time range, matched with a
      window of `toleranceMinutes` either side. */
  function Resample(stores: seq<SensorStore>, toleranceMinutes: int): (r: Option<Output>)
    ensures r.None? <==> |AllTimes(stores)| == 0
    ensures r.Some? ==>
      && r.value.table.dates == SampleGrid(stores)
      && r.value == Build(stores, r.value.table.dates, toleranceMinutes * SecondsPerMinute)
      && Shaped(r.value, |stores|)
  {
    if |AllTimes(stores)| == 0 then None
    else Some(Build(stores, SampleGrid(stores), toleranceMinutes * SecondsPerMinute))
  }

  /** Each cell is matched from its own sensor's samples only: it is missing
      (with a false inexact flag) exactly when no non-missing sample of that
      sensor lies within the tolerance of the row's instant; otherwise it
      copies the value of the earliest-listed closest such sample, a literal
      zero included, and is inexact exactly when that sample's timestamp is
      off the quarter-hour. */
  lemma CellIsNearestSample(stores: seq<SensorStore>, grid: seq<int>, tol: int, r: nat, s: nat)
    requires r < |grid| && s < |stores|
    ensures var o := Build(stores, grid, tol);
      var samples := stores[s].samples;
      && (o.table.columns[s][r] == Missing <==> NoneEligible(samples, grid[r], tol))
      && (o.table.columns[s][r] == Missing ==> !o.inexactCells[r][s])
      && (o.table.columns[s][r] != Missing ==>
            exists i :: IsNearest(samples, grid[r], tol, i)
              && o.table.columns[s][r] == samples[i].value
              && (o.inexactCells[r][s] <==> !IsOnQuarterHour(samples[i].t)))
  {
    var o := Build(stores, grid, tol);
    var m := MatchCell(stores[s].samples, grid[r], tol);
    var f := MatchFrame(stores, grid, tol);
    assert o == Assemble(f, grid);
    assert o.table.columns[s][r] == m.value;
    assert o.inexactCells[r][s] == f.inexact[s][r] == m.inexact;
  }

  /** A row's stale flag is set exactly when some numeric sensor holds, in
      that row, a non-zero reading equal to its two previous rows, and the
      row's stale list is empty exactly when the flag is unset. */
  lemma StaleRowFlag(f: Frame, grid: seq<int>, r: nat)
    requires Fits(f, |grid|) && r < |grid|
    ensures var t := Tabulate(f, grid);
      && (t.staleDataFlag[r] <==>
            exists s :: 0 <= s < |f.columns| && StaleV10At(f.columns[s], f.numeric[s], r))
      && (!t.staleDataFlag[r] <==> t.staleSensors[r] == [])
  {
    var t := Tabulate(f, grid);
    ConsolidatedFlagV10(f.names, f.columns, f.numeric, |grid|, r, t.staleDataFlag[r], t.staleSensors[r]);
  }

  /** A row's stale list names exactly the sensors stale in that row, once
      each, in column order. */
  lemma StaleRowSensors(f: Frame, grid: seq<int>, r: nat)
    requires Fits(f, |grid|) && r < |grid|
    ensures var list := Tabulate(f, grid).staleSensors[r];
      exists idx: seq<nat> ::
        && |idx| == |list|
        && (forall k :: 0 <= k < |idx| ==>
              && idx[k] < |f.columns|
              && StaleV10At(f.columns[idx[k]], f.numeric[idx[k]], r)
              && list[k] == f.names[idx[k]])
        && (forall k, l :: 0 <= k < l < |idx| ==> idx[k] < idx[l])
        && (forall s :: 0 <= s < |f.columns| && StaleV10At(f.columns[s], f.numeric[s], r) ==> s in idx)
  {
    ConsolidatedListV10(f.names, f.columns, f.numeric, |grid|, r, Tabulate(f, grid).staleSensors[r]);
  }

  /** A row is `Repeated` exactly when some numeric sensor reads zero in it
      and in the row above, `Clear` exactly when no numeric sensor reads zero
      in it, and `Single` otherwise; the first row is never `Repeated`. */
  lemma ZeroFlagsClassifyRows(f: Frame, grid: seq<int>, r: nat)
    requires Fits(f, |grid|) && r < |grid|
    ensures var t := Tabulate(f, grid);
      && (t.zeroValueFlag[r] == Repeated <==>
            (r > 0 && exists s :: 0 <= s < |f.columns| && f.numeric[s]
                        && f.columns[s][r] == Num(0) && f.columns[s][r - 1] == Num(0)))
      && (t.zeroValueFlag[r] == Clear <==>
            forall s :: 0 <= s < |f.columns| && f.numeric[s] ==> f.columns[s][r] != Num(0))
      && t.zeroValueFlag[0] != Repeated
  {
    ZeroFlagMeaning(f.columns, f.numeric, |grid|, r);
    ZeroFlagMeaning(f.columns, f.numeric, |grid|, 0);
  }

  /** The statistics agree with the table: the inexact total, accumulated
      row by row, equals the sum of the per-sensor inexact counts and counts
      the inexact cells of the map; the stale total is the sum of the
      per-sensor counts and also the total length of the per-row stale lists;
      the rows with stale data are those whose flag is set and are no more
      than the stale total; the three zero-flag counts add up to the number
      of rows; the date range is the grid's. */
  lemma StatsMatchTable(f: Frame, grid: seq<int>)
    requires Fits(f, |grid|) && |grid| > 0
    ensures var o := Assemble(f, grid);
      && o.stats.totalInexactCells == TotalCount(o.inexactCells)
      && o.stats.totalInexactCells == TotalCount(f.inexact)
      && o.stats.totalStaleFlags == Sum(o.stats.staleBySensor)
      && o.stats.totalStaleFlags == Sum(Lengths(o.table.staleSensors))
      && o.stats.rowsWithStaleData == CountTrue(o.table.staleDataFlag)
      && o.stats.rowsWithStaleData <= o.stats.totalStaleFlags
      && o.stats.zeroFlagCounts.clear + o.stats.zeroFlagCounts.single + o.stats.zeroFlagCounts.repeated
           == o.stats.totalIntervals
      && o.stats.start == grid[0] && o.stats.end == grid[|grid| - 1]
  {
    CountInterchange(f.inexact, |grid|);
    ConsolidatedCounts(f.names, StaleMatrixV10(f.columns, f.numeric, |grid|), |grid|);
    ZeroCountsPartitionRows(Tabulate(f, grid).zeroValueFlag);
  }

  /** Each statistic counts its own thing: sensor `s`'s stale count is the
      number of rows in which that sensor is stale under the newer rule, and
      each zero-flag count is the number of rows carrying that flag. */
  lemma StatsCountEachFlag(f: Frame, grid: seq<int>)
    requires Fits(f, |grid|) && |grid| > 0
    ensures var o := Assemble(f, grid);
      && (forall s :: 0 <= s < |f.columns| ==>
            o.stats.staleBySensor[s] == CountTrue(StaleColumnV10(f.columns[s], f.numeric[s])))
      && o.stats.zeroFlagCounts == ZeroCounts(CountOf(o.table.zeroValueFlag, Clear),
                                              CountOf(o.table.zeroValueFlag, Single),
                                              CountOf(o.table.zeroValueFlag, Repeated))
  {
  }
}
