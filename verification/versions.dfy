/** How the two resampler versions relate: they match identically, differ
    only in how the inexact flags are laid out and in the stale rule. */
module Versions {
  import opened Types
  import opened Clock
  import opened Grid
  import opened Stale
  import opened Counting
  import opened Table
  import V10 = ResampleV10
  import V7 = ResampleV7

  /** On the same input both versions produce a result or neither does, over
      the same grid, with the same names and values in every cell; the newer
      inexact map is the transpose of the older per-sensor flag columns, and
      the two inexact totals agree. */
  lemma SameMatching(stores: seq<SensorStore>, toleranceMinutes: int)
    ensures V10.Resample(stores, toleranceMinutes).Some? <==> V7.Resample(stores, toleranceMinutes).Some?
    ensures V10.Resample(stores, toleranceMinutes).Some? ==>
      var n := V10.Resample(stores, toleranceMinutes).value;
      var o := V7.Resample(stores, toleranceMinutes).value;
      && n.table.dates == o.table.dates
      && n.table.names == o.table.names
      && n.table.columns == o.table.columns
      && (forall r, s :: 0 <= r < |n.table.dates| && 0 <= s < |stores| ==>
            n.inexactCells[r][s] == o.table.inexactFlags[s][r])
      && n.stats.totalInexactCells == o.stats.totalInexactMatches
      && n.stats.start == o.stats.start && n.stats.end == o.stats.end
  {
    if |AllTimes(stores)| > 0 {
      var grid := SampleGrid(stores);
      var f := MatchFrame(stores, grid, toleranceMinutes * SecondsPerMinute);
      assert V10.Resample(stores, toleranceMinutes).value == V10.Assemble(f, grid);
      assert V7.Resample(stores, toleranceMinutes).value == V7.Assemble(f, grid);
      CountInterchange(f.inexact, |grid|);
    }
  }

  /** A non-zero reading of a numeric sensor that the older rule flags (four
      in a row) is also flagged by the newer rule (three in a row). */
  lemma OlderStaleImpliesNewer(col: seq<Cell>, numeric: bool, r: nat)
    requires r < |col| && numeric && NonZeroReading(col[r])
    ensures StaleV7At(col, r) ==> StaleV10At(col, numeric, r)
  {
  }

  /** The newer rule flags the third reading of a run, which the older rule
      leaves unflagged; and the older rule flags repeated zeros, which the
      newer rule never does. */
  lemma RulesDiffer()
    ensures var col := [Num(5), Num(5), Num(5)];
      StaleV10At(col, true, 2) && !StaleV7At(col, 2)
    ensures var col := [Num(0), Num(0), Num(0), Num(0)];
      StaleV7At(col, 3) && !StaleV10At(col, true, 3)
  {
  }
}
