/** The matched table shared by both resampler versions: one column of
    values and one column of inexact flags per sensor, over the grid. */
module Table {
  import opened Types
  import opened Matcher
  import opened Counting

  /** The resampled value of every sensor at every grid row, [sensor][row]. */
  function MatchedColumns(stores: seq<SensorStore>, grid: seq<int>, tol: int): (c: seq<seq<Cell>>)
    ensures |c| == |stores|
    ensures forall s :: 0 <= s < |stores| ==> |c[s]| == |grid|
    ensures forall s, r :: 0 <= s < |stores| && 0 <= r < |grid| ==>
              c[s][r] == MatchCell(stores[s].samples, grid[r], tol).value
  {
    seq(|stores|, s requires 0 <= s < |stores| =>
      seq(|grid|, r requires 0 <= r < |grid| => MatchCell(stores[s].samples, grid[r], tol).value))
  }

  /** The inexact flag of every sensor at every grid row, [sensor][row]. */
  function InexactBySensor(stores: seq<SensorStore>, grid: seq<int>, tol: int): (f: seq<seq<bool>>)
    ensures |f| == |stores| && Rectangular(f, |grid|)
    ensures forall s, r :: 0 <= s < |stores| && 0 <= r < |grid| ==>
              f[s][r] == MatchCell(stores[s].samples, grid[r], tol).inexact
  {
    seq(|stores|, s requires 0 <= s < |stores| =>
      seq(|grid|, r requires 0 <= r < |grid| => MatchCell(stores[s].samples, grid[r], tol).inexact))
  }

  /** The dtype flag of every sensor. */
  function Numerics(stores: seq<SensorStore>): (numeric: seq<bool>)
    ensures |numeric| == |stores|
    ensures forall s :: 0 <= s < |stores| ==> numeric[s] == stores[s].numeric
  {
    seq(|stores|, s requires 0 <= s < |stores| => stores[s].numeric)
  }

  /** The matched frame before any flagging: per sensor its name, dtype,
      resampled values and inexact flags, each column indexed by grid row. */
  datatype Frame = Frame(names: seq<string>, numeric: seq<bool>, columns: seq<seq<Cell>>, inexact: seq<seq<bool>>)

  /** One name, dtype, value column and flag column per sensor, each column
      `rows` long. */
  predicate Fits(f: Frame, rows: nat)
  {
    && WellShaped(f.columns, f.numeric, rows)
    && |f.names| == |f.columns|
    && |f.inexact| == |f.columns| && Rectangular(f.inexact, rows)
  }

  /** Matching every sensor at every grid instant. */
  function MatchFrame(stores: seq<SensorStore>, grid: seq<int>, tol: int): (f: Frame)
    ensures Fits(f, |grid|) && |f.columns| == |stores|
    ensures f.names == Names(stores) && f.numeric == Numerics(stores)
    ensures f.columns == MatchedColumns(stores, grid, tol)
    ensures f.inexact == InexactBySensor(stores, grid, tol)
  {
    Frame(Names(stores), Numerics(stores), MatchedColumns(stores, grid, tol), InexactBySensor(stores, grid, tol))
  }
}
