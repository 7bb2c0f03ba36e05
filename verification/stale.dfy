/** Stale-reading detection on one resampled sensor column, and the
    consolidation of per-sensor stale flags into one flag and one sensor
    list per row. */
module Stale {
  import opened Types
  import opened Counting

  /** `value != 0 & notna()`. */
  predicate NonZeroReading(c: Cell)
  {
    c != Missing && c != Num(0)
  }

  /** The newer rule: a numeric column's cell is stale when it is a non-zero
      reading equal to the cells one and two rows above (`shift(1)`,
      `shift(2)`); shifting in from before row 0 gives NaN, which equals
      nothing. */
  predicate StaleV10At(col: seq<Cell>, numeric: bool, r: nat)
    requires r < |col|
  {
    numeric && NonZeroReading(col[r]) && r >= 2 && col[r] == col[r - 1] && col[r] == col[r - 2]
  }

  /** The earlier rule: a cell is stale when it holds a value (zeros
      included) equal to the cells one, two and three rows above. */
  predicate StaleV7At(col: seq<Cell>, r: nat)
    requires r < |col|
  {
    r >= 3 && col[r] != Missing && col[r] == col[r - 1] && col[r] == col[r - 2] && col[r] == col[r - 3]
  }

  /** Reference measure: how many consecutive rows, ending at `r`, hold the
      same non-missing reading as row `r`. */
  function RunLength(col: seq<Cell>, r: nat): nat
    requires r < |col|
    decreases r
  {
    if col[r] == Missing then 0
    else if r > 0 && col[r - 1] == col[r] then RunLength(col, r - 1) + 1
    else 1
  }

  /** A run of at least `k` readings ends at `r` exactly when row `r` holds a
      value and the `k - 1` rows above it hold the same value. */
  lemma {:induction false} RunLengthMeaning(col: seq<Cell>, r: nat, k: nat)
    requires r < |col| && 1 <= k
    ensures RunLength(col, r) >= k <==>
      (k <= r + 1 && col[r] != Missing && forall j :: r - k < j <= r ==> col[j] == col[r])
    decreases r
  {
    if col[r] != Missing && k > 1 {
      if r > 0 && col[r - 1] == col[r] {
        RunLengthMeaning(col, r - 1, k - 1);
        if k <= r + 1 && forall j :: r - k < j <= r ==> col[j] == col[r] {
          assert forall j :: r - 1 - (k - 1) < j <= r - 1 ==> col[j] == col[r - 1];
        }
      } else {
        assert RunLength(col, r) == 1;
        if k <= r + 1 {
          assert col[r - 1] != col[r];
        }
      }
    }
  }

  /** The newer rule flags the third and later rows of a run of one
      non-zero reading in a numeric column. */
  lemma StaleV10IffRunOfThree(col: seq<Cell>, numeric: bool, r: nat)
    requires r < |col|
    ensures StaleV10At(col, numeric, r) <==>
      numeric && NonZeroReading(col[r]) && RunLength(col, r) >= 3
  {
    RunLengthMeaning(col, r, 3);
  }

  /** The earlier rule flags the fourth and later rows of a run of one
      reading, zero or not, in any column. */
  lemma StaleV7IffRunOfFour(col: seq<Cell>, r: nat)
    requires r < |col|
    ensures StaleV7At(col, r) <==> RunLength(col, r) >= 4
  {
    RunLengthMeaning(col, r, 4);
  }

  /** Per-row stale flags of one column under the newer rule. A text column
      and the first two rows are never stale. */
  function StaleColumnV10(col: seq<Cell>, numeric: bool): (flags: seq<bool>)
    ensures |flags| == |col|
    ensures !numeric ==> forall r :: 0 <= r < |col| ==> !flags[r]
    ensures forall r :: 0 <= r < |col| && r < 2 ==> !flags[r]
  {
    seq(|col|, r requires 0 <= r < |col| => StaleV10At(col, numeric, r))
  }

  /** Per-row stale flags of one column under the earlier rule. */
  function StaleColumnV7(col: seq<Cell>): (flags: seq<bool>)
    ensures |flags| == |col|
    ensures forall r :: 0 <= r < |col| && r < 3 ==> !flags[r]
  {
    seq(|col|, r requires 0 <= r < |col| => StaleV7At(col, r))
  }

  /** The positions below `n` holding `true`, in increasing order. */
  function FlaggedBelow(flags: seq<bool>, n: nat): (idx: seq<nat>)
    requires n <= |flags|
    ensures forall k :: 0 <= k < |idx| ==> idx[k] < n && flags[idx[k]]
    ensures forall k, l :: 0 <= k < l < |idx| ==> idx[k] < idx[l]
    ensures forall s :: 0 <= s < n && flags[s] ==> s in idx
    decreases n
  {
    if n == 0 then []
    else
      var prefix := FlaggedBelow(flags, n - 1);
      if flags[n - 1] then prefix + [n - 1] else prefix
  }

  /** There are as many positions below `n` as set flags among the first `n`. */
  lemma {:induction false} FlaggedBelowCount(flags: seq<bool>, n: nat)
    requires n <= |flags|
    ensures |FlaggedBelow(flags, n)| == CountTrue(flags[..n])
    decreases n
  {
    if n > 0 {
      FlaggedBelowCount(flags, n - 1);
      assert flags[..n][..n - 1] == flags[..n - 1];
      CountTrueStep(flags[..n]);
    }
  }

  /** The positions holding `true`, in increasing order: the stale sensors of
      a row, in column order. */
  function FlaggedIndices(flags: seq<bool>): (idx: seq<nat>)
    ensures forall k :: 0 <= k < |idx| ==> idx[k] < |flags| && flags[idx[k]]
    ensures forall k, l :: 0 <= k < l < |idx| ==> idx[k] < idx[l]
    ensures forall s :: 0 <= s < |flags| && flags[s] ==> s in idx
    ensures |idx| == CountTrue(flags)
  {
    assert flags[..|flags|] == flags;
    FlaggedBelowCount(flags, |flags|);
    FlaggedBelow(flags, |flags|)
  }

  /** The stale flags of every sensor at row `r`, in column order. */
  function FlagsAtRow(perSensor: seq<seq<bool>>, rows: nat, r: nat): (flags: seq<bool>)
    requires Rectangular(perSensor, rows) && r < rows
    ensures |flags| == |perSensor|
    ensures forall s :: 0 <= s < |perSensor| ==> flags[s] == perSensor[s][r]
  {
    seq(|perSensor|, s requires 0 <= s < |perSensor| => perSensor[s][r])
  }

  /** The sensors stale at row `r`: exactly those, each once, in column
      order. */
  function StaleIndices(perSensor: seq<seq<bool>>, rows: nat, r: nat): (idx: seq<nat>)
    requires Rectangular(perSensor, rows) && r < rows
    ensures forall k :: 0 <= k < |idx| ==> idx[k] < |perSensor| && perSensor[idx[k]][r]
    ensures forall k, l :: 0 <= k < l < |idx| ==> idx[k] < idx[l]
    ensures forall s :: 0 <= s < |perSensor| && perSensor[s][r] ==> s in idx
    ensures |idx| == CountTrue(FlagsAtRow(perSensor, rows, r))
  {
    FlaggedIndices(FlagsAtRow(perSensor, rows, r))
  }

  /** Row consolidation: the row is flagged when at least one sensor is
      stale in it, and the list names the stale sensors in the order of
      `StaleIndices`; the list is empty when the flag is false. */
  function ConsolidateRow(names: seq<string>, perSensor: seq<seq<bool>>, rows: nat, r: nat)
    : (res: (bool, seq<string>))
    requires |names| == |perSensor| && Rectangular(perSensor, rows) && r < rows
    ensures res.0 <==> exists s :: 0 <= s < |perSensor| && perSensor[s][r]
    ensures !res.0 <==> res.1 == []
    ensures |res.1| == |StaleIndices(perSensor, rows, r)|
    ensures forall k :: 0 <= k < |res.1| ==> res.1[k] == names[StaleIndices(perSensor, rows, r)[k]]
  {
    var idx := StaleIndices(perSensor, rows, r);
    var listed := seq(|idx|, k requires 0 <= k < |idx| => names[idx[k]]);
    assert |idx| > 0 ==> perSensor[idx[0]][r];
    (|idx| > 0, listed)
  }

  /** Stale flags of every sensor under the newer rule, [sensor][row]. */
  function StaleMatrixV10(columns: seq<seq<Cell>>, numeric: seq<bool>, rows: nat): (m: seq<seq<bool>>)
    requires WellShaped(columns, numeric, rows)
    ensures |m| == |columns| && Rectangular(m, rows)
    ensures forall s, r :: 0 <= s < |columns| && 0 <= r < rows ==>
              m[s][r] == StaleV10At(columns[s], numeric[s], r)
  {
    seq(|columns|, s requires 0 <= s < |columns| => StaleColumnV10(columns[s], numeric[s]))
  }

  /** Stale flags of every sensor under the earlier rule, [sensor][row]. */
  function StaleMatrixV7(columns: seq<seq<Cell>>, rows: nat): (m: seq<seq<bool>>)
    requires forall s :: 0 <= s < |columns| ==> |columns[s]| == rows
    ensures |m| == |columns| && Rectangular(m, rows)
    ensures forall s, r :: 0 <= s < |columns| && 0 <= r < rows ==> m[s][r] == StaleV7At(columns[s], r)
  {
    seq(|columns|, s requires 0 <= s < |columns| => StaleColumnV7(columns[s]))
  }

  /** Under the newer rule a row is flagged exactly when some numeric sensor
      holds in it a non-zero reading equal to its two previous rows. */
  lemma ConsolidatedFlagV10(names: seq<string>, columns: seq<seq<Cell>>, numeric: seq<bool>, rows: nat, r: nat,
                            flag: bool, list: seq<string>)
    requires WellShaped(columns, numeric, rows) && |names| == |columns| && r < rows
    requires (flag, list) == ConsolidateRow(names, StaleMatrixV10(columns, numeric, rows), rows, r)
    ensures flag <==> exists s :: 0 <= s < |columns| && StaleV10At(columns[s], numeric[s], r)
    ensures !flag <==> list == []
  {
    var m := StaleMatrixV10(columns, numeric, rows);
    assert forall s :: 0 <= s < |columns| ==> m[s][r] == StaleV10At(columns[s], numeric[s], r);
  }

  /** Under the newer rule a row's list names exactly the sensors stale in
      it, each once, in column order. */
  lemma ConsolidatedListV10(names: seq<string>, columns: seq<seq<Cell>>, numeric: seq<bool>, rows: nat, r: nat,
                            list: seq<string>)
    requires WellShaped(columns, numeric, rows) && |names| == |columns| && r < rows
    requires list == ConsolidateRow(names, StaleMatrixV10(columns, numeric, rows), rows, r).1
    ensures exists idx: seq<nat> ::
      && |idx| == |list|
      && (forall k :: 0 <= k < |idx| ==>
            && idx[k] < |columns|
            && StaleV10At(columns[idx[k]], numeric[idx[k]], r)
            && list[k] == names[idx[k]])
      && (forall k, l :: 0 <= k < l < |idx| ==> idx[k] < idx[l])
      && (forall s :: 0 <= s < |columns| && StaleV10At(columns[s], numeric[s], r) ==> s in idx)
  {
    var m := StaleMatrixV10(columns, numeric, rows);
    var idx := StaleIndices(m, rows, r);
    assert |idx| == |list|;
    forall k | 0 <= k < |idx|
      ensures idx[k] < |columns| && StaleV10At(columns[idx[k]], numeric[idx[k]], r) && list[k] == names[idx[k]]
    {
      assert m[idx[k]][r];
    }
    forall s | 0 <= s < |columns| && StaleV10At(columns[s], numeric[s], r)
      ensures s in idx
    {
      assert m[s][r];
    }
  }

  /** The per-sensor stale counts add up to the total length of the per-row
      stale lists, and the flagged rows are no more than that total. */
  lemma ConsolidatedCounts(names: seq<string>, perSensor: seq<seq<bool>>, rows: nat)
    requires |names| == |perSensor| && Rectangular(perSensor, rows)
    ensures Sum(RowCounts(perSensor)) == Sum(Lengths(StaleSensorsByRow(names, perSensor, rows)))
    ensures CountTrue(StaleFlagByRow(names, perSensor, rows)) <= Sum(RowCounts(perSensor))
  {
    var t := Transpose(perSensor, rows);
    var lists := StaleSensorsByRow(names, perSensor, rows);
    var flags := StaleFlagByRow(names, perSensor, rows);
    CountInterchange(perSensor, rows);
    forall r | 0 <= r < rows
      ensures |lists[r]| == CountTrue(t[r])
      ensures flags[r] == (CountTrue(t[r]) > 0)
    {
      assert t[r] == FlagsAtRow(perSensor, rows, r);
    }
    assert Lengths(lists) == RowCounts(t);
    assert flags == NonEmptyRows(t);
    NonEmptyRowsAtMostTotal(t);
  }

  /** The consolidated stale flag of every row. */
  function StaleFlagByRow(names: seq<string>, perSensor: seq<seq<bool>>, rows: nat): (flags: seq<bool>)
    requires |names| == |perSensor| && Rectangular(perSensor, rows)
    ensures |flags| == rows
    ensures forall r :: 0 <= r < rows ==> flags[r] == ConsolidateRow(names, perSensor, rows, r).0
  {
    seq(rows, r requires 0 <= r < rows => ConsolidateRow(names, perSensor, rows, r).0)
  }

  /** The consolidated stale-sensor list of every row. */
  function StaleSensorsByRow(names: seq<string>, perSensor: seq<seq<bool>>, rows: nat): (lists: seq<seq<string>>)
    requires |names| == |perSensor| && Rectangular(perSensor, rows)
    ensures |lists| == rows
    ensures forall r :: 0 <= r < rows ==> lists[r] == ConsolidateRow(names, perSensor, rows, r).1
  {
    seq(rows, r requires 0 <= r < rows => ConsolidateRow(names, perSensor, rows, r).1)
  }
}
