/** The per-row zero classification (`calculate_zero_flags`): across the
    numeric sensors of a row, a zero continuing a zero from the row above
    makes the row `Repeated`, any other zero makes it `Single`, and a row
    without zeros is `Clear`. Text columns take no part. */
module ZeroFlags {
  import opened Types

  /** `notna(v) and v == 0`. */
  predicate IsZero(c: Cell)
  {
    c == Num(0)
  }

  /** Numeric sensor `s` reads zero at row `r`. */
  predicate ZeroAt(columns: seq<seq<Cell>>, numeric: seq<bool>, rows: nat, r: nat, s: nat)
    requires WellShaped(columns, numeric, rows) && r < rows && s < |columns|
  {
    numeric[s] && IsZero(columns[s][r])
  }

  /** Numeric sensor `s` reads zero at row `r` and at the row above. */
  predicate RepeatedZeroAt(columns: seq<seq<Cell>>, numeric: seq<bool>, rows: nat, r: nat, s: nat)
    requires WellShaped(columns, numeric, rows) && r < rows && s < |columns|
  {
    ZeroAt(columns, numeric, rows, r, s) && r > 0 && IsZero(columns[s][r - 1])
  }

  /** Reference classification by priority Repeated > Single > Clear. */
  function ZeroFlagOf(columns: seq<seq<Cell>>, numeric: seq<bool>, rows: nat, r: nat): ZeroFlag
    requires WellShaped(columns, numeric, rows) && r < rows
  {
    if exists s :: 0 <= s < |columns| && RepeatedZeroAt(columns, numeric, rows, r, s) then Repeated
    else if exists s :: 0 <= s < |columns| && ZeroAt(columns, numeric, rows, r, s) then Single
    else Clear
  }

  /** The reference flags of all rows. */
  function ZeroFlagsOf(columns: seq<seq<Cell>>, numeric: seq<bool>, rows: nat): (flags: seq<ZeroFlag>)
    requires WellShaped(columns, numeric, rows)
    ensures |flags| == rows
    ensures forall r :: 0 <= r < rows ==> flags[r] == ZeroFlagOf(columns, numeric, rows, r)
  {
    seq(rows, r requires 0 <= r < rows => ZeroFlagOf(columns, numeric, rows, r))
  }

  /** The reference classification spelled out: a row is `Repeated` exactly
      when some numeric sensor reads zero in it and in the row above, and
      `Clear` exactly when no numeric sensor reads zero in it. */
  lemma ZeroFlagMeaning(columns: seq<seq<Cell>>, numeric: seq<bool>, rows: nat, r: nat)
    requires WellShaped(columns, numeric, rows) && r < rows
    ensures ZeroFlagOf(columns, numeric, rows, r) == Repeated <==>
      (r > 0 && exists s :: 0 <= s < |columns| && numeric[s] && columns[s][r] == Num(0) && columns[s][r - 1] == Num(0))
    ensures ZeroFlagOf(columns, numeric, rows, r) == Clear <==>
      forall s :: 0 <= s < |columns| && numeric[s] ==> columns[s][r] != Num(0)
  {
    assert forall s :: 0 <= s < |columns| ==>
      (RepeatedZeroAt(columns, numeric, rows, r, s) <==>
        (r > 0 && numeric[s] && columns[s][r] == Num(0) && columns[s][r - 1] == Num(0)));
    assert forall s :: 0 <= s < |columns| ==>
      (ZeroAt(columns, numeric, rows, r, s) <==> (numeric[s] && columns[s][r] == Num(0)));
  }

  /** The flag of one row, scanning the sensors in column order and
      stopping at the first repeated zero. */
  method RowZeroFlag(columns: seq<seq<Cell>>, numeric: seq<bool>, rows: nat, idx: nat)
    returns (rowFlag: ZeroFlag)
    requires WellShaped(columns, numeric, rows) && idx < rows
    ensures rowFlag == Repeated <==>
      exists s :: 0 <= s < |columns| && RepeatedZeroAt(columns, numeric, rows, idx, s)
    ensures rowFlag == Clear <==>
      forall s :: 0 <= s < |columns| ==> !ZeroAt(columns, numeric, rows, idx, s)
    ensures rowFlag == ZeroFlagOf(columns, numeric, rows, idx)
  {
    rowFlag := Clear;
    var k := 0;
    while k < |columns|
      invariant k <= |columns|
      invariant rowFlag != Repeated
      invariant forall s :: 0 <= s < k ==> !RepeatedZeroAt(columns, numeric, rows, idx, s)
      invariant rowFlag == Single <==> exists s :: 0 <= s < k && ZeroAt(columns, numeric, rows, idx, s)
    {
      if !numeric[k] || !IsZero(columns[k][idx]) {
        assert !ZeroAt(columns, numeric, rows, idx, k);
        k := k + 1;
        continue;
      }
      if idx > 0 {
        if IsZero(columns[k][idx - 1]) {
          rowFlag := Repeated;
          assert RepeatedZeroAt(columns, numeric, rows, idx, k);
          break;
        } else if rowFlag == Clear {
          rowFlag := Single;
        }
      } else if rowFlag == Clear {
        rowFlag := Single;
      }
      assert ZeroAt(columns, numeric, rows, idx, k);
      k := k + 1;
    }
  }

  /** `calculate_zero_flags`: one flag per row. The first row is never
      `Repeated`, and a sensor with a repeated zero makes its row `Repeated`
      whatever the other sensors hold. */
  method CalculateZeroFlags(columns: seq<seq<Cell>>, numeric: seq<bool>, rows: nat)
    returns (flags: seq<ZeroFlag>)
    requires WellShaped(columns, numeric, rows)
    ensures |flags| == rows
    ensures forall r :: 0 <= r < rows ==> flags[r] == ZeroFlagOf(columns, numeric, rows, r)
    ensures rows > 0 ==> flags[0] != Repeated
    ensures forall r, s | 0 <= r < rows && 0 <= s < |columns| ::
              RepeatedZeroAt(columns, numeric, rows, r, s) ==> flags[r] == Repeated
  {
    flags := [];
    var idx := 0;
    while idx < rows
      invariant idx <= rows && |flags| == idx
      invariant forall r :: 0 <= r < idx ==> flags[r] == ZeroFlagOf(columns, numeric, rows, r)
    {
      var rowFlag := RowZeroFlag(columns, numeric, rows, idx);
      flags := flags + [rowFlag];
      idx := idx + 1;
    }
  }

  /** How many flags equal `f` (`list.count`). */
  function CountOf(flags: seq<ZeroFlag>, f: ZeroFlag): nat
    decreases |flags|
  {
    if |flags| == 0 then 0
    else CountOf(flags[..|flags| - 1], f) + (if flags[|flags| - 1] == f then 1 else 0)
  }

  /** Every row falls in exactly one class, so the three counts add up to
      the number of rows. */
  lemma {:induction false} ZeroCountsPartitionRows(flags: seq<ZeroFlag>)
    ensures CountOf(flags, Clear) + CountOf(flags, Single) + CountOf(flags, Repeated) == |flags|
    decreases |flags|
  {
    if |flags| > 0 {
      ZeroCountsPartitionRows(flags[..|flags| - 1]);
    }
  }

  /** Text columns are ignored: two tables that agree on every numeric
      column get the same flag in every row. */
  lemma TextColumnsIgnored(columns: seq<seq<Cell>>, other: seq<seq<Cell>>, numeric: seq<bool>,
                           rows: nat, r: nat)
    requires WellShaped(columns, numeric, rows) && WellShaped(other, numeric, rows) && r < rows
    requires forall s :: 0 <= s < |columns| && numeric[s] ==> columns[s] == other[s]
    ensures ZeroFlagOf(columns, numeric, rows, r) == ZeroFlagOf(other, numeric, rows, r)
  {
    assert forall s :: 0 <= s < |columns| ==>
      (RepeatedZeroAt(columns, numeric, rows, r, s) <==> RepeatedZeroAt(other, numeric, rows, r, s));
    assert forall s :: 0 <= s < |columns| ==>
      (ZeroAt(columns, numeric, rows, r, s) <==> ZeroAt(other, numeric, rows, r, s));
  }
}
