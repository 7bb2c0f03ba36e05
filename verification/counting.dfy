/** Counting over flag columns and flag tables: the arithmetic behind the
    resampler's statistics. A table is a sequence of rows of equal width. */
module Counting {

  /** The number of `true` entries (pandas `Series.sum()` on booleans). */
  function CountTrue(bs: seq<bool>): (n: nat)
    ensures n <= |bs|
    ensures n == 0 <==> forall i :: 0 <= i < |bs| ==> !bs[i]
    ensures n == |bs| <==> forall i :: 0 <= i < |bs| ==> bs[i]
    decreases |bs|
  {
    if |bs| == 0 then 0
    else CountTrue(bs[..|bs| - 1]) + (if bs[|bs| - 1] then 1 else 0)
  }

  /** Sum of a sequence of counts (Python `sum`). */
  function Sum(ns: seq<nat>): nat
    decreases |ns|
  {
    if |ns| == 0 then 0 else Sum(ns[..|ns| - 1]) + ns[|ns| - 1]
  }

  predicate Rectangular(m: seq<seq<bool>>, width: nat)
  {
    forall r :: 0 <= r < |m| ==> |m[r]| == width
  }

  /** The count of each row. */
  function RowCounts(m: seq<seq<bool>>): (r: seq<nat>)
    ensures |r| == |m|
    ensures forall i :: 0 <= i < |m| ==> r[i] == CountTrue(m[i])
  {
    seq(|m|, i requires 0 <= i < |m| => CountTrue(m[i]))
  }

  /** The length of each list (`len` of every entry). */
  function Lengths<T>(ls: seq<seq<T>>): (r: seq<nat>)
    ensures |r| == |ls|
    ensures forall i :: 0 <= i < |ls| ==> r[i] == |ls[i]|
  {
    seq(|ls|, i requires 0 <= i < |ls| => |ls[i]|)
  }

  /** All `true` entries of a table, counted row by row. */
  function TotalCount(m: seq<seq<bool>>): nat
  {
    Sum(RowCounts(m))
  }

  /** Column `c` of a rectangular table. */
  function Column(m: seq<seq<bool>>, width: nat, c: nat): (col: seq<bool>)
    requires Rectangular(m, width) && c < width
    ensures |col| == |m|
    ensures forall r :: 0 <= r < |m| ==> col[r] == m[r][c]
  {
    seq(|m|, r requires 0 <= r < |m| => m[r][c])
  }

  /** The columns of a rectangular table, as rows. */
  function Transpose(m: seq<seq<bool>>, width: nat): (t: seq<seq<bool>>)
    requires Rectangular(m, width)
    ensures |t| == width && Rectangular(t, |m|)
    ensures forall c, r :: 0 <= c < width && 0 <= r < |m| ==> t[c][r] == m[r][c]
  {
    seq(width, c requires 0 <= c < width => Column(m, width, c))
  }

  lemma TotalCountStep(m: seq<seq<bool>>)
    requires |m| > 0
    ensures TotalCount(m) == TotalCount(m[..|m| - 1]) + CountTrue(m[|m| - 1])
  {
    assert RowCounts(m)[..|m| - 1] == RowCounts(m[..|m| - 1]);
  }

  lemma CountTrueStep(bs: seq<bool>)
    requires |bs| > 0
    ensures CountTrue(bs) == CountTrue(bs[..|bs| - 1]) + (if bs[|bs| - 1] then 1 else 0)
  {
  }

  lemma CountTrueAppend(bs: seq<bool>, b: bool)
    ensures CountTrue(bs + [b]) == CountTrue(bs) + (if b then 1 else 0)
  {
    assert (bs + [b])[..|bs|] == bs;
  }

  lemma {:induction false} EmptyRowsCountNothing(m: seq<seq<bool>>)
    requires Rectangular(m, 0)
    ensures TotalCount(m) == 0
    decreases |m|
  {
    if |m| > 0 {
      TotalCountStep(m);
      EmptyRowsCountNothing(m[..|m| - 1]);
    }
  }

  /** Appending one entry to every row adds the count of the appended entries. */
  lemma {:induction false} AppendColumnCount(a: seq<seq<bool>>, b: seq<bool>)
    requires |a| == |b|
    ensures TotalCount(seq(|a|, c requires 0 <= c < |a| => a[c] + [b[c]])) == TotalCount(a) + CountTrue(b)
    decreases |a|
  {
    var ext := seq(|a|, c requires 0 <= c < |a| => a[c] + [b[c]]);
    if |a| > 0 {
      var n := |a| - 1;
      var extPrefix := seq(n, c requires 0 <= c < n => a[..n][c] + [b[..n][c]]);
      AppendColumnCount(a[..n], b[..n]);
      assert ext[..n] == extPrefix;
      TotalCountStep(ext);
      TotalCountStep(a);
      CountTrueAppend(a[n], b[n]);
      assert b[..n] == b[..|b| - 1];
    }
  }

  lemma ColumnStep(m: seq<seq<bool>>, width: nat, c: nat)
    requires Rectangular(m, width) && c < width && |m| > 0
    ensures Column(m, width, c) == Column(m[..|m| - 1], width, c) + [m[|m| - 1][c]]
  {
  }

  /** Counting a table row by row or column by column gives the same total. */
  lemma {:induction false} CountInterchange(m: seq<seq<bool>>, width: nat)
    requires Rectangular(m, width)
    ensures TotalCount(m) == TotalCount(Transpose(m, width))
    decreases |m|
  {
    if |m| == 0 {
      EmptyRowsCountNothing(Transpose(m, width));
    } else {
      var n := |m| - 1;
      var p := m[..n];
      CountInterchange(p, width);
      var tp := Transpose(p, width);
      var t := Transpose(m, width);
      var ext := seq(|tp|, c requires 0 <= c < |tp| => tp[c] + [m[n][c]]);
      forall c | 0 <= c < width
        ensures t[c] == ext[c]
      {
        ColumnStep(m, width, c);
      }
      assert t == ext;
      AppendColumnCount(tp, m[n]);
      TotalCountStep(m);
    }
  }

  /** Which rows hold at least one `true`. */
  function NonEmptyRows(m: seq<seq<bool>>): (f: seq<bool>)
    ensures |f| == |m|
    ensures forall r :: 0 <= r < |m| ==> (f[r] <==> CountTrue(m[r]) > 0)
  {
    seq(|m|, r requires 0 <= r < |m| => CountTrue(m[r]) > 0)
  }

  lemma NonEmptyRowsStep(m: seq<seq<bool>>)
    requires |m| > 0
    ensures CountTrue(NonEmptyRows(m)) ==
      CountTrue(NonEmptyRows(m[..|m| - 1])) + (if CountTrue(m[|m| - 1]) > 0 then 1 else 0)
  {
    var n := |m| - 1;
    var f := NonEmptyRows(m);
    var g := NonEmptyRows(m[..n]);
    forall r | 0 <= r < n
      ensures f[r] == g[r]
    {
      assert m[..n][r] == m[r];
    }
    assert f[..n] == g;
    CountTrueStep(f);
  }

  /** Rows holding at least one `true` are no more than the `true` entries. */
  lemma {:induction false} NonEmptyRowsAtMostTotal(m: seq<seq<bool>>)
    ensures CountTrue(NonEmptyRows(m)) <= TotalCount(m)
    decreases |m|
  {
    if |m| > 0 {
      NonEmptyRowsAtMostTotal(m[..|m| - 1]);
      NonEmptyRowsStep(m);
      TotalCountStep(m);
    }
  }
}
