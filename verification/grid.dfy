/** The covering grid of quarter-hour target instants (`resample_to_quarter_hour`,
    grid construction). */
module Grid {
  import opened Types
  import opened Clock

  /** Every sample timestamp of every sensor, sensor by sensor (the merged
      frame's `Date` column). */
  function AllTimes(stores: seq<SensorStore>): (ts: seq<int>)
    decreases |stores|
  {
    if |stores| == 0 then []
    else AllTimes(stores[..|stores| - 1]) + SampleTimes(stores[|stores| - 1].samples)
  }

  function SampleTimes(samples: seq<Sample>): (ts: seq<int>)
    ensures |ts| == |samples|
    ensures forall i :: 0 <= i < |samples| ==> ts[i] == samples[i].t
  {
    seq(|samples|, i requires 0 <= i < |samples| => samples[i].t)
  }

  /** A timestamp is observed when some sensor holds a sample at it. */
  lemma {:induction false} AllTimesMembership(stores: seq<SensorStore>, t: int)
    ensures t in AllTimes(stores) <==>
      exists s, i :: 0 <= s < |stores| && 0 <= i < |stores[s].samples| && stores[s].samples[i].t == t
    decreases |stores|
  {
    if |stores| > 0 {
      var n := |stores| - 1;
      AllTimesMembership(stores[..n], t);
      var ts := SampleTimes(stores[n].samples);
      if t in ts {
        var i :| 0 <= i < |ts| && ts[i] == t;
        assert stores[n].samples[i].t == t;
      }
      if exists s, i :: 0 <= s < |stores| && 0 <= i < |stores[s].samples| && stores[s].samples[i].t == t {
        var s, i :| 0 <= s < |stores| && 0 <= i < |stores[s].samples| && stores[s].samples[i].t == t;
        if s < n {
          assert stores[..n][s] == stores[s];
        } else {
          assert ts[i] == t;
        }
      }
    }
  }

  /** The earliest timestamp (`Series.min`). */
  function MinOf(ts: seq<int>): (m: int)
    requires |ts| > 0
    ensures m in ts
    ensures forall i :: 0 <= i < |ts| ==> m <= ts[i]
    decreases |ts|
  {
    if |ts| == 1 then ts[0]
    else
      var rest := MinOf(ts[..|ts| - 1]);
      if ts[|ts| - 1] < rest then ts[|ts| - 1] else rest
  }

  /** The latest timestamp (`Series.max`). */
  function MaxOf(ts: seq<int>): (m: int)
    requires |ts| > 0
    ensures m in ts
    ensures forall i :: 0 <= i < |ts| ==> ts[i] <= m
    decreases |ts|
  {
    if |ts| == 1 then ts[0]
    else
      var rest := MaxOf(ts[..|ts| - 1]);
      if ts[|ts| - 1] > rest then ts[|ts| - 1] else rest
  }

  /** `pd.date_range(start, end, freq='15min')`: every quarter-hour step
      from `start` that does not pass `end`. */
  function DateRange(start: int, end: int): (g: seq<int>)
    ensures forall i :: 0 <= i < |g| ==> g[i] == start + i * QuarterHour
  {
    if end < start then []
    else seq((end - start) / QuarterHour + 1, i => start + i * QuarterHour)
  }

  /** The resampling grid for timestamps spanning `lo..hi`: it starts at the
      quarter-hour floor of `lo`, steps by exactly fifteen minutes, consists
      of quarter-hour instants only, and ends one quarter after the floor of
      `hi`, so it has at least two instants and its last one lies strictly
      after `hi`. */
  function QuarterHourGrid(lo: int, hi: int): (g: seq<int>)
    requires lo <= hi
    ensures |g| >= 2
    ensures g[0] == FloorToQuarterHour(lo) && g[0] <= lo
    ensures g[|g| - 1] == NextQuarterHour(hi) && hi < g[|g| - 1]
    ensures |g| == (FloorToQuarterHour(hi) - FloorToQuarterHour(lo)) / QuarterHour + 2
    ensures forall i :: 0 <= i < |g| ==> IsOnQuarterHour(g[i])
    ensures forall i :: 0 < i < |g| ==> g[i] == g[i - 1] + QuarterHour
  {
    var start := FloorToQuarterHour(lo);
    var end := NextQuarterHour(hi);
    var k := (FloorToQuarterHour(hi) - start) / QuarterHour;
    DivModUnique(FloorToQuarterHour(hi), 900, FloorToQuarterHour(hi) / 900, 0);
    DivModUnique(start, 900, start / 900, 0);
    DivModUnique(FloorToQuarterHour(hi) - start, 900, FloorToQuarterHour(hi) / 900 - start / 900, 0);
    DivModUnique(end - start, 900, k + 1, 0);
    var g := DateRange(start, end);
    forall i | 0 <= i < |g|
      ensures IsOnQuarterHour(g[i])
    {
      DivModUnique(g[i], 900, start / 900 + i, 0);
      OnQuarterHourIffMultiple(g[i]);
    }
    g
  }

  /** Every timestamp in `lo..hi` has its quarter-hour floor on the grid, at
      the index given by the number of quarters since the grid start. */
  lemma GridCoversRange(lo: int, hi: int, t: int)
    requires lo <= t <= hi
    ensures var g := QuarterHourGrid(lo, hi);
      var i := (FloorToQuarterHour(t) - g[0]) / QuarterHour;
      0 <= i < |g| - 1 && g[i] == FloorToQuarterHour(t) && g[i] <= t < g[i + 1]
  {
    var g := QuarterHourGrid(lo, hi);
    var d := FloorToQuarterHour(t) - g[0];
    DivModUnique(d, 900, FloorToQuarterHour(t) / 900 - g[0] / 900, 0);
    DivModUnique(FloorToQuarterHour(t), 900, FloorToQuarterHour(t) / 900, 0);
    DivModUnique(g[0], 900, g[0] / 900, 0);
    FloorMonotone(t, hi);
  }

  lemma FloorMonotone(a: int, b: int)
    requires a <= b
    ensures FloorToQuarterHour(a) <= FloorToQuarterHour(b)
  {
    var fa, fb := FloorToQuarterHour(a), FloorToQuarterHour(b);
    QuarterMultiplesOrdered(fa, fb);
  }

  /** Two multiples of a quarter hour less than a quarter apart are in order. */
  lemma QuarterMultiplesOrdered(fa: int, fb: int)
    requires fa % QuarterHour == 0 && fb % QuarterHour == 0 && fa < fb + QuarterHour
    ensures fa <= fb
  {
    assert fa == QuarterHour * (fa / QuarterHour);
    assert fb == QuarterHour * (fb / QuarterHour);
  }

  /** The grid of an input with at least one sample: from the quarter-hour
      floor of its earliest timestamp to one quarter after the floor of its
      latest. */
  function SampleGrid(stores: seq<SensorStore>): (g: seq<int>)
    requires |AllTimes(stores)| > 0
    ensures |g| >= 2
  {
    QuarterHourGrid(MinOf(AllTimes(stores)), MaxOf(AllTimes(stores)))
  }

  /** The grid starts at the quarter-hour floor of the earliest sample of
      any sensor, steps by fifteen minutes over quarter-hour instants only,
      and ends one quarter after the floor of the latest sample; every
      sample lies inside it. */
  lemma GridSpansSamples(stores: seq<SensorStore>)
    requires |AllTimes(stores)| > 0
    ensures var d := SampleGrid(stores);
      && (forall i :: 0 <= i < |d| ==> IsOnQuarterHour(d[i]))
      && (forall i :: 0 < i < |d| ==> d[i] == d[i - 1] + QuarterHour)
      && (forall s, i :: 0 <= s < |stores| && 0 <= i < |stores[s].samples| ==>
            d[0] <= stores[s].samples[i].t < d[|d| - 1])
      && (exists s, i :: 0 <= s < |stores| && 0 <= i < |stores[s].samples|
            && d[0] == FloorToQuarterHour(stores[s].samples[i].t))
      && (exists s, i :: 0 <= s < |stores| && 0 <= i < |stores[s].samples|
            && d[|d| - 1] == NextQuarterHour(stores[s].samples[i].t))
  {
    var times := AllTimes(stores);
    var lo, hi := MinOf(times), MaxOf(times);
    var d := SampleGrid(stores);
    forall s, i | 0 <= s < |stores| && 0 <= i < |stores[s].samples|
      ensures d[0] <= stores[s].samples[i].t < d[|d| - 1]
    {
      AllTimesMembership(stores, stores[s].samples[i].t);
      FloorMonotone(lo, stores[s].samples[i].t);
      FloorMonotone(stores[s].samples[i].t, hi);
    }
    AllTimesMembership(stores, lo);
    AllTimesMembership(stores, hi);
  }
}
