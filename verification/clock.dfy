/** Wall-clock arithmetic on timestamps held as whole seconds since a
    midnight epoch. The minute and second components are derived the way
    a naive datetime exposes them, and the quarter-hour rounding follows
    the source's `replace(minute=..., second=0)` computations. */
module Clock {

  const SecondsPerMinute: int := 60
  const SecondsPerHour: int := 3600
  const QuarterHour: int := 900

  /** The minute-of-hour component (0..59). */
  function MinuteOf(t: int): int
  {
    (t % SecondsPerHour) / SecondsPerMinute
  }

  /** The second-of-minute component (0..59). */
  function SecondOf(t: int): int
  {
    t % SecondsPerMinute
  }

  /** The instant `t` with minutes and seconds zeroed. */
  function HourStart(t: int): int
  {
    t - t % SecondsPerHour
  }

  /** The source's exactness test: minute a multiple of 15 and second zero. */
  predicate IsOnQuarterHour(t: int)
  {
    MinuteOf(t) % 15 == 0 && SecondOf(t) == 0
  }

  /** Splits `t` into hour start, whole minutes and seconds. */
  lemma Decompose(t: int)
    ensures t == HourStart(t) + MinuteOf(t) * 60 + SecondOf(t)
    ensures 0 <= MinuteOf(t) < 60 && 0 <= SecondOf(t) < 60
    ensures HourStart(t) % 3600 == 0
  {
    var m := t % 3600;
    assert m == (m / 60) * 60 + m % 60;
    assert t % 60 == m % 60 by {
      assert t == (t / 3600) * 3600 + m;
      assert t == ((t / 3600) * 60 + m / 60) * 60 + m % 60;
      DivModUnique(t, 60, (t / 3600) * 60 + m / 60, m % 60);
    }
    DivModUnique(HourStart(t), 3600, t / 3600, 0);
  }

  /** Division with remainder is unique. */
  lemma DivModUnique(x: int, d: int, q: int, m: int)
    requires 0 < d && 0 <= m < d && x == q * d + m
    ensures x / d == q && x % d == m
  {
    var q', m' := x / d, x % d;
    assert x == q' * d + m';
    assert (q' - q) * d == m - m';
    MulAwayFromZero(q' - q, d);
  }

  /** A nonzero multiple of `d` is at least `d` away from zero. */
  lemma MulAwayFromZero(a: int, d: int)
    requires d > 0
    ensures a >= 1 ==> a * d >= d
    ensures a <= -1 ==> a * d <= -d
  {
    assert a * d == (a - 1) * d + d;
    assert a * d == (a + 1) * d - d;
  }

  /** Moving one hour later moves the hour start by one hour. */
  lemma HourStartShift(t: int)
    ensures HourStart(t + SecondsPerHour) == HourStart(t) + SecondsPerHour
  {
    DivModUnique(t + 3600, 3600, t / 3600 + 1, t % 3600);
  }

  /** An instant is on a quarter-hour exactly when it is a multiple of 900
      seconds, because a quarter-hour divides the hour. */
  lemma OnQuarterHourIffMultiple(t: int)
    ensures IsOnQuarterHour(t) <==> t % QuarterHour == 0
  {
    Decompose(t);
    var h, mi, se := HourStart(t), MinuteOf(t), SecondOf(t);
    var k := (h / 3600) * 4 + mi / 15;
    assert t == k * 900 + ((mi % 15) * 60 + se);
    DivModUnique(t, 900, k, (mi % 15) * 60 + se);
  }

  /** Start of the grid: the minute rounded down to a multiple of 15, with
      seconds zeroed. It is the latest quarter-hour not after `t`. */
  function FloorToQuarterHour(t: int): (r: int)
    ensures r <= t < r + QuarterHour
    ensures r % QuarterHour == 0
    ensures IsOnQuarterHour(r)
    ensures IsOnQuarterHour(t) <==> r == t
  {
    Decompose(t);
    var r := HourStart(t) + (MinuteOf(t) / 15) * 15 * 60;
    assert r == (HourStart(t) / 3600 * 4 + MinuteOf(t) / 15) * 900;
    DivModUnique(r, 900, HourStart(t) / 3600 * 4 + MinuteOf(t) / 15, 0);
    OnQuarterHourIffMultiple(r);
    OnQuarterHourIffMultiple(t);
    assert t - r == (MinuteOf(t) % 15) * 60 + SecondOf(t);
    r
  }

  /** End of the grid: the minute rounded down to a multiple of 15 plus one
      quarter, carried into the next hour when it reaches 60. It is always
      strictly after `t`, so an instant already on a quarter-hour still gets
      one more quarter. */
  function NextQuarterHour(t: int): (r: int)
    ensures r == FloorToQuarterHour(t) + QuarterHour
    ensures t < r <= t + QuarterHour
    ensures IsOnQuarterHour(r)
    ensures IsOnQuarterHour(t) ==> r == t + QuarterHour
  {
    Decompose(t);
    HourStartShift(t);
    var endMinute := (MinuteOf(t) / 15 + 1) * 15;
    var r := if endMinute >= 60 then HourStart(t + SecondsPerHour)
             else HourStart(t) + endMinute * SecondsPerMinute;
    var f := FloorToQuarterHour(t);
    assert r == f + 900;
    DivModUnique(r, 900, f / 900 + 1, 0);
    OnQuarterHourIffMultiple(r);
    r
  }
}
