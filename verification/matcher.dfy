/** The per-sensor nearest matcher: for one grid instant and one sensor,
    the sample closest in time among that sensor's non-missing samples
    within the tolerance window. */
module Matcher {
  import opened Types
  import opened Clock

  /** Absolute time difference `|t - target|`. */
  function Distance(t: int, target: int): nat
  {
    if t >= target then t - target else target - t
  }

  /** A sample may be matched to `target`: it holds a value and lies within
      the closed tolerance window. */
  predicate Eligible(s: Sample, target: int, tol: int)
  {
    s.value != Missing && Distance(s.t, target) <= tol
  }

  predicate NoneEligible(samples: seq<Sample>, target: int, tol: int)
  {
    forall j :: 0 <= j < |samples| ==> !Eligible(samples[j], target, tol)
  }

  /** `i` is the first position, among the first `n` samples, of an eligible
      sample at minimal distance (what `idxmin` over the masked distances
      selects). */
  predicate IsNearestAmong(samples: seq<Sample>, n: nat, target: int, tol: int, i: int)
    requires n <= |samples|
  {
    && 0 <= i < n
    && Eligible(samples[i], target, tol)
    && (forall j :: 0 <= j < n && Eligible(samples[j], target, tol) ==>
          Distance(samples[i].t, target) <= Distance(samples[j].t, target))
    && (forall j :: 0 <= j < i && Eligible(samples[j], target, tol) ==>
          Distance(samples[i].t, target) < Distance(samples[j].t, target))
  }

  predicate IsNearest(samples: seq<Sample>, target: int, tol: int, i: int)
  {
    IsNearestAmong(samples, |samples|, target, tol, i)
  }

  /** Scans the first `n` samples, keeping the earliest closest eligible one. */
  function NearestAmong(samples: seq<Sample>, n: nat, target: int, tol: int): (r: Option<nat>)
    requires n <= |samples|
    ensures r.None? <==> forall j :: 0 <= j < n ==> !Eligible(samples[j], target, tol)
    ensures r.Some? ==> IsNearestAmong(samples, n, target, tol, r.value)
    decreases n
  {
    if n == 0 then None
    else
      var best := NearestAmong(samples, n - 1, target, tol);
      var last := samples[n - 1];
      if Eligible(last, target, tol)
         && (best.None? || Distance(last.t, target) < Distance(samples[best.value].t, target))
      then Some(n - 1)
      else best
  }

  /** The index of the sample matched to `target`, if any. */
  function Nearest(samples: seq<Sample>, target: int, tol: int): (r: Option<nat>)
    ensures r.None? <==> NoneEligible(samples, target, tol)
    ensures r.Some? ==> IsNearest(samples, target, tol, r.value)
  {
    NearestAmong(samples, |samples|, target, tol)
  }

  /** The nearest-sample condition singles out one position, so any search
      meeting it (a linear scan, or a binary search over sorted samples)
      picks the same sample. */
  lemma NearestIsUnique(samples: seq<Sample>, target: int, tol: int, i: int, j: int)
    requires IsNearest(samples, target, tol, i) && IsNearest(samples, target, tol, j)
    ensures i == j
  {
  }

  /** When the samples are in time order (the merged frame is sorted by
      date), an equidistant tie is resolved in favour of the earlier
      timestamp. */
  lemma SortedTieGoesToEarlier(samples: seq<Sample>, target: int, tol: int, i: int, j: int)
    requires forall a, b :: 0 <= a < b < |samples| ==> samples[a].t <= samples[b].t
    requires IsNearest(samples, target, tol, i)
    requires 0 <= j < |samples| && Eligible(samples[j], target, tol)
    requires Distance(samples[j].t, target) == Distance(samples[i].t, target)
    ensures samples[i].t <= samples[j].t
  {
  }

  /** One resampled cell: the matched sample's value, copied unchanged, and
      whether that sample's own timestamp is off the quarter-hour; a missing
      value with a false flag when nothing is in the window. */
  function MatchCell(samples: seq<Sample>, target: int, tol: int): (m: Matched)
    ensures NoneEligible(samples, target, tol) ==> m == Matched(Missing, false)
    ensures m.value == Missing <==> NoneEligible(samples, target, tol)
    ensures !NoneEligible(samples, target, tol) ==>
      exists i :: IsNearest(samples, target, tol, i)
        && m.value == samples[i].value
        && (m.inexact <==> !IsOnQuarterHour(samples[i].t))
  {
    match Nearest(samples, target, tol)
    case None => Matched(Missing, false)
    case Some(i) => Matched(samples[i].value, !IsOnQuarterHour(samples[i].t))
  }
}
