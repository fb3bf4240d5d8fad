/** What estimatePrecision returns against three kinds of time killer: one that
    always takes exactly the requested time, one that always overshoots by the
    same amount, and one that returns early. */
module Scenarios {
  import opened Jvm
  import Overhead
  import Search

  /** A perfect killer is precise at every candidate, so the search only ever
      moves right down: it ends at its last midpoint, between 3 * min / 2 and
      2 * min (150..200 ns for the default bounds), not at minResolution. */
  lemma PerfectKillerEstimate(killer: Overhead.Killer, min: int, max: int)
    requires 0 < min && max - min >= min
    requires forall r, k :: killer(r, k) == r
    ensures Search.Estimate(killer, min, max).Returned?
    ensures (3 * min) / 2 <= Search.Estimate(killer, min, max).value <= 2 * min
  {
    forall r | min <= r <= max
      ensures Search.Verdict(killer, max, r) == Returned(true)
    {
      Overhead.ConstantOverhead(killer, r, 0, Search.Iterations(max, r));
    }
    Search.EstimateAllPrecise(killer, min, max);
  }

  /** A killer that always overshoots by c >= min is precise exactly at the
      candidates >= c, so the search returns a resolution in [c, c + min], or
      -1 only when c is within min of maxResolution; with c = 2 * min and a
      window of at least 3 * min it finds one. The iteration count must
      not wrap in the (int) cast for this to hold. */
  lemma ConstantOverheadEstimate(killer: Overhead.Killer, min: int, max: int, c: int)
    requires 0 < min <= c
    requires max / min <= INT_MAX
    requires forall r, k :: killer(r, k) == r + c
    ensures Search.Estimate(killer, min, max).Returned?
    ensures var x := Search.Estimate(killer, min, max).value;
      (x == -1 ==> max - c < min) && (x != -1 ==> c <= x <= c + min)
  {
    forall r | min <= r <= max
      ensures Search.Verdict(killer, max, r) == Returned(r >= c)
    {
      Search.IterationsFit(min, max, r);
      Overhead.ConstantOverhead(killer, r, c, Search.Iterations(max, r));
    }
    Search.EstimateThreshold(killer, min, max, c);
  }

  /** A killer whose calls return before the requested time makes the first
      check throw, and the AssertionError propagates out of the search. The
      first midpoint is above max / 3, so its iteration count is 1 or 2 and the
      (int) cast cannot wrap, whatever the bounds. */
  lemma UnderSleepEstimate(killer: Overhead.Killer, min: int, max: int)
    requires 0 < min && max - min >= min
    requires forall r, k :: killer(r, k) < r
    ensures Search.Estimate(killer, min, max).Threw?
  {
    var w := Search.Start(min, max);
    var mid := Search.Midpoint(min, max, w);
    assert 3 * mid > max;
    assert 1 <= max / mid <= 2;
    assert Search.Iterations(max, mid) == max / mid;
    Overhead.UnderSleepAborts(killer, mid, Search.Iterations(max, mid));
  }
}
