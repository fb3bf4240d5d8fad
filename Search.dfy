/** The binary search of estimatePrecision, stated on values: the search window
    (left, right, lastSuccessfulResolution), one step of the loop, and the whole
    run as a recursive function, with what the search promises about its result. */
module Search {
  import opened Jvm
  import Overhead

  /** The locals of the search loop. */
  datatype Window = Window(left: int, right: int, lastSuccessful: int)

  /** left = minResolution, right = maxResolution, lastSuccessfulResolution = -1. */
  function Start(min: int, max: int): Window
  {
    Window(min, max, -1)
  }

  /** The loop condition. */
  predicate Searching(min: int, w: Window)
  {
    w.right - w.left >= min
  }

  /** The loop invariant: the window stays inside [minResolution, maxResolution],
      and the sentinel is -1 or sits just above right. */
  predicate Valid(min: int, max: int, w: Window)
  {
    && 0 < min <= w.left
    && w.right <= max
    && (w.lastSuccessful == -1 || w.left <= w.lastSuccessful == w.right + 1 <= max)
  }

  /** currentResolution: the midpoint of a window that is still searched. */
  function Midpoint(min: int, max: int, w: Window): (m: int)
    requires Valid(min, max, w) && Searching(min, w)
    ensures w.left <= m < w.right
    ensures min <= m <= max
  {
    (w.left + w.right) / 2
  }

  /** The iteration count handed to the check: (int) (maxResolution / r). */
  function Iterations(max: int, r: int): int
    requires 0 < r <= max
  {
    IntCast(max / r)
  }

  /** The outcome of isPrecise at the candidate resolution r. */
  function Verdict(killer: Overhead.Killer, max: int, r: int): Outcome<bool>
    requires 0 < r <= max
  {
    Overhead.Check(killer, r, Iterations(max, r))
  }

  /** One step of the loop, given the answer of the check at the midpoint. */
  function Narrow(min: int, max: int, w: Window, precise: bool): (n: Window)
    requires Valid(min, max, w) && Searching(min, w)
    ensures Valid(min, max, n)
    ensures 2 * (n.right - n.left) <= w.right - w.left - 1
    ensures n.lastSuccessful == if precise then Midpoint(min, max, w) else w.lastSuccessful
  {
    var mid := Midpoint(min, max, w);
    if precise then Window(w.left, mid - 1, mid) else Window(mid + 1, w.right, w.lastSuccessful)
  }

  /** The rest of the search from window w: the value returned, or the
      AssertionError that a check threw. */
  function Run(killer: Overhead.Killer, min: int, max: int, w: Window): Outcome<int>
    requires Valid(min, max, w)
    decreases w.right - w.left
  {
    if !Searching(min, w) then Returned(w.lastSuccessful)
    else
      var mid := Midpoint(min, max, w);
      match Verdict(killer, max, mid)
      case Threw(e) => Threw(e)
      case Returned(precise) => Run(killer, min, max, Narrow(min, max, w, precise))
  }

  /** The resolutions the rest of the search from window w checks, in order. */
  function Probes(killer: Overhead.Killer, min: int, max: int, w: Window): seq<int>
    requires Valid(min, max, w)
    decreases w.right - w.left
  {
    if !Searching(min, w) then []
    else
      var mid := Midpoint(min, max, w);
      match Verdict(killer, max, mid)
      case Threw(_) => [mid]
      case Returned(precise) => [mid] + Probes(killer, min, max, Narrow(min, max, w, precise))
  }

  /** What estimatePrecision returns (or throws). */
  function Estimate(killer: Overhead.Killer, min: int, max: int): Outcome<int>
    requires min > 0
  {
    Run(killer, min, max, Start(min, max))
  }

  /** The resolutions estimatePrecision checks, in order. */
  function Trace(killer: Overhead.Killer, min: int, max: int): seq<int>
    requires min > 0
  {
    Probes(killer, min, max, Start(min, max))
  }

  function Pow2(n: nat): (p: nat)
    ensures p >= 1
  {
    if n == 0 then 1 else 2 * Pow2(n - 1)
  }

  /** Every probe lies in the window; every probe but the last returned; the
      search throws exactly when its last probe threw, with that error; and it
      probes nothing exactly when the loop condition fails at once. */
  lemma {:induction false} RunShape(killer: Overhead.Killer, min: int, max: int, w: Window)
    requires Valid(min, max, w)
    ensures var p := Probes(killer, min, max, w);
      && (|p| == 0 <==> !Searching(min, w))
      && (forall i :: 0 <= i < |p| ==> w.left <= p[i] <= w.right && min <= p[i] <= max)
      && (forall i :: 0 <= i < |p| - 1 ==> Verdict(killer, max, p[i]).Returned?)
      && (Run(killer, min, max, w).Threw? <==> |p| > 0 && Verdict(killer, max, p[|p| - 1]).Threw?)
      && (Run(killer, min, max, w).Threw? ==>
            Run(killer, min, max, w).error == Verdict(killer, max, p[|p| - 1]).error)
    decreases w.right - w.left
  {
    if Searching(min, w) {
      var mid := Midpoint(min, max, w);
      var v := Verdict(killer, max, mid);
      if v.Returned? {
        var n := Narrow(min, max, w, v.value);
        RunShape(killer, min, max, n);
        var p := Probes(killer, min, max, w);
        var q := Probes(killer, min, max, n);
        assert p == [mid] + q;
        assert forall i :: 1 <= i < |p| ==> p[i] == q[i - 1];
      }
    }
  }

  /** No resolution is checked twice: each step leaves the midpoint outside the
      new window, so a killer indexed by resolution describes every call. */
  lemma {:induction false} ProbesDistinct(killer: Overhead.Killer, min: int, max: int, w: Window)
    requires Valid(min, max, w)
    ensures var p := Probes(killer, min, max, w);
      forall i, j :: 0 <= i < j < |p| ==> p[i] != p[j]
    decreases w.right - w.left
  {
    if Searching(min, w) {
      var mid := Midpoint(min, max, w);
      var v := Verdict(killer, max, mid);
      if v.Returned? {
        var n := Narrow(min, max, w, v.value);
        ProbesDistinct(killer, min, max, n);
        RunShape(killer, min, max, n);
        var p := Probes(killer, min, max, w);
        var q := Probes(killer, min, max, n);
        assert p == [mid] + q;
        assert forall j :: 1 <= j < |p| ==> p[j] == q[j - 1] && p[j] != mid;
      }
    }
  }

  /** The search returns -1 or a resolution it checked and found precise
      (or the sentinel it started from). */
  lemma {:induction false} RunSound(killer: Overhead.Killer, min: int, max: int, w: Window)
    requires Valid(min, max, w)
    requires w.lastSuccessful == -1 || Verdict(killer, max, w.lastSuccessful) == Returned(true)
    ensures var x := Run(killer, min, max, w);
      x.Returned? ==>
        x.value == -1 ||
        (&& min <= x.value <= max
         && Verdict(killer, max, x.value) == Returned(true)
         && (x.value == w.lastSuccessful || x.value in Probes(killer, min, max, w)))
    decreases w.right - w.left
  {
    if Searching(min, w) {
      var mid := Midpoint(min, max, w);
      var v := Verdict(killer, max, mid);
      if v.Returned? {
        RunSound(killer, min, max, Narrow(min, max, w, v.value));
      }
    }
  }

  /** A precise check is never forgotten: the search does not return -1 once
      the sentinel is set or a checked resolution is found precise, and what it
      returns is at most the sentinel and every precise checked resolution. */
  lemma {:induction false} RunMin(killer: Overhead.Killer, min: int, max: int, w: Window)
    requires Valid(min, max, w)
    ensures var x := Run(killer, min, max, w);
      var p := Probes(killer, min, max, w);
      x.Returned? ==>
        && (w.lastSuccessful != -1 ==> x.value != -1 && x.value <= w.lastSuccessful)
        && (forall i :: 0 <= i < |p| && 0 < p[i] <= max && Verdict(killer, max, p[i]) == Returned(true)
              ==> x.value != -1 && x.value <= p[i])
    decreases w.right - w.left
  {
    if Searching(min, w) {
      var mid := Midpoint(min, max, w);
      var v := Verdict(killer, max, mid);
      if v.Returned? {
        var n := Narrow(min, max, w, v.value);
        RunMin(killer, min, max, n);
        RunShape(killer, min, max, n);
        assert Run(killer, min, max, w) == Run(killer, min, max, n);
        var p := Probes(killer, min, max, w);
        var q := Probes(killer, min, max, n);
        assert p == [mid] + q;
        assert forall i :: 1 <= i < |p| ==> p[i] == q[i - 1];
        if v.value {
          assert n.lastSuccessful == mid;
        } else {
          assert n.lastSuccessful == w.lastSuccessful;
        }
      }
    }
  }

  /** From a window with no sentinel, the search returns -1 exactly when none
      of its checks is precise, and otherwise a precise checked resolution at
      most every precise checked resolution. */
  lemma RunLast(killer: Overhead.Killer, min: int, max: int, w: Window)
    requires Valid(min, max, w) && w.lastSuccessful == -1
    ensures var x := Run(killer, min, max, w);
      var p := Probes(killer, min, max, w);
      x.Returned? ==>
        && (x.value == -1 <==>
              forall i :: 0 <= i < |p| && 0 < p[i] <= max ==> Verdict(killer, max, p[i]) != Returned(true))
        && (forall i :: 0 <= i < |p| && 0 < p[i] <= max && Verdict(killer, max, p[i]) == Returned(true)
              ==> x.value <= p[i])
  {
    RunSound(killer, min, max, w);
    RunMin(killer, min, max, w);
    var x := Run(killer, min, max, w);
    var p := Probes(killer, min, max, w);
    if x.Returned? && x.value != -1 {
      var i :| 0 <= i < |p| && p[i] == x.value;
      assert 0 < p[i] <= max && Verdict(killer, max, p[i]) == Returned(true);
    }
  }

  /** estimatePrecision returns -1 exactly when none of the candidates it
      checked was found precise; otherwise it returns a checked candidate in
      [minResolution, maxResolution] that was found precise and is at most
      every precise checked candidate, i.e. the last one found precise. */
  lemma EstimateSound(killer: Overhead.Killer, min: int, max: int)
    requires min > 0
    ensures var x := Estimate(killer, min, max);
      x.Returned? ==>
        x.value == -1 ||
        (&& min <= x.value <= max
         && Verdict(killer, max, x.value) == Returned(true)
         && x.value in Trace(killer, min, max))
    ensures var x := Estimate(killer, min, max);
      var t := Trace(killer, min, max);
      x.Returned? ==>
        && (x.value == -1 <==>
              forall i :: 0 <= i < |t| && 0 < t[i] <= max ==> Verdict(killer, max, t[i]) != Returned(true))
        && (forall i :: 0 <= i < |t| && 0 < t[i] <= max && Verdict(killer, max, t[i]) == Returned(true)
              ==> x.value <= t[i])
  {
    var w := Start(min, max);
    RunSound(killer, min, max, w);
    RunLast(killer, min, max, w);
    assert Estimate(killer, min, max) == Run(killer, min, max, w);
    assert Trace(killer, min, max) == Probes(killer, min, max, w);
  }

  /** With no precise candidate the search keeps the sentinel. */
  lemma {:induction false} RunAllImprecise(killer: Overhead.Killer, min: int, max: int, w: Window)
    requires Valid(min, max, w) && w.lastSuccessful == -1
    requires forall r :: min <= r <= max ==> Verdict(killer, max, r) == Returned(false)
    ensures Run(killer, min, max, w) == Returned(-1)
    decreases w.right - w.left
  {
    if Searching(min, w) {
      RunAllImprecise(killer, min, max, Narrow(min, max, w, false));
    }
  }

  /** If every check returns false, estimatePrecision returns -1. */
  lemma EstimateAllImprecise(killer: Overhead.Killer, min: int, max: int)
    requires min > 0
    requires forall r :: min <= r <= max ==> Verdict(killer, max, r) == Returned(false)
    ensures Estimate(killer, min, max) == Returned(-1)
  {
    RunAllImprecise(killer, min, max, Start(min, max));
  }

  /** With every candidate precise, left stays at minResolution: each probe is
      at least 3 * min / 2 and below the one before it. */
  lemma {:induction false} RunAllPrecise(killer: Overhead.Killer, min: int, max: int, w: Window)
    requires Valid(min, max, w) && w.left == min
    requires w.lastSuccessful == -1 || (3 * min) / 2 <= w.lastSuccessful
    requires Searching(min, w) || w.lastSuccessful != -1
    requires forall r :: min <= r <= max ==> Verdict(killer, max, r) == Returned(true)
    ensures Run(killer, min, max, w).Returned?
    ensures (3 * min) / 2 <= Run(killer, min, max, w).value <= 2 * min
    ensures var p := Probes(killer, min, max, w);
      && (forall i :: 0 <= i < |p| ==> (3 * min) / 2 <= p[i])
      && (forall i :: 0 < i < |p| ==> p[i] < p[i - 1])
    decreases w.right - w.left
  {
    if Searching(min, w) {
      var mid := Midpoint(min, max, w);
      var n := Narrow(min, max, w, true);
      assert n.left == min && n.right == mid - 1;
      RunAllPrecise(killer, min, max, n);
      RunShape(killer, min, max, n);
      var p := Probes(killer, min, max, w);
      var q := Probes(killer, min, max, n);
      assert p == [mid] + q;
      assert forall i :: 1 <= i < |p| ==> p[i] == q[i - 1];
    }
  }

  /** If every check returns true and the loop runs at least once, only right
      moves: the probes fall strictly, none below 3 * min / 2, and the result
      is not -1 but the last midpoint, between 3 * min / 2 and 2 * min. */
  lemma EstimateAllPrecise(killer: Overhead.Killer, min: int, max: int)
    requires min > 0 && max - min >= min
    requires forall r :: min <= r <= max ==> Verdict(killer, max, r) == Returned(true)
    ensures Estimate(killer, min, max).Returned?
    ensures (3 * min) / 2 <= Estimate(killer, min, max).value <= 2 * min
    ensures forall i :: 0 <= i < |Trace(killer, min, max)| ==>
      (3 * min) / 2 <= Trace(killer, min, max)[i]
    ensures forall i :: 0 < i < |Trace(killer, min, max)| ==>
      Trace(killer, min, max)[i] < Trace(killer, min, max)[i - 1]
  {
    RunAllPrecise(killer, min, max, Start(min, max));
    var t := Trace(killer, min, max);
    assert t == Probes(killer, min, max, Start(min, max));
    assert Estimate(killer, min, max) == Run(killer, min, max, Start(min, max));
  }

  /** Against a check that is precise exactly from the threshold k upwards, the
      window keeps left <= k, and a found resolution is at least k. */
  lemma {:induction false} RunThreshold(killer: Overhead.Killer, min: int, max: int, k: int, w: Window)
    requires Valid(min, max, w) && w.left <= k
    requires w.lastSuccessful == -1 ==> w.right == max
    requires w.lastSuccessful != -1 ==> k <= w.lastSuccessful
    requires forall r :: min <= r <= max ==> Verdict(killer, max, r) == Returned(r >= k)
    ensures Run(killer, min, max, w).Returned?
    ensures var x := Run(killer, min, max, w).value;
      (x == -1 ==> max - k < min) && (x != -1 ==> k <= x <= k + min)
    decreases w.right - w.left
  {
    if Searching(min, w) {
      var mid := Midpoint(min, max, w);
      RunThreshold(killer, min, max, k, Narrow(min, max, w, mid >= k));
    }
  }

  /** If the check is precise exactly at the candidates >= k (k >= min), the
      search returns a resolution in [k, k + min], or -1 only when k lies
      within min of maxResolution. */
  lemma EstimateThreshold(killer: Overhead.Killer, min: int, max: int, k: int)
    requires 0 < min <= k
    requires forall r :: min <= r <= max ==> Verdict(killer, max, r) == Returned(r >= k)
    ensures Estimate(killer, min, max).Returned?
    ensures var x := Estimate(killer, min, max).value;
      (x == -1 ==> max - k < min) && (x != -1 ==> k <= x <= k + min)
  {
    RunThreshold(killer, min, max, k, Start(min, max));
  }

  /** Each probe halves the window, so n probes need a window of 2^(n-1) * min. */
  lemma {:induction false} ProbesLogarithmic(killer: Overhead.Killer, min: int, max: int, w: Window)
    requires Valid(min, max, w)
    ensures var n := |Probes(killer, min, max, w)|;
      n > 0 ==> Pow2(n - 1) * min <= w.right - w.left
    decreases w.right - w.left
  {
    if Searching(min, w) {
      var mid := Midpoint(min, max, w);
      var v := Verdict(killer, max, mid);
      if v.Returned? {
        var nw := Narrow(min, max, w, v.value);
        ProbesLogarithmic(killer, min, max, nw);
        var m := |Probes(killer, min, max, nw)|;
        assert |Probes(killer, min, max, w)| == m + 1;
        if m > 0 {
          Doubling(Pow2(m - 1), min, nw.right - nw.left, w.right - w.left);
        }
      }
    }
  }

  lemma Doubling(p: nat, min: int, a: int, b: int)
    requires p * min <= a && 2 * a <= b
    ensures (2 * p) * min <= b
  {
  }

  /** estimatePrecision makes n checks only when 2^(n-1) * minResolution <=
      maxResolution - minResolution: O(log((max - min) / min)) steps. */
  lemma EstimateLogarithmic(killer: Overhead.Killer, min: int, max: int)
    requires min > 0
    ensures var n := |Trace(killer, min, max)|;
      (n == 0 <==> max - min < min) && (n > 0 ==> Pow2(n - 1) * min <= max - min)
  {
    RunShape(killer, min, max, Start(min, max));
    ProbesLogarithmic(killer, min, max, Start(min, max));
  }

  /** A quotient times its divisor stays within the dividend. */
  lemma QuotientBound(a: int, x: int, d: int)
    requires d > 0 && a >= 0 && a * d <= x
    ensures a <= x / d
  {
    var q, m := x / d, x % d;
    assert x == q * d + m && m < d;
    if a > q {
      assert a * d - q * d == (a - q) * d;
      Overhead.MulAtLeast(a - q, d);
    }
  }

  /** When maxResolution / minResolution fits in an int, the cast is exact at
      every candidate: at least one call is made and resolution * iterations,
      the timeToKill of the check, never exceeds maxResolution. */
  lemma IterationsFit(min: int, max: int, r: int)
    requires 0 < min <= r <= max
    requires max / min <= INT_MAX
    ensures Iterations(max, r) == max / r
    ensures 1 <= Iterations(max, r)
    ensures r * Iterations(max, r) <= max
  {
    var q := max / r;
    assert max == q * r + max % r;
    assert q * min <= q * r;
    QuotientBound(q, max, min);
  }

  /** The iteration count is non-positive only when the (int) cast wrapped,
      and then the candidate is declared precise, whatever the killer, without
      a single kill call. */
  lemma IterationsWrapped(killer: Overhead.Killer, max: int, r: int)
    requires 0 < r <= max
    ensures Iterations(max, r) <= 0 ==> max / r > INT_MAX
    ensures Iterations(max, r) <= 0 ==> Verdict(killer, max, r) == Returned(true)
    ensures Iterations(max, r) <= 0 ==> Overhead.CallsMade(killer, r, Iterations(max, r)) == 0
  {
    assert max / r >= 1;
  }

  /** The cast does wrap: with maxResolution = 2^32 the candidate 1 is checked
      with zero iterations, so it is declared precise without a single call. */
  lemma IterationsWrap(killer: Overhead.Killer)
    ensures Iterations(0x1_0000_0000, 1) == 0
    ensures Verdict(killer, 0x1_0000_0000, 1) == Returned(true)
    ensures Overhead.CallsMade(killer, 1, Iterations(0x1_0000_0000, 1)) == 0
  {
    IterationsWrapped(killer, 0x1_0000_0000, 1);
  }
}
