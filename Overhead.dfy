/** The overhead-accounting policy of isPrecise, stated on values: which call of
    a precision check first goes wrong, and what the check then reports. */
module Overhead {
  import opened Jvm

  /** The time killer as the durations measured around it: killer(resolution, k)
      is endNanos - startNanos of the k-th (0-based) call kill(resolution) made
      by one precision check at that resolution. */
  type Killer = (int, nat) -> int

  /** elapsedNanoTime after the first n calls at resolution r. */
  function Elapsed(killer: Killer, r: int, n: nat): int
  {
    if n == 0 then 0 else Elapsed(killer, r, n - 1) + killer(r, n - 1)
  }

  /** shouldHaveElapsed at call k: killed + resolution, where killed == k * r. */
  function ShouldHaveElapsed(r: int, k: nat): int
  {
    (k + 1) * r
  }

  /** The fatal condition at call k: the cumulative total is behind schedule. */
  predicate BehindSchedule(killer: Killer, r: int, k: nat)
  {
    Elapsed(killer, r, k + 1) < ShouldHaveElapsed(r, k)
  }

  /** The average overhead per call after call k. The divisor is
      shouldHaveElapsed / resolution, which is k + 1 (lemma DivisorIsCallCount).
      It is only consulted when the check is not behind schedule, where the
      numerator is non-negative and Java's division agrees with Dafny's. */
  function OverheadPerInvocation(killer: Killer, r: int, k: nat): int
  {
    (Elapsed(killer, r, k + 1) - ShouldHaveElapsed(r, k)) / (k + 1)
  }

  /** The failure condition at call k. */
  predicate OverThreshold(killer: Killer, r: int, k: nat)
  {
    OverheadPerInvocation(killer, r, k) > r
  }

  /** Call k neither aborts nor ends the check. */
  predicate StepPasses(killer: Killer, r: int, k: nat)
  {
    !BehindSchedule(killer, r, k) && !OverThreshold(killer, r, k)
  }

  /** How many times the loop `for (killed = 0; killed < resolution * iterations;
      killed += resolution)` runs when nothing stops it: iterations, or none
      when iterations is not positive. */
  function KillCount(iterations: int): nat
  {
    if iterations > 0 then iterations else 0
  }

  /** The first call in [from, n) that does not pass, or n if all of them pass. */
  function FirstFailure(killer: Killer, r: int, n: nat, from: nat): (j: nat)
    requires from <= n
    ensures from <= j <= n
    ensures forall k :: from <= k < j ==> StepPasses(killer, r, k)
    ensures j < n ==> !StepPasses(killer, r, j)
    decreases n - from
  {
    if from == n then n
    else if !StepPasses(killer, r, from) then from
    else FirstFailure(killer, r, n, from + 1)
  }

  /** What isPrecise(killer, r, iterations) does: return true when every call
      passes, throw at the first call behind schedule, return false at the first
      call over the threshold. */
  function Check(killer: Killer, r: int, iterations: int): Outcome<bool>
  {
    var n := KillCount(iterations);
    var j := FirstFailure(killer, r, n, 0);
    if j == n then Returned(true)
    else if BehindSchedule(killer, r, j) then
      Threw(AssertionError(ShouldHaveElapsed(r, j), Elapsed(killer, r, j + 1)))
    else Returned(false)
  }

  /** How many kill calls isPrecise(killer, r, iterations) makes. */
  function CallsMade(killer: Killer, r: int, iterations: int): nat
  {
    var n := KillCount(iterations);
    var j := FirstFailure(killer, r, n, 0);
    if j == n then n else j + 1
  }

  /** The first failing call is the only call that fails with all before it passing. */
  lemma FirstFailureUnique(killer: Killer, r: int, n: nat, from: nat, j: nat)
    requires from <= j <= n
    requires forall k :: from <= k < j ==> StepPasses(killer, r, k)
    requires j < n ==> !StepPasses(killer, r, j)
    ensures FirstFailure(killer, r, n, from) == j
  {
  }

  /** The divisor shouldHaveElapsed / resolution at call k is k + 1, never zero. */
  lemma DivisorIsCallCount(r: int, k: nat)
    requires r > 0
    ensures ShouldHaveElapsed(r, k) / r == k + 1 >= 1
  {
    DivCancel(k + 1, r);
  }

  /** Dividing a multiple of d by d gives the factor back. */
  lemma DivCancel(q: int, d: int)
    requires d > 0
    ensures (q * d) / d == q
  {
    var x := q * d;
    var p, m := x / d, x % d;
    assert x == p * d + m && 0 <= m < d;
    var t := q - p;
    assert t * d == m by {
      assert q * d - p * d == (q - p) * d;
    }
    if t > 0 {
      MulAtLeast(t, d);
    } else if t < 0 {
      MulAtLeast(-t, d);
    }
  }

  /** A positive multiple of d is at least d. */
  lemma MulAtLeast(t: int, d: int)
    requires t >= 1 && d > 0
    ensures t * d >= d
  {
  }

  /** isPrecise returns true exactly when every one of its calls passes. */
  lemma PreciseIff(killer: Killer, r: int, iterations: int)
    ensures Check(killer, r, iterations) == Returned(true) <==>
      forall k :: 0 <= k < KillCount(iterations) ==> StepPasses(killer, r, k)
  {
  }

  /** isPrecise returns false exactly when some call goes over the threshold
      while on schedule and every call before it passes. */
  lemma ImpreciseIff(killer: Killer, r: int, iterations: int)
    ensures Check(killer, r, iterations) == Returned(false) <==>
      exists j :: (0 <= j < KillCount(iterations)
        && (forall k :: 0 <= k < j ==> StepPasses(killer, r, k))
        && !BehindSchedule(killer, r, j) && OverThreshold(killer, r, j))
  {
    var n := KillCount(iterations);
    if Check(killer, r, iterations) == Returned(false) {
      var j := FirstFailure(killer, r, n, 0);
      assert 0 <= j < n;
    }
    if j :| (0 <= j < n
        && (forall k :: 0 <= k < j ==> StepPasses(killer, r, k))
        && !BehindSchedule(killer, r, j) && OverThreshold(killer, r, j)) {
      FirstFailureUnique(killer, r, n, 0, j);
    }
  }

  /** isPrecise throws exactly when some call is behind schedule and every call
      before it passes, and the error reports that call's figures. */
  lemma AbortIff(killer: Killer, r: int, iterations: int)
    ensures Check(killer, r, iterations).Threw? <==>
      exists j :: (0 <= j < KillCount(iterations)
        && (forall k :: 0 <= k < j ==> StepPasses(killer, r, k))
        && BehindSchedule(killer, r, j)
        && Check(killer, r, iterations)
           == Threw(AssertionError(ShouldHaveElapsed(r, j), Elapsed(killer, r, j + 1))))
  {
    var n := KillCount(iterations);
    if Check(killer, r, iterations).Threw? {
      var j := FirstFailure(killer, r, n, 0);
      assert 0 <= j < n;
    }
    if j :| (0 <= j < n
        && (forall k :: 0 <= k < j ==> StepPasses(killer, r, k))
        && BehindSchedule(killer, r, j)) {
      FirstFailureUnique(killer, r, n, 0, j);
    }
  }

  /** isPrecise makes at most max(iterations, 0) calls, and makes them all when
      it returns true; with iterations <= 0 it returns true without a call. */
  lemma CallsBounded(killer: Killer, r: int, iterations: int)
    ensures CallsMade(killer, r, iterations) <= KillCount(iterations)
    ensures Check(killer, r, iterations) == Returned(true) ==>
      CallsMade(killer, r, iterations) == KillCount(iterations)
    ensures Check(killer, r, iterations) != Returned(true) ==>
      CallsMade(killer, r, iterations) >= 1
    ensures iterations <= 0 ==>
      Check(killer, r, iterations) == Returned(true) && CallsMade(killer, r, iterations) == 0
  {
  }

  /** The elapsed total after n calls depends only on the first n durations. */
  lemma {:induction false} ElapsedPrefix(k1: Killer, k2: Killer, r: int, n: nat)
    requires forall i :: 0 <= i < n ==> k1(r, i) == k2(r, i)
    ensures Elapsed(k1, r, n) == Elapsed(k2, r, n)
  {
    if n > 0 {
      ElapsedPrefix(k1, k2, r, n - 1);
    }
  }

  /** The decision at call k depends only on the first k + 1 durations. */
  lemma StepPrefix(k1: Killer, k2: Killer, r: int, k: nat)
    requires forall i :: 0 <= i <= k ==> k1(r, i) == k2(r, i)
    ensures BehindSchedule(k1, r, k) == BehindSchedule(k2, r, k)
    ensures StepPasses(k1, r, k) == StepPasses(k2, r, k)
  {
    ElapsedPrefix(k1, k2, r, k + 1);
  }

  /** isPrecise uses no duration after its last call: two killers that agree on
      the calls the check makes give the same outcome and the same calls. */
  lemma NoLaterSamples(k1: Killer, k2: Killer, r: int, iterations: int)
    requires forall i :: 0 <= i < CallsMade(k1, r, iterations) ==> k1(r, i) == k2(r, i)
    ensures Check(k1, r, iterations) == Check(k2, r, iterations)
    ensures CallsMade(k1, r, iterations) == CallsMade(k2, r, iterations)
  {
    var n := KillCount(iterations);
    var j := FirstFailure(k1, r, n, 0);
    forall k | 0 <= k < j ensures StepPasses(k2, r, k) {
      StepPrefix(k1, k2, r, k);
    }
    if j < n {
      StepPrefix(k1, k2, r, j);
    }
    FirstFailureUnique(k2, r, n, 0, j);
    if j < n {
      ElapsedPrefix(k1, k2, r, j + 1);
    }
  }

  /** More iterations cannot rescue a check: an outcome other than true is
      reached after the same calls whatever the larger count, and true for some
      count is true for every smaller one. */
  lemma MoreIterations(killer: Killer, r: int, i1: int, i2: int)
    requires i1 <= i2
    ensures Check(killer, r, i2) == Returned(true) ==> Check(killer, r, i1) == Returned(true)
    ensures Check(killer, r, i1) != Returned(true) ==>
      Check(killer, r, i2) == Check(killer, r, i1)
      && CallsMade(killer, r, i2) == CallsMade(killer, r, i1)
  {
    var n1, n2 := KillCount(i1), KillCount(i2);
    var j1 := FirstFailure(killer, r, n1, 0);
    var j2 := FirstFailure(killer, r, n2, 0);
    if j1 < n1 {
      FirstFailureUnique(killer, r, n2, 0, j1);
    }
  }

  /** After n calls that each take r + c, the elapsed total is n * (r + c). */
  lemma {:induction false} ElapsedExact(killer: Killer, r: int, c: int, n: nat)
    requires forall k :: 0 <= k < n ==> killer(r, k) == r + c
    ensures Elapsed(killer, r, n) == n * (r + c)
  {
    if n > 0 {
      ElapsedExact(killer, r, c, n - 1);
      assert Elapsed(killer, r, n) == (n - 1) * (r + c) + (r + c);
    }
  }

  /** A killer whose every call overshoots by the same c >= 0 has the average
      overhead c at every call: with at least one iteration the check is precise
      exactly when c <= r, and an imprecise check stops at its first call; with
      none it is precise without a call. A perfect killer (c == 0) is
      precise at every positive resolution. */
  lemma ConstantOverhead(killer: Killer, r: int, c: int, iterations: int)
    requires r > 0 && c >= 0
    requires forall k :: 0 <= k < KillCount(iterations) ==> killer(r, k) == r + c
    ensures Check(killer, r, iterations) == Returned(c <= r || iterations <= 0)
    ensures c > r && iterations > 0 ==> CallsMade(killer, r, iterations) == 1
    ensures iterations <= 0 ==> CallsMade(killer, r, iterations) == 0
  {
    var n := KillCount(iterations);
    forall k | 0 <= k < n
      ensures !BehindSchedule(killer, r, k)
      ensures OverheadPerInvocation(killer, r, k) == c
    {
      ElapsedExact(killer, r, c, k + 1);
      var m := k + 1;
      assert Elapsed(killer, r, m) - ShouldHaveElapsed(r, k) == c * m by {
        assert m * (r + c) == m * r + c * m;
      }
      DivCancel(c, m);
      assert c * m >= 0;
    }
    if c > r && n > 0 {
      FirstFailureUnique(killer, r, n, 0, 0);
    }
  }

  /** A killer whose first call returns early makes the check throw at once. */
  lemma UnderSleepAborts(killer: Killer, r: int, iterations: int)
    requires iterations > 0
    requires killer(r, 0) < r
    ensures Check(killer, r, iterations) == Threw(AssertionError(r, killer(r, 0)))
    ensures CallsMade(killer, r, iterations) == 1
  {
    assert Elapsed(killer, r, 1) == killer(r, 0);
    FirstFailureUnique(killer, r, KillCount(iterations), 0, 0);
  }
}
