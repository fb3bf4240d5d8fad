/** The precision test itself: an object holding the configured bounds, whose
    estimatePrecision runs the binary search and whose isPrecise runs the
    overhead-accounting loop, each proved to compute its specification in
    modules Search and Overhead. */
module PrecisionTest {
  import opened Jvm
  import Overhead
  import Search

  /** TimeUnit.SECONDS.toNanos(2) */
  const DEFAULT_MAX_RESOLUTION: int := 2_000_000_000
  /** TimeUnit.NANOSECONDS.toNanos(100) */
  const DEFAULT_MIN_RESOLUTION: int := 100

  class PrecisionTest {
    /** Max resolution to be tested, in nanoseconds (--max). */
    var maxResolution: int
    /** Min resolution to be tested, in nanoseconds (--min). */
    var minResolution: int

    constructor ()
      ensures maxResolution == DEFAULT_MAX_RESOLUTION
      ensures minResolution == DEFAULT_MIN_RESOLUTION
    {
      maxResolution := DEFAULT_MAX_RESOLUTION;
      minResolution := DEFAULT_MIN_RESOLUTION;
    }

    /** Binary search for the smallest resolution the killer honours: returns
        the last resolution found precise, or -1; an AssertionError of a check
        propagates. */
    method EstimatePrecision(killer: Overhead.Killer) returns (outcome: Outcome<int>)
      requires minResolution > 0
      ensures outcome == Search.Estimate(killer, minResolution, maxResolution)
      ensures outcome.Returned? ==>
        outcome.value == -1 ||
        (&& minResolution <= outcome.value <= maxResolution
         && Search.Verdict(killer, maxResolution, outcome.value) == Returned(true))
    {
      var left, right := minResolution, maxResolution;
      var lastSuccessfulResolution := -1;

      while right - left >= minResolution
        invariant minResolution <= left && right <= maxResolution
        invariant lastSuccessfulResolution == -1 ||
          left <= lastSuccessfulResolution == right + 1 <= maxResolution
        invariant lastSuccessfulResolution == -1 ||
          Search.Verdict(killer, maxResolution, lastSuccessfulResolution) == Returned(true)
        invariant Search.Run(killer, minResolution, maxResolution,
                             Search.Window(left, right, lastSuccessfulResolution))
                  == Search.Estimate(killer, minResolution, maxResolution)
        decreases right - left
      {
        ghost var w := Search.Window(left, right, lastSuccessfulResolution);
        var currentResolution := (left + right) / 2;
        assert currentResolution == Search.Midpoint(minResolution, maxResolution, w);
        var precise, _ := IsPrecise(killer, currentResolution,
                                    IntCast(maxResolution / currentResolution));
        assert precise == Search.Verdict(killer, maxResolution, currentResolution);
        if precise.Threw? {
          return Threw(precise.error);
        }

        if precise.value {
          right := currentResolution - 1;
          lastSuccessfulResolution := currentResolution;
        } else {
          left := currentResolution + 1;
        }
        assert Search.Window(left, right, lastSuccessfulResolution)
               == Search.Narrow(minResolution, maxResolution, w, precise.value);
      }

      return Returned(lastSuccessfulResolution);
    }

    /** Kills resolution nanoseconds up to iterations times, keeping the
        cumulative elapsed time: throws when it is behind schedule, returns
        false once the average overhead per call exceeds resolution, and true
        when every call is done. calls is the number of kill calls made. */
    method IsPrecise(killer: Overhead.Killer, resolution: int, iterations: int)
      returns (precise: Outcome<bool>, calls: nat)
      requires resolution > 0
      ensures precise == Overhead.Check(killer, resolution, iterations)
      ensures calls == Overhead.CallsMade(killer, resolution, iterations)
    {
      ghost var n := Overhead.KillCount(iterations);
      var timeToKill := resolution * iterations;
      var elapsedNanoTime := 0;
      var killed := 0;
      calls := 0;

      while killed < timeToKill
        invariant killed == calls * resolution
        invariant calls <= n
        invariant elapsedNanoTime == Overhead.Elapsed(killer, resolution, calls)
        invariant forall k :: 0 <= k < calls ==> Overhead.StepPasses(killer, resolution, k)
        decreases timeToKill - killed
      {
        assert calls < n by {
          assert calls * resolution < iterations * resolution;
        }
        elapsedNanoTime := elapsedNanoTime + killer(resolution, calls);
        var shouldHaveElapsed := killed + resolution;
        assert shouldHaveElapsed == Overhead.ShouldHaveElapsed(resolution, calls);
        var totalOverhead := elapsedNanoTime - shouldHaveElapsed;

        if totalOverhead < 0 {
          Overhead.FirstFailureUnique(killer, resolution, n, 0, calls);
          calls := calls + 1;
          return Threw(AssertionError(shouldHaveElapsed, elapsedNanoTime)), calls;
        }

        Overhead.DivisorIsCallCount(resolution, calls);
        var overheadPerInvocation := totalOverhead / (shouldHaveElapsed / resolution);

        if overheadPerInvocation > resolution {
          Overhead.FirstFailureUnique(killer, resolution, n, 0, calls);
          calls := calls + 1;
          return Returned(false), calls;
        }

        killed := killed + resolution;
        calls := calls + 1;
      }

      assert calls == n by {
        assert iterations * resolution <= calls * resolution;
      }
      Overhead.FirstFailureUnique(killer, resolution, n, 0, n);
      return Returned(true), calls;
    }
  }
}
