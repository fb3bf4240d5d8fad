# Precision test of time killers, modelled in Dafny

The precision test measures how finely a "time killer" honours requested
delays. A time killer is a primitive that occupies the thread for a given number
of nanoseconds: a sleep, a park, a busy spin, or calibrated CPU work. Two
integer algorithms in `PrecisionTest` do the work:

- `isPrecise(killer, resolution, iterations)` calls `kill(resolution)` up to
  `iterations` times. It keeps the running total of the measured durations. It
  throws an `AssertionError` when that total is behind the schedule
  `(k + 1) * resolution`. It returns `false` at the first call where the integer
  average overhead per call exceeds `resolution`, and `true` when every call is
  done.
- `estimatePrecision(killer)` runs a binary search over
  `[minResolution, maxResolution]`. It checks each midpoint with
  `(int) (maxResolution / mid)` iterations and moves `right` below a precise midpoint
  or `left` above an imprecise one. It returns the last precise midpoint, or
  the sentinel `-1`.

The model has five modules:

- `Jvm` (Jvm.dfy): a Java call that returns a value or throws (`Outcome`), and
  the `(int)` cast of a `long` (`IntCast`).
- `Overhead` (Overhead.dfy): the overhead-accounting policy on values.
  - `Elapsed`, `BehindSchedule`, `OverheadPerInvocation` and `StepPasses`
    describe one call.
  - `FirstFailure` finds the first call that aborts or fails the check.
  - `Check` and `CallsMade` give the check's outcome and how many calls it
    makes.
- `Search` (Search.dfy): the binary search on values.
  - `Window` holds the locals `left`, `right` and `lastSuccessfulResolution`.
  - `Valid` is the loop invariant and `Narrow` is one step.
  - `Run` and `Probes` give the rest of the search from a window.
  - `Estimate` and `Trace` give the result and the list of checked resolutions.
- `PrecisionTest` (PrecisionTest.dfy): the class `PrecisionTest` with the fields
  `maxResolution` and `minResolution` and the two methods as `while` loops.
  Each method is proved to compute `Search.Estimate` or `Overhead.Check` and
  `Overhead.CallsMade`.
- `Scenarios` (Scenarios.dfy): what the search returns against a perfect
  killer, a killer with constant overshoot, and a killer that returns early.

The measured durations `endNanos - startNanos` are an input. A killer is
modelled as a function `killer(resolution, k)`: the nanoseconds measured
around the `k`-th call `kill(resolution)` of one check at that resolution. The
search checks each midpoint at most once (`Search.ProbesDistinct`), so indexing
by resolution loses nothing.

Java's `/` truncates toward zero and Dafny's is Euclidean. Every division the
model performs has a non-negative dividend and a positive divisor, where the two
agree.

## Consequences of the search worth knowing

- A perfect killer does not make the search return `minResolution`. Every
  midpoint is precise, so only `right` moves. The loop stops once `right` falls
  below `2 * minResolution`, and the result is the last midpoint. That value
  lies between `3 * min / 2` and `2 * min`: 150 to 200 ns for the defaults
  (`Scenarios.PerfectKillerEstimate`).
- A killer that overshoots every call by `2 * minResolution` is not imprecise
  everywhere. It is precise at every resolution of at least `2 * min`, so with
  the default bounds the search finds a resolution in `[2 * min, 3 * min]`
  (`Scenarios.ConstantOverheadEstimate`).
- Against a threshold `K` the search returns a resolution `r` with
  `K <= r <= K + min`, with `r == K + min` possible. It can also return `-1`
  when `maxResolution - K < min` (`Search.EstimateThreshold`).

## Model

| member | source | states |
|---|---|---|
| Jvm.IntCast | labs/src/main/java/ru/gvsmirnov/perv/labs/time/PrecisionTest.java:44 | the (int) cast stays in the int range, differs from its argument by a multiple of 2^32, and is the identity on int values |
| Overhead.FirstFailure | labs/src/main/java/ru/gvsmirnov/perv/labs/time/PrecisionTest.java:70-104 | every call before the returned index passes, and the call at that index (if any remain) aborts or breaches the threshold |
| Overhead.DivisorIsCallCount | labs/src/main/java/ru/gvsmirnov/perv/labs/time/PrecisionTest.java:78-91 | shouldHaveElapsed / resolution at call k is k + 1, so the divisor is never zero |
| Overhead.PreciseIff | labs/src/main/java/ru/gvsmirnov/perv/labs/time/PrecisionTest.java:70-106 | isPrecise returns true exactly when every one of its max(iterations, 0) calls is on schedule and within the overhead threshold |
| Overhead.ImpreciseIff | labs/src/main/java/ru/gvsmirnov/perv/labs/time/PrecisionTest.java:91-103 | isPrecise returns false exactly when some call is on schedule with average overhead above resolution and every earlier call passed |
| Overhead.AbortIff | labs/src/main/java/ru/gvsmirnov/perv/labs/time/PrecisionTest.java:78-89 | isPrecise throws exactly when some call is behind schedule with every earlier call passed, and the error carries that call's shouldHaveElapsed and elapsed total |
| Overhead.CallsBounded | labs/src/main/java/ru/gvsmirnov/perv/labs/time/PrecisionTest.java:66-70 | at most max(iterations, 0) kill calls, all of them when the result is true, at least one otherwise; with iterations <= 0 it returns true with no call |
| Overhead.NoLaterSamples | labs/src/main/java/ru/gvsmirnov/perv/labs/time/PrecisionTest.java:70-103 | the outcome depends only on the durations of the calls actually made: killers that agree on them give the same outcome and the same number of calls |
| Overhead.MoreIterations | labs/src/main/java/ru/gvsmirnov/perv/labs/time/PrecisionTest.java:66-106 | true for some iteration count is true for every smaller count; a false or thrown outcome stays the same, after the same calls, for every larger count |
| Overhead.ConstantOverhead | labs/src/main/java/ru/gvsmirnov/perv/labs/time/PrecisionTest.java:76-93 | a killer overshooting every call by c >= 0 is, when iterations > 0, precise exactly when c <= resolution (always when c = 0, exact durations) and stops after one call when imprecise; when iterations <= 0 it is precise with no call |
| Overhead.UnderSleepAborts | labs/src/main/java/ru/gvsmirnov/perv/labs/time/PrecisionTest.java:80-89 | a first call shorter than resolution throws AssertionError(resolution, that duration) after one call |
| Search.Midpoint | labs/src/main/java/ru/gvsmirnov/perv/labs/time/PrecisionTest.java:43 | the midpoint of a searched window lies in [left, right) and in [minResolution, maxResolution] |
| Search.Narrow | labs/src/main/java/ru/gvsmirnov/perv/labs/time/PrecisionTest.java:46-51 | one step keeps the bounds and the sentinel invariant (lastSuccessful is -1 or right + 1), sets the sentinel only on the precise branch, and more than halves the width |
| Search.RunShape | labs/src/main/java/ru/gvsmirnov/perv/labs/time/PrecisionTest.java:38-52 | every checked resolution lies in [minResolution, maxResolution]; every check but the last returned; the search throws exactly when its last check threw, with that error; nothing is checked exactly when the loop condition fails at once |
| Search.ProbesDistinct | labs/src/main/java/ru/gvsmirnov/perv/labs/time/PrecisionTest.java:43-51 | no resolution is checked twice in one search, because each step moves left or right past the midpoint |
| Search.RunMin | labs/src/main/java/ru/gvsmirnov/perv/labs/time/PrecisionTest.java:38-57 | from any window, a set sentinel or a precise checked resolution rules out -1, and the result is at most the sentinel and every precise checked resolution |
| Search.RunLast | labs/src/main/java/ru/gvsmirnov/perv/labs/time/PrecisionTest.java:38-57 | from a window with the sentinel -1, the result is -1 exactly when no checked resolution is precise, and otherwise at most every precise checked resolution |
| Search.EstimateSound | labs/src/main/java/ru/gvsmirnov/perv/labs/time/PrecisionTest.java:35-57 | the result is -1 exactly when no checked resolution was found precise; otherwise it is a checked resolution in [minResolution, maxResolution] found precise and at most every precise checked resolution, so the last one found precise |
| Search.EstimateAllImprecise | labs/src/main/java/ru/gvsmirnov/perv/labs/time/PrecisionTest.java:35-57 | if every check returns false the result is -1 |
| Search.EstimateAllPrecise | labs/src/main/java/ru/gvsmirnov/perv/labs/time/PrecisionTest.java:38-48 | if every check returns true and the loop runs at least once, only right moves: the checked resolutions fall strictly and none is below 3 * min / 2, and the result is not -1 but between 3 * min / 2 and 2 * min |
| Search.EstimateThreshold | labs/src/main/java/ru/gvsmirnov/perv/labs/time/PrecisionTest.java:38-57 | against a check precise exactly at resolutions >= K >= min, the result lies in [K, K + min], or is -1 only when maxResolution - K < min |
| Search.EstimateLogarithmic | labs/src/main/java/ru/gvsmirnov/perv/labs/time/PrecisionTest.java:38-52 | the search makes no checks exactly when max - min < min, and n checks only when 2^(n-1) * min <= max - min |
| Search.IterationsFit | labs/src/main/java/ru/gvsmirnov/perv/labs/time/PrecisionTest.java:44-66 | when max / min fits in an int, every candidate gets exactly max / r >= 1 iterations and timeToKill = r * iterations <= maxResolution |
| Search.IterationsWrapped | labs/src/main/java/ru/gvsmirnov/perv/labs/time/PrecisionTest.java:44-70 | for every bounds and killer, a non-positive iteration count arises only when max / r exceeds the int range, and then the candidate is judged precise with no kill call |
| Search.IterationsWrap | labs/src/main/java/ru/gvsmirnov/perv/labs/time/PrecisionTest.java:44 | with maxResolution = 2^32 the cast gives the candidate 1 zero iterations, so it is judged precise without a call |
| PrecisionTest.PrecisionTest.constructor | labs/src/main/java/ru/gvsmirnov/perv/labs/time/PrecisionTest.java:16-23 | the bounds start at 2,000,000,000 ns and 100 ns |
| PrecisionTest.PrecisionTest.EstimatePrecision | labs/src/main/java/ru/gvsmirnov/perv/labs/time/PrecisionTest.java:31-58 | the loop computes Search.Estimate, keeping the bounds and sentinel invariants; a returned value is -1 or a resolution in range whose check returned true; an AssertionError propagates |
| PrecisionTest.PrecisionTest.IsPrecise | labs/src/main/java/ru/gvsmirnov/perv/labs/time/PrecisionTest.java:60-107 | the loop computes Overhead.Check and makes Overhead.CallsMade kill calls |
| Scenarios.PerfectKillerEstimate | labs/src/main/java/ru/gvsmirnov/perv/labs/time/PrecisionTest.java:31-107 | when max - min >= min (so the loop runs), a killer taking exactly the requested time gives a result between 3 * min / 2 and 2 * min |
| Scenarios.ConstantOverheadEstimate | labs/src/main/java/ru/gvsmirnov/perv/labs/time/PrecisionTest.java:31-107 | when max / min fits in an int (so no iteration count wraps), a killer overshooting by a constant c >= min gives a result in [c, c + min], or -1 only when c is within min of maxResolution |
| Scenarios.UnderSleepEstimate | labs/src/main/java/ru/gvsmirnov/perv/labs/time/PrecisionTest.java:31-107 | a killer that returns early makes the whole estimation throw, for any bounds with max - min >= min (the first iteration count is 1 or 2, so the cast cannot wrap) |

## Left out

- `System.nanoTime()` and `timeKiller.kill(...)` (lines 72-74): the real clock and thread blocking. The measured durations are the input function `killer`.
- The `TimeKiller` variants (Sleeper, Parker, Burner, BlackHole) and `BlackHole.estimateTokensPerNano()`: their source is not part of this model. Calibration computes a `double`.
- `warmup()` (lines 109-148): a repetition loop for JIT warm-up with console output and no new algorithm.
- `main` and the args4j `CmdLineParser` (lines 150-168): argument parsing and I/O. The bounds are the class fields, set by the constructor to their defaults.
- `out`, `outClear`, `annotate`, the `verbose` and `quiet` fields and the `%.3f` "iterations lost" text of the error message: reporting only, with no effect on results. The error keeps the two integers it reports.
- Java `long` overflow: left, right, the sums and `resolution * iterations` are mathematical integers. Overflow needs values beyond 2^62 ns, about 146 years. The `(int)` cast is modelled by `Jvm.IntCast`.
- PrecisionTest.PrecisionTest.EstimatePrecision: requires `minResolution > 0`. With a bound of zero or below, a midpoint can be 0 and `maxResolution / currentResolution` divides by zero. With a negative bound the loop can also run forever: with min = -1, max = 10 and every check imprecise, `left` reaches 11 with `right` = 10, `right - left = -1 >= -1` holds, the midpoint is 10 and `left` is set to 11 again. A positive bound is what makes `right - left` decrease to the exit.
- PrecisionTest.PrecisionTest.IsPrecise: requires `resolution > 0`. Its only caller passes a midpoint of at least `minResolution`.
- PrecisionTest.PrecisionTest.IsPrecise: the out-parameter `calls` (the number of `kill` calls made) does not exist in the Java method, which returns only the boolean. It is the observable count of calls.
