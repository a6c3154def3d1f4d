# Weibull shape-factor solver

find_weibull.py estimates the shape factor k of a Weibull wind-speed distribution. It finds the root of a moment-matching estimator with `bisection`, a bracketing search that halves [kmin, kmax] on every iteration. The loop stops early when the estimated Newton step |fk / fkk| falls to the accuracy eps. Here fkk is the secant slope through the two cached end values. The program calls it as `bisection(ws, 1.0, 8.0, 0.000001, 50)`.

This project models that solver in Dafny over mathematical reals. The estimator `k_estimator(x, k)` is an arbitrary function `f: real -> real` of k, because for a fixed sample its value depends on k alone. Every property below is proved for every such f.

- `Brackets` — the loop state: the bounds `kmin`, `kmax` and the cached values `fkmin`, `fkmax`. It also holds predicates for "cache matches f" and "no common strict sign", plus the sign lemmas the solver relies on.
- `Secant` — a functional reference:
  - `Step` is one loop iteration.
  - `Iterate` is the loop.
  - `Trail` gives the bracket after j narrowings.
  - `Solve` is the whole procedure.
  - A `Run` pairs the outcome with the list of points where f was evaluated (the probes).
- `Guarantees` — properties of a whole run: where it probes, and exactly when each outcome happens.
- `FindWeibull` — the procedure as the loop the program runs (`Bisection`, with the loop in `Loop` and its body in `Iteration`), proved equal to `Secant.Solve`. It also holds the program's constants 1.0, 8.0, 0.000001 and 50.
- `ExactRoot` — the zero-product branch (lines 57-58), as written and corrected.

Outcomes:

- `Root(k)` — a value returned from inside the loop.
- `NoSignChange` — the `sys.exit()` on lines 42-45.
- `ZeroDivision` — the `ZeroDivisionError` Python raises at line 50 or 52.
- `Sentinel` — the `return 0` on lines 64-65.

## Model

| member | source | states |
|---|---|---|
| `Secant.Step` | find_weibull.py:48-62 | One iteration. It divides by zero exactly when the bracket has width 0 or equal cached values. Stopping returns the midpoint, or the lower bound with the correction. A narrowing replaces exactly one bound by the midpoint and its cached value by f(midpoint): the new bracket is [kmin, mid] or [mid, kmax]. It halves the width, stays inside the old bracket and keeps the cache equal to f. |
| `Secant.StopTests` | find_weibull.py:52-62 | Each outcome of an iteration against the step test. Convergence needs \|fk/fkk\| <= eps. The zero-product branch needs fk·fkmin = 0 and a failed step test; with the correction it returns a zero of f. A narrowing needs a failed step test and fk·fkmin ≠ 0, and it moves kmax exactly when fk·fkmin < 0. |
| `Secant.NarrowKeepsSignChange` | find_weibull.py:53-60 | A narrowing keeps fkmin·fkmax <= 0, and leaves a non-zero fkmin that differs from fkmax. |
| `Secant.Iterate` | find_weibull.py:47-65 | A loop of n iterations evaluates f at most n times, and first at the midpoint. It returns the sentinel only after all n evaluations, and never aborts. |
| `Secant.Solve` | find_weibull.py:34-65 | f is evaluated at ikmin and then at ikmax. The run aborts iff f(ikmin)·f(ikmax) > 0, and then no midpoint is evaluated. There are at most 2 + Budget(iter) evaluations, where Budget(iter) = max(iter − 1, 0) is the length of `range(1, iter)`, and the sentinel uses all of them. |
| `Secant.TrailInvariant` | find_weibull.py:37-60 | Whenever the first j iterations all narrowed, the cached values equal f at the bounds, and the sign change still holds. The bracket is nested in the initial one and has width (ikmax − ikmin)/2^j. From the first narrowing on, the width and fkmin are non-zero and fkmin ≠ fkmax. |
| `Secant.IterateProbes` | find_weibull.py:47-49 | The i-th midpoint the loop evaluates is the midpoint of the bracket left by the first i narrowings. |
| `Secant.IterateSentinel` | find_weibull.py:47-65 | The loop falls through to the sentinel iff all n iterations narrowed. |
| `Secant.IterateLast` | find_weibull.py:47-62 | A loop that does not end in the sentinel ends with the outcome of the step on the last bracket it probed. |
| `Brackets.SignChangeEqualValues` | find_weibull.py:42-50 | Once the abort test has passed, equal cached values are both 0. This is the only way fkk can be 0. |
| `Brackets.RaiseLowerBound` | find_weibull.py:57-60 | Moving kmin to a midpoint whose value has the strict sign of fkmin keeps fkmin·fkmax <= 0. The new fkmin is non-zero and differs from fkmax. |
| `Guarantees.SolveBracketed` | find_weibull.py:37-62 | With ikmin < ikmax every evaluation point lies in [ikmin, ikmax]. A root returned as written is the last midpoint evaluated and lies strictly inside (ikmin, ikmax). |
| `Guarantees.LoopInside` | find_weibull.py:47-60 | Every midpoint the loop evaluates from a proper bracket with a valid cache and a sign change lies strictly inside that bracket. |
| `Guarantees.FinalBracket` | find_weibull.py:47-62 | A run that ends inside the loop ends at the step of its last bracket. That bracket has a valid cache, a sign change and width (ikmax − ikmin)/2^j. |
| `Guarantees.StopCondition` | find_weibull.py:50-62 | A stopping iteration has non-zero width. It either passes the Newton-step test with the chord slope of f, or has f(mid)·f(kmin) = 0. As written, it returns the midpoint. |
| `Guarantees.SolveStops` | find_weibull.py:50-62 | A root is the midpoint of a bracket with a valid cache and width (ikmax − ikmin)/2^j. At that midpoint either \|f(k)/slope\| <= eps, or f(k)·f(kmin) = 0. |
| `Guarantees.SolveZeroDivision` | find_weibull.py:47-52 | The divisions at lines 50 and 52 raise ZeroDivisionError iff the loop runs at least once and f(ikmin) = f(ikmax) = 0. |
| `Guarantees.SolveSentinel` | find_weibull.py:47-65 | The sentinel 0 is returned iff the abort test passed and all Budget(iter) iterations narrowed. The last bracket then has width (ikmax − ikmin)/2^Budget(iter). With iter <= 1 the outcome is the abort or the sentinel. |
| `Guarantees.NarrowedProbeFails` | find_weibull.py:52-60 | An iteration after which the loop went on had a non-zero width, \|f(mid)/chord slope\| > eps and f(mid)·f(kmin) ≠ 0. |
| `Guarantees.SolveProbesFail` | find_weibull.py:47-65 | Every midpoint before the last, and every midpoint of a sentinel run, failed both stop tests. So a returned root is the first probe that passes one, and the sentinel means no probe passed. |
| `FindWeibull.Bisection` | find_weibull.py:34-45 | The procedure gives the reference run. It aborts iff f(ikmin)·f(ikmax) > 0, after evaluating only the two bounds. Every evaluation lies in [ikmin, ikmax] when ikmin < ikmax, and a returned root is the last midpoint, strictly inside. |
| `FindWeibull.Loop` | find_weibull.py:47-65 | The `for` loop, with invariants: the cache matches f, fkmin·fkmax <= 0, the bracket is nested, its width is (ikmax − ikmin)/2^(i−1) at iteration i, and the run so far is a prefix of the reference run. Its result is the reference run. |
| `FindWeibull.Iteration` | find_weibull.py:48-62 | The loop body probes the midpoint k. It divides by zero iff kmax = kmin or fkmin = fkmax. It returns k only if \|f(k)/fkk\| <= eps, or if the test fails and f(k)·fkmin = 0. Otherwise the test failed, f(k)·fkmin ≠ 0, and the new bracket is [kmin, k] when f(k)·fkmin < 0 and [k, kmax] otherwise, keeping the cache and the sign change. |
| `FindWeibull.ProgramCall` | find_weibull.py:113-130 | With the program's arguments, f is evaluated at most 51 times. A root returned lies in (1, 8), so it is never the sentinel 0. |
| `ExactRoot.ZeroProductNeedsZeroLowerValue` | find_weibull.py:52-58 | With eps >= 0, the zero-product branch is taken only when fkmin = 0 and fk ≠ 0. |
| `ExactRoot.AsWrittenZeroProductMissesRoot` | find_weibull.py:52-58 | As written with eps >= 0, a root returned by the zero-product branch comes from the first iteration. There f(ikmin) = 0, and the returned midpoint is not a root. |
| `ExactRoot.AsWrittenReturnsNonRoot` | find_weibull.py:57-58 | With f(k) = k − 1 and the program's arguments, the code as written returns 4.5. There f is 3.5 and the Newton step is far above eps. |
| `ExactRoot.CorrectedReturnsRoot` | find_weibull.py:57-58 | On the same input, the corrected branch returns the root 1.0. |
| `ExactRoot.CorrectedRootSound` | find_weibull.py:52-62 | With the correction, every root returned is either exact or a midpoint that passes the Newton-step test. |

## Left out

- The estimator `k_estimator` (find_weibull.py:25-32) uses `math.gamma` and sample moments, and becomes the parameter `f`. Line 29 reads the global `ws` instead of the argument `x`. Both are the same sample in the program, so f depends on k alone.
- Floating point: the model works over reals. It says nothing about rounding, or about convergence that only happens because of finite precision.
- The `print` before the abort (line 43) is console output. The abort is the `NoSignChange` outcome rather than a process exit.
- The Weibull density `weibull` (lines 71-72) needs `exp` and real powers, which the model does not have.
- The scale formula on line 133 needs a real power. It also divides by zero when the solver returns the sentinel 0, which is the caller's concern.
- Argument parsing and input-file fallback (lines 75-108), CSV loading, mean and median (lines 111, 124-127), plotting and printing (lines 135-165): these are I/O and library calls.
- The estimator is taken to be total. `k_estimator` can itself raise: ZeroDivisionError at line 30 when a probed k is 0, or at line 29 for an empty or all-zero sample, and `math.gamma` can raise ValueError or OverflowError for non-positive or tiny k. None of these is modelled; `ZeroDivision` covers only lines 50 and 52.
- Containment of probes and roots in the interval is proved only for ikmin < ikmax. The procedure accepts reversed bounds and is modelled for them, but no bound is stated there.

## Findings

| source | as written | input that shows it | evidently intended | confidence | as-written member | corrected member |
|---|---|---|---|---|---|---|
| find_weibull.py:57-58 | `if fk * fkmin == 0: return(k)` returns the midpoint k. With eps >= 0 this line is reached only when fk ≠ 0, because otherwise the step test would already have stopped the loop. So fkmin = 0, and the returned midpoint is not a root. | f(k) = k − 1, ikmin = 1.0, ikmax = 8.0, eps = 0.000001, iter = 50: returns 4.5, where f(4.5) = 3.5 | Return the exact root that makes the product 0. That is ikmin when fkmin = 0, or k when fk = 0. | high; not executed | `ExactRoot.AsWrittenReturnsNonRoot` | `ExactRoot.CorrectedRootSound` |

`Secant.Solve` with `ReturnMidpoint` models the code as written, and `FindWeibull.Bisection` is proved equal to it. `ReturnZeroPoint` is the corrected branch. All of `Secant` and `Guarantees` is proved for both variants. `ExactRoot.CorrectedReturnsRoot` shows the corrected run on the counterexample.
