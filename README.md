# Root-finding loops, modelled in Dafny

The repository holds textbook root-finding loops after Burden and Faires,
*Numerical Analysis* (9th edition), in three revisions: `root-finding.py`,
`math414/hw3.py` and `math414/hw3-2.3.py`. Each loop takes a target function
(and its derivatives where needed), one or two starting values, an iteration
cap `n` and, except for Aitken's method, a tolerance `tol`. It prints its
approximations and ends by reporting a root, by giving up, or with a Python
exception.

This project models the control logic of those loops over exact `real`
arithmetic, with the target function and its derivatives as uninterpreted
`real -> real` parameters:

- Every loop is a Dafny `method` with the same `while` loop, counter and local
  variables as the Python function. The printed approximations become a
  returned `trace: seq<real>`. The final report becomes an `Outcome`:
  - `Converged(root, steps)`;
  - `Exhausted(last)` for the "Stopped at" report;
  - `ZeroDenominator(last)` for a guarded zero divisor;
  - `DivisionByZero` for a `ZeroDivisionError` the loop does not guard against;
  - `UndefinedReport` for a report that names a variable which was never bound;
  - `FormatError` for the `TypeError` of a give-up message with more
    conversions than arguments.
- Each method is proved against a ghost *run predicate* for its family of loops.
  The predicate characterises the trace pass by pass and fixes the outcome:
  - `Bisect.BisectionRun` for bisection;
  - `Iteration.IterationRun` for fixed point, Newton-Raphson, modified Newton
    and Steffensen;
  - `TwoPoint.TwoPointRun` for secant and regula falsi;
  - `Acceleration.AitkenRun` for Aitken's method.
- Lemmas about these predicates state what the loops promise. Bisection and
  regula falsi keep their brackets. The fixed-point buffer holds the iterates.
  Modified Newton's two step forms agree. Steffensen's first step is Aitken's
  first value. Aitken is exact on affine maps. In each of the four families a
  run is determined by its inputs.

Modules:

- `Outcomes`: the outcome type and the pass count `Cap`.
- `Formulas`: the step formulas and their algebra.
- `Bisect`, `Iteration`, `TwoPoint`, `Acceleration`: run predicates and lemmas
  for the four families of loops.
- `RootFinding`, `Hw3`, `Hw3Exercise23`: the methods of the three source files.

The revisions differ in two places, and each file is modelled as written:

- In `math414/hw3.py`, Aitken's generation loop advances `p0` itself. Its first
  accelerated triple therefore starts at the last iterate.
- In `math414/hw3-2.3.py`, the give-up message applies `% tol` to a string
  containing `%n`. The give-up path therefore raises instead of reporting.

The other loops of `math414/hw3.py` are, statement for statement, those of
`root-finding.py`, so `Hw3` runs the `RootFinding` methods.

`root-finding.py`'s Aitken reports a zero denominator by printing `p`. No `p`
is bound in that function, so the report is a `NameError`, modelled as
`UndefinedReport`. The same happens in the other loops that give up without
having run a pass (`n < 1`, or `n < 2` for secant and regula falsi): "Stopped
at" prints a `p` that no pass bound. Steffensen binds `p` before its loop, and
the `math414/hw3-2.3.py` loops raise on the message before reaching `p`.

Only Aitken and Steffensen test a divisor before dividing. The other divisions
raise `ZeroDivisionError`, modelled as `DivisionByZero` with nothing reported.

## Model

| member | source | states |
|---|---|---|
| Bisect.BisectionRun | root-finding.py:13-28 | One bisection run: trace element `j` is the midpoint of the bracket after `j` halvings with the stale `FA`, no pass but the last meets `FP == 0 or (b-a)/2 < tol`, and the outcome is Converged at the stopping pass with its number, otherwise Exhausted with the last midpoint after exactly `n` passes, or `UndefinedReport` when no pass ran. |
| RootFinding.Bisection | root-finding.py:10-28 | The run is a `BisectionRun`. `FA` is taken once. Pass `j` evaluates the midpoint of bracket `j`. The run stops at the first pass with `f(p) == 0` or half-width below `tol`, reporting that pass number. Otherwise it gives up after exactly `n` passes with the last midpoint; with `n < 1` no pass runs and the report is `UndefinedReport`. |
| Bisect.Halve | root-finding.py:16-26 | A pass that does not stop replaces exactly one endpoint with the midpoint (unless the bracket is a point). The new width is half the old one. From `a <= b` the new bracket lies inside the old. |
| Formulas.Midpoint | root-finding.py:16 | `a + (b - a)/2` is equidistant from `a` and `b`, and lies in `[a, b]` when `a <= b`. |
| Bisect.BracketWidth | root-finding.py:16-26 | After `k` passes the bracket's width is `b0 - a0` halved `k` times. |
| Bisect.HalvedTimesPow2 | root-finding.py:19 | Halving a width `k` times is dividing it by `2^k`. |
| Bisect.BracketNested | root-finding.py:23-26 | From `a0 <= b0`, every bracket is ordered and lies inside `[a0, b0]`. |
| Bisect.BracketKeepsSignChange | root-finding.py:14-26 | From `f(a0)*f(b0) < 0`, while no midpoint is a zero, `f(a)` keeps the sign of the stale `FA` and every bracket keeps a strict sign change. |
| Bisect.BisectionRunKeepsBracket | root-finding.py:10-28 | In a run from an ordered strict sign change, a pass runs exactly when `n >= 1`, and every approximation lies in `[a0, b0]`. The last pass's bracket still has a strict sign change and holds the last approximation. |
| Bisect.BisectionRunIsDeterministic | root-finding.py:10-28 | Two bisection runs with the same inputs have the same trace and outcome. |
| Iteration.IterationRun | root-finding.py:35-45 | One run of the one-point driver shared by fixed point, Newton-Raphson (:52-62), modified Newton (:119-130) and Steffensen (:175-190): each trace element is the step from the one before, no pass but the last meets `abs(p - p0) < tol`, and the outcome is Converged at that pass with its number, else the zero-divisor outcome of a blocked step before the cap (`ZeroDenominator(p0)` when guarded, `DivisionByZero` otherwise), else the give-up report: `FormatError`, `UndefinedReport` with no pass and no initial `p`, or `Exhausted` with the last approximation. |
| Iteration.FixedPointMap | root-finding.py:37 | The fixed-point step `p = f(p0)`, which never blocks. |
| RootFinding.FixedPoint | root-finding.py:32-45 | The run is an `IterationRun` of `p = f(p0)`. There are at most `n` passes. It converges at the first pass with `abs(p - p0) < tol`, reporting that pass number. Otherwise it gives up with the last `p`, or with `UndefinedReport` when no pass ran. |
| Iteration.FixedPointIsIterate | root-finding.py:36-43 | Fixed-point approximation `j` (from 0) is `f` applied `j + 1` times to the start. |
| Iteration.NewtonMap | root-finding.py:54 | Newton's step `p0 - f(p0)/df(p0)`, blocked exactly where `df(p0)` is zero. |
| RootFinding.NewtonRaphson | root-finding.py:49-62 | The run is an `IterationRun` of Newton's step. At a pass whose `df(p0)` is zero it ends in `DivisionByZero`. Otherwise it behaves as fixed point for stopping, the cap and the reports, including `UndefinedReport` when no pass ran. |
| Iteration.NewtonFollowsTangent | root-finding.py:53-54 | Every Newton approximation is the zero of the tangent at the previous approximation, and that tangent is not flat. |
| Formulas.NewtonPointOnTangent | root-finding.py:54 | `p0 - f/df` is where the tangent line `f + df*(x - p0)` vanishes. |
| Iteration.RunIsDeterministic | root-finding.py:32-62 | Two runs of the same one-point loop with the same inputs have the same trace and outcome. |
| TwoPoint.TwoPointRun | root-finding.py:69-84 | One secant or regula falsi run (regula falsi at :91-108): at most `n - 1` passes, each computing the chord zero of its window with a nonzero divisor, no pass but the last meeting `abs(p - p1) < tol`, and the outcome Converged with the counter plus one, else `DivisionByZero` at a zero divisor before the cap, else the give-up report: `FormatError`, `UndefinedReport` with no pass, or `Exhausted` with the last point. |
| TwoPoint.Advance | root-finding.py:101-106 | The window move after a pass: secant (:79-82) always shifts `(p1, q1)` down to `(p0, q0)`; regula falsi does so only when `f(p)*q1 < 0`; both then make `(p, f(p))` the new `(p1, q1)`. |
| RootFinding.Secant | root-finding.py:66-84 | The run is a `TwoPointRun` that always shifts the window. The counter starts at 2, so there are at most `n - 1` passes. Each pass divides by `q1 - q0` and ends in `DivisionByZero` when that is zero. Success reports the counter plus one. Giving up names the last `p`, or is `UndefinedReport` when `n < 2` left no pass. |
| TwoPoint.WindowsTrack | root-finding.py:69-82 | Whatever the shifting rule, the window keeps `q0 == f(p0)` and `q1 == f(p1)`. |
| TwoPoint.SecantWindowIsLastTwo | root-finding.py:72-82 | Each secant window holds the two most recent points with their values, starting with `x0`, `x1`. |
| TwoPoint.TwoPointRunIsDeterministic | root-finding.py:66-108 | Two secant or regula falsi runs with the same inputs have the same trace and outcome. |
| Formulas.SecantPointOnChord | root-finding.py:73 | The computed `p` is the zero of the chord through `(p0, q0)` and `(p1, q1)`. |
| RootFinding.RegulaFalsi | root-finding.py:88-108 | The run is a `TwoPointRun` that shifts `(p0, q0)` up only when `f(p)*q1 < 0`. Otherwise it behaves as secant for the counter, the cap, the division and the reports. |
| TwoPoint.RegulaFalsiStepKeepsBracket | root-finding.py:101-106 | One regula falsi window move keeps a bracketing window bracketing. |
| TwoPoint.RegulaFalsiKeepsBracket | root-finding.py:91-106 | From a bracketing start, every window of a run of chord points brackets a zero: `q0 != 0` and `q1` is zero or of the other sign. |
| Formulas.SecantPointBetween | root-finding.py:95 | When `q0 != 0` and `q0`, `q1` do not share a sign, the chord point is defined and lies between `p0` and `p1`. |
| TwoPoint.BracketedPointBetween | root-finding.py:95 | A bracketing window has a nonzero divisor, and its chord point lies between its points. |
| TwoPoint.RegulaFalsiRunIsSafe | root-finding.py:88-108 | A regula falsi run from `f(x0)*f(x1) < 0` never divides by zero. Every window it passes through brackets a zero, and every point lies between its window's two points. |
| Iteration.ModifiedNewtonMap | root-finding.py:116-122 | The modified Newton step `p0 - g(p0)/dg(p0)`, blocked exactly where `df(p0)` or `dg(p0)` is zero. |
| RootFinding.ModifiedNewton | root-finding.py:112-130 | The run is an `IterationRun` of `p0 - g(p0)/dg(p0)`. It ends in `DivisionByZero` where `df(p0)` or `dg(p0)` is zero. Otherwise it behaves as fixed point for stopping, the cap and the reports. |
| Formulas.ModifiedNewtonStepIsClosedForm | root-finding.py:116-122 | Where `df != 0` and `dg != 0`, the `g/dg` step equals the commented closed form `p0 - f*df/(df^2 - f*d2f)`, whose denominator is nonzero. |
| Formulas.DGScaled | root-finding.py:117-121 | `df^2 * dg` equals the closed form's denominator `df^2 - f*d2f`. |
| Iteration.ModifiedNewtonFollowsClosedForm | root-finding.py:119-128 | Every modified Newton approximation is the closed-form step from the previous one. |
| Acceleration.AitkenRun | root-finding.py:134-166 | One Aitken run: the buffer holds `n + 2` iterates of `f` from the start, value `j` is Aitken's value of triple `j` with a nonzero second difference, and the run ends after `n` values (reported with the last value) or at the first triple with a zero second difference (`UndefinedReport` or `ZeroDenominator` of the last value, by revision). |
| RootFinding.Aitken | root-finding.py:134-166 | The run is an `AitkenRun`. The buffer holds `n + 2` iterates of `f` from `p0`. Value `j` comes from the triple (previous, `arr[j]`, `arr[j+1]`), the first starting at the original `p0`. Exactly `n` values are formed, with no tolerance test, unless a zero second difference stops the run first. That stop is the unbound-`p` report. |
| Acceleration.OrbitSteps | root-finding.py:145-150 | Consecutive buffer elements are linked by `f`, starting from `p0`. |
| Acceleration.AitkenRunIsDeterministic | root-finding.py:134-166 | Two Aitken runs with the same inputs and the same first triple have the same buffer, values and outcome. |
| Formulas.AccelerateAffineIsExact | root-finding.py:159-163 | On `x -> c*x + d`, the second difference is nonzero exactly when `c != 1` and `x` is not the fixed point. Aitken's value is then the fixed point `d/(1 - c)`. |
| Formulas.AffineFixedPoint | root-finding.py:163 | `d/(1 - c)` is a fixed point of `x -> c*x + d`. |
| Acceleration.AitkenExactOnAffine | root-finding.py:134-166 | On an affine map, every value the run forms is the fixed point. |
| Acceleration.AitkenStopsOnAffineAtFixedPoint | root-finding.py:156-162 | On an affine map, the run stops early only when `c == 1` or the triple starts at the fixed point. |
| Iteration.SteffensenMap | root-finding.py:176-182 | Steffensen's step: `p1 = f(p0)`, `p2 = f(p1)`, then Aitken's value of `p0, p1, p2`, blocked exactly where the second difference is zero. |
| RootFinding.Steffensen | root-finding.py:170-190 | The run is an `IterationRun` of `p1 = f(p0)`, `p2 = f(p1)` and Aitken's value. It tests the second difference before dividing and reports `ZeroDenominator(p)`. It stops on `abs(p - p0) < tol`. With no pass run, it gives up with the start. |
| Acceleration.SteffensenStartsAsAitken | root-finding.py:176-182 | Steffensen's first step from `p0` and Aitken's first value from the same `p0` both block, or agree. |
| Hw3.NewtonRaphson | math414/hw3.py:11-24 | The same run as `RootFinding.NewtonRaphson`. |
| Hw3.Secant | math414/hw3.py:29-47 | The same run as `RootFinding.Secant`. |
| Hw3.RegulaFalsi | math414/hw3.py:52-72 | The same run as `RootFinding.RegulaFalsi`, so `TwoPoint.RegulaFalsiRunIsSafe` applies. |
| Hw3.ModifiedNewton | math414/hw3.py:76-94 | The same run as `RootFinding.ModifiedNewton`. |
| Hw3.Aitken | math414/hw3.py:98-129 | The run is an `AitkenRun` whose first triple starts at `f` applied `n + 2` times to `p0`, which is `arr[n+1]`. The buffer still holds the iterates of the original `p0`. A zero second difference is reported with `p`, the last value formed or the start of the pass. |
| Acceleration.OverwrittenStartMissesFixedPoint | math414/hw3.py:108-128 | For `f(x) = x/2.0`, `p0 = 1.0`, `n = 1`, the overwritten start makes the only value `7/20`, though the fixed point is `0`. |
| Hw3.Steffensen | math414/hw3.py:134-154 | The same run as `RootFinding.Steffensen`. |
| Hw3Exercise23.NewtonRaphson | math414/hw3-2.3.py:3-16 | An `IterationRun` of Newton's step whose give-up path is `FormatError`, for every `n`. |
| Hw3Exercise23.Secant | math414/hw3-2.3.py:18-36 | A secant `TwoPointRun` whose give-up path is `FormatError`, for every `n`. |
| Hw3Exercise23.RegulaFalsi | math414/hw3-2.3.py:38-58 | A regula falsi `TwoPointRun` whose give-up path is `FormatError`. `TwoPoint.RegulaFalsiRunIsSafe` applies. |
| Hw3Exercise23.GivingUpRaises | math414/hw3-2.3.py:15 | For `f(x) = x - 1`, `df = 1`, `p0 = 3`, `n = 1`, `tol = 1`, the run computes `1` and ends in `FormatError`. |
| Hw3Exercise23.GivingUpReports | math414/hw3.py:23-24 | The same run in a revision that reports ends as `Exhausted(1)`. |

## Left out

- `muller` (root-finding.py:196-226): complex arithmetic and square roots of possibly negative reals. As written it also never advances `p2`.
- The sample target functions and derivatives: they use `math.e` and `math.log`. Every target function is a parameter instead.
- The Horner stub (root-finding.py:192) and the module-level calls (math414/hw3.py:167, math414/hw3-2.3.py:65-66).
- Floating-point rounding, convergence and accuracy: arithmetic is over exact reals, and nothing is claimed about how close a result is to a true root.
- Printing: the heading lines, the `%.9f` formatting and the message texts are not modelled. The trace stands for the printed approximations, and the outcome for the final report. The literal `%n` that the other revisions print unformatted is not modelled.
- Integer division: every division is modelled over `real`. Under Python 2, `/` floors when both operands are integers. That can happen in bisection's `(b - a)/2`, Newton's `f(p0)/df(p0)`, the chord quotient of secant and regula falsi, `g` and `dg` of modified Newton, and Aitken's and Steffensen's `((p1-p0)**2)/(p2-2*p1+p0)`. It happens when the start values are integer literals and the target function maps integers to integers. For example, `bisection(lambda x: x*x - 2, 1, 2, 30, 0.0001)` computes `1 + (2-1)/2 == 1` at root-finding.py:16 and stops at once at line 19, because `(b-a)/2 == 0 < tol`, reporting the root `1`. The model computes `1.5` and goes on halving.
- RootFinding.Aitken, Hw3.Aitken: the Python functions end silently after forming their `n` values. The model reports `Exhausted` with the last value (or the start when there is none).
- `UndefinedReport`: a report that names an unbound `p` raises `NameError`. The model ends the run there with the trace so far, and does not model the exception further.
- RootFinding.NewtonRaphson, RootFinding.Secant, RootFinding.RegulaFalsi, RootFinding.ModifiedNewton: Python raises `ZeroDivisionError` while evaluating the step. The model tests the divisor just before dividing and ends the run as `DivisionByZero`, with the trace so far.
- Exceptions raised inside the target function (for example `math.log` of a non-positive number) are not modelled. Every parameter function is total.

## Findings

| source | as written | input that shows it | evidently intended | confidence | as-written member | corrected member |
|---|---|---|---|---|---|---|
| math414/hw3.py:108-128 | The generation loop reassigns `p0`, so the first accelerated triple is (`arr[n+1]`, `arr[0]`, `arr[1]`) | `f(x) = x/2.0`, `p0 = 1.0`, `n = 1`: the only value is `7/20`, while the fixed point is `0` | Start the first triple at the original `p0`, as root-finding.py:138-157 does with `pm`; on an affine map every value is then the fixed point | high; not executed | Hw3.Aitken, Acceleration.OverwrittenStartMissesFixedPoint | RootFinding.Aitken, Acceleration.AitkenExactOnAffine |
| math414/hw3-2.3.py:15 | `"... %.9f in %n..." % tol` has two conversions for one argument: `%.9f` takes `tol`, and fetching the argument for `%n` raises `TypeError` before "Stopped at" is printed | `f(x) = x - 1`, `df(x) = 1`, `p0 = 3`, `n = 1`, `tol = 1`: the one step lands on `1`, moves by `2`, and the run gives up | Report the last approximation, as math414/hw3.py:23-24 does | high; not executed | Hw3Exercise23.NewtonRaphson, Hw3Exercise23.GivingUpRaises | RootFinding.NewtonRaphson, Hw3Exercise23.GivingUpReports |
