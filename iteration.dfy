/** The one-point loops: fixed-point iteration, Newton-Raphson, modified Newton
    and Steffensen. All four run the same driver: a counter `i` from 1 to `n`,
    a new approximation `p` computed from the previous one `p0`, the test
    `abs(p - p0) < tol`, then `p0 = p`. Only the step differs, so the step is a
    function value and one predicate describes every run. */
module Iteration {
  import opened Outcomes
  import opened Formulas

  /** The step's verdict at one point: the next approximation, or a zero divisor. */
  datatype Step = Next(p: real) | Blocked

  /** Fixed-point iteration: `p = f(p0)`; it never divides. */
  function FixedPointMap(f: real -> real): real -> Step
  {
    x => Next(f(x))
  }

  /** Newton-Raphson: `p = p0 - f(p0)/df(p0)`, blocked where `df(p0)` is zero. */
  function NewtonMap(f: real -> real, df: real -> real): real -> Step
  {
    x => if df(x) == 0.0 then Blocked else Next(NewtonPoint(x, f(x), df(x)))
  }

  /** Modified Newton: `p = p0 - g(p0)/dg(p0)`, blocked where `df(p0)` (inside
      `g` and `dg`) or `dg(p0)` is zero. */
  function ModifiedNewtonMap(f: real -> real, df: real -> real, d2f: real -> real): real -> Step
  {
    x => if df(x) == 0.0 || DG(f(x), df(x), d2f(x)) == 0.0 then Blocked
         else Next(x - G(f(x), df(x)) / DG(f(x), df(x), d2f(x)))
  }

  /** Steffensen: `p1 = f(p0)`, `p2 = f(p1)`, then Aitken's value of
      `p0, p1, p2`, blocked where its second difference is zero. */
  function SteffensenMap(f: real -> real): real -> Step
  {
    x => if Denominator(x, f(x), f(f(x))) == 0.0 then Blocked
         else Next(Accelerate(x, f(x), f(f(x))))
  }

  /** The approximation that pass `j` (counted from 0) starts from. */
  function Prev(x0: real, tr: seq<real>, j: nat): real
    requires j <= |tr|
  {
    if j == 0 then x0 else tr[j - 1]
  }

  /** Element `j` of the trace is the step from the approximation before it. */
  ghost predicate StepsTo(step: real -> Step, x0: real, tr: seq<real>, j: nat)
    requires j < |tr|
  {
    step(Prev(x0, tr, j)) == Next(tr[j])
  }

  /** Pass `j` met the stopping test `abs(p - p0) < tol`. */
  predicate Meets(x0: real, tol: real, tr: seq<real>, j: nat)
    requires j < |tr|
  {
    Close(tr[j], Prev(x0, tr, j), tol)
  }

  /** Every element of the trace is the step from the one before it (from `x0` for the first). */
  ghost predicate Follows(step: real -> Step, x0: real, tr: seq<real>)
  {
    forall j :: 0 <= j < |tr| ==> StepsTo(step, x0, tr, j)
  }

  /** A complete run of the driver loop from `x0` with cap `n` and tolerance
      `tol`: the trace holds the approximations in the order they are computed,
      no pass but the last meets the stopping test, and the outcome is
      Converged at the first pass that meets it, otherwise the report of a zero
      divisor met before the cap, otherwise the report of exhaustion.
      `guarded` says the loop binds `p` to the start before its first pass,
      tests its divisor before dividing and reports the last approximation;
      without it, the exhaustion report of a run with no pass names an unbound
      `p`. `badFormat` selects the exhaustion report that raises first. */
  ghost predicate IterationRun(step: real -> Step, guarded: bool, x0: real, n: int, tol: real,
                               badFormat: bool, tr: seq<real>, out: Outcome)
  {
    && |tr| <= Cap(n)
    && Follows(step, x0, tr)
    && (forall j :: 0 <= j < |tr| - 1 ==> !Meets(x0, tol, tr, j))
    && if |tr| > 0 && Meets(x0, tol, tr, |tr| - 1) then
         out == Converged(tr[|tr| - 1], |tr|)
       else if |tr| < n then
         && step(Prev(x0, tr, |tr|)) == Blocked
         && out == (if guarded then ZeroDenominator(Prev(x0, tr, |tr|)) else DivisionByZero)
       else if badFormat then
         out == FormatError
       else if |tr| == 0 && !guarded then
         out == UndefinedReport
       else
         out == Exhausted(Prev(x0, tr, |tr|))
  }

  /** The passes of a run that has not stopped yet: the trace follows the
      step and no pass met the stopping test. */
  ghost predicate Unstopped(step: real -> Step, x0: real, tol: real, tr: seq<real>)
  {
    && Follows(step, x0, tr)
    && forall j :: 0 <= j < |tr| ==> !Meets(x0, tol, tr, j)
  }

  /** A pass that computes `p` and does not stop keeps the run unstopped. */
  lemma UnstoppedExtend(step: real -> Step, x0: real, tol: real, tr: seq<real>, p: real)
    requires Unstopped(step, x0, tol, tr)
    requires step(Prev(x0, tr, |tr|)) == Next(p) && !Close(p, Prev(x0, tr, |tr|), tol)
    ensures Unstopped(step, x0, tol, tr + [p])
    ensures Prev(x0, tr + [p], |tr| + 1) == p
  {
    FollowsExtend(step, x0, tr, p);
    var tr' := tr + [p];
    forall j | 0 <= j < |tr'|
      ensures !Meets(x0, tol, tr', j)
    {
      assert Prev(x0, tr', j) == Prev(x0, tr, j);
      if j < |tr| {
        assert !Meets(x0, tol, tr, j);
      }
    }
  }

  /** A pass within the cap that computes `p` and meets the stopping test ends
      the run as Converged, reporting the pass count. */
  lemma ConvergedRun(step: real -> Step, guarded: bool, x0: real, n: int, tol: real, badFormat: bool,
                     tr: seq<real>, p: real)
    requires Unstopped(step, x0, tol, tr) && |tr| < n
    requires step(Prev(x0, tr, |tr|)) == Next(p) && Close(p, Prev(x0, tr, |tr|), tol)
    ensures IterationRun(step, guarded, x0, n, tol, badFormat, tr + [p], Converged(p, |tr| + 1))
  {
    FollowsExtend(step, x0, tr, p);
    var tr' := tr + [p];
    assert Prev(x0, tr', |tr|) == Prev(x0, tr, |tr|);
    forall j | 0 <= j < |tr'| - 1
      ensures !Meets(x0, tol, tr', j)
    {
      assert Prev(x0, tr', j) == Prev(x0, tr, j);
      assert !Meets(x0, tol, tr, j);
    }
  }

  /** A pass within the cap whose step is blocked ends the run with the
      zero-divisor report. */
  lemma BlockedRun(step: real -> Step, guarded: bool, x0: real, n: int, tol: real, badFormat: bool,
                   tr: seq<real>)
    requires Unstopped(step, x0, tol, tr) && |tr| < n
    requires step(Prev(x0, tr, |tr|)) == Blocked
    ensures IterationRun(step, guarded, x0, n, tol, badFormat, tr,
                         if guarded then ZeroDenominator(Prev(x0, tr, |tr|)) else DivisionByZero)
  {
  }

  /** An unstopped run that reached the cap ends with the exhaustion report. */
  lemma ExhaustedRun(step: real -> Step, guarded: bool, x0: real, n: int, tol: real, badFormat: bool,
                     tr: seq<real>)
    requires Unstopped(step, x0, tol, tr) && |tr| == Cap(n)
    ensures IterationRun(step, guarded, x0, n, tol, badFormat, tr,
                         if badFormat then FormatError
                         else if |tr| == 0 && !guarded then UndefinedReport
                         else Exhausted(Prev(x0, tr, |tr|)))
  {
  }

  /** Appending the step from the last approximation keeps a trace following the step. */
  lemma FollowsExtend(step: real -> Step, x0: real, tr: seq<real>, p: real)
    requires Follows(step, x0, tr)
    requires step(Prev(x0, tr, |tr|)) == Next(p)
    ensures Follows(step, x0, tr + [p])
    ensures Prev(x0, tr + [p], |tr| + 1) == p
  {
    var tr' := tr + [p];
    forall j | 0 <= j < |tr'|
      ensures StepsTo(step, x0, tr', j)
    {
      assert Prev(x0, tr', j) == Prev(x0, tr, j);
      if j < |tr| {
        assert StepsTo(step, x0, tr, j);
      }
    }
  }

  /** Fixed-point iterate `j` is `f` applied `j + 1` times to the start. */
  lemma {:induction false} FixedPointIsIterate(f: real -> real, x0: real, tr: seq<real>, j: nat)
    requires Follows(FixedPointMap(f), x0, tr)
    requires j < |tr|
    ensures tr[j] == Iterate(f, x0, j + 1)
  {
    assert StepsTo(FixedPointMap(f), x0, tr, j);
    if j > 0 {
      FixedPointIsIterate(f, x0, tr, j - 1);
    }
  }

  /** Every Newton approximation is where the tangent at the approximation
      before it crosses zero, and that tangent is not flat. */
  lemma NewtonFollowsTangent(f: real -> real, df: real -> real, x0: real, tr: seq<real>, j: nat)
    requires Follows(NewtonMap(f, df), x0, tr)
    requires j < |tr|
    ensures var x := Prev(x0, tr, j); OnTangent(x, f(x), df(x), tr[j])
  {
    var x := Prev(x0, tr, j);
    assert StepsTo(NewtonMap(f, df), x0, tr, j);
    NewtonPointOnTangent(x, f(x), df(x), tr[j]);
  }

  /** Every modified-Newton approximation is the commented closed form applied
      to the approximation before it. */
  lemma ModifiedNewtonFollowsClosedForm(f: real -> real, df: real -> real, d2f: real -> real,
                                        x0: real, tr: seq<real>, j: nat)
    requires Follows(ModifiedNewtonMap(f, df, d2f), x0, tr)
    requires j < |tr|
    ensures var x := Prev(x0, tr, j); IsClosedFormStep(x, f(x), df(x), d2f(x), tr[j])
  {
    var x := Prev(x0, tr, j);
    assert StepsTo(ModifiedNewtonMap(f, df, d2f), x0, tr, j);
    ModifiedNewtonStepIsClosedForm(x, f(x), df(x), d2f(x));
  }

  /** Two traces that follow the same step from the same start agree where both are defined. */
  lemma {:induction false} FollowsAgree(step: real -> Step, x0: real, tr1: seq<real>, tr2: seq<real>, k: nat)
    requires Follows(step, x0, tr1) && Follows(step, x0, tr2)
    requires k <= |tr1| && k <= |tr2|
    ensures forall j :: 0 <= j < k ==> tr1[j] == tr2[j]
  {
    if k > 0 {
      FollowsAgree(step, x0, tr1, tr2, k - 1);
      assert Prev(x0, tr1, k - 1) == Prev(x0, tr2, k - 1);
      assert StepsTo(step, x0, tr1, k - 1) && StepsTo(step, x0, tr2, k - 1);
    }
  }

  /** A run is determined by its inputs: the same step, start, cap and
      tolerance give the same trace and the same outcome. */
  lemma RunIsDeterministic(step: real -> Step, guarded: bool, x0: real, n: int, tol: real, badFormat: bool,
                           tr1: seq<real>, out1: Outcome, tr2: seq<real>, out2: Outcome)
    requires IterationRun(step, guarded, x0, n, tol, badFormat, tr1, out1)
    requires IterationRun(step, guarded, x0, n, tol, badFormat, tr2, out2)
    ensures tr1 == tr2 && out1 == out2
  {
    if |tr1| <= |tr2| {
      ShorterRunIsSame(step, guarded, x0, n, tol, badFormat, tr1, out1, tr2, out2);
    } else {
      ShorterRunIsSame(step, guarded, x0, n, tol, badFormat, tr2, out2, tr1, out1);
    }
  }

  lemma ShorterRunIsSame(step: real -> Step, guarded: bool, x0: real, n: int, tol: real, badFormat: bool,
                         tr1: seq<real>, out1: Outcome, tr2: seq<real>, out2: Outcome)
    requires IterationRun(step, guarded, x0, n, tol, badFormat, tr1, out1)
    requires IterationRun(step, guarded, x0, n, tol, badFormat, tr2, out2)
    requires |tr1| <= |tr2|
    ensures tr1 == tr2 && out1 == out2
  {
    var k := |tr1|;
    FollowsAgree(step, x0, tr1, tr2, k);
    assert Prev(x0, tr1, k) == Prev(x0, tr2, k);
    StepAt(step, x0, tr2, k);
    NoEarlyStop(step, guarded, x0, n, tol, badFormat, tr2, out2, k);
    if k < |tr2| {
      assert false;
    }
    assert tr1 == tr2;
  }

  lemma StepAt(step: real -> Step, x0: real, tr: seq<real>, k: nat)
    requires Follows(step, x0, tr) && k <= |tr|
    ensures k < |tr| ==> step(Prev(x0, tr, k)) == Next(tr[k])
  {
    if k < |tr| {
      assert StepsTo(step, x0, tr, k);
    }
  }

  lemma NoEarlyStop(step: real -> Step, guarded: bool, x0: real, n: int, tol: real, badFormat: bool,
                    tr: seq<real>, out: Outcome, k: nat)
    requires IterationRun(step, guarded, x0, n, tol, badFormat, tr, out) && k <= |tr|
    ensures 0 < k < |tr| ==> !Meets(x0, tol, tr, k - 1)
  {
  }
}
