/** The loops of `math414/hw3-2.3.py`: Newton-Raphson, secant and regula
    falsi as in the other revisions, except for the give-up path. There the
    message `"... %.9f in %n..." % tol` holds two conversions for its one
    argument: `%.9f` takes `tol`, and fetching an argument for `%n` raises
    before anything is reported. So a run that does not converge within its
    cap ends as `FormatError`, even with no pass, as the raise comes before
    `p` is read. */
module Hw3Exercise23 {
  import opened Outcomes
  import opened Formulas
  import Iteration
  import TwoPoint

  /** Newton-Raphson `p = p0 - f(p0)/df(p0)`, the division not guarded, the
      give-up path raising the format error. */
  method NewtonRaphson(f: real -> real, df: real -> real, x0: real, n: int, tol: real)
    returns (out: Outcome, trace: seq<real>)
    ensures Iteration.IterationRun(Iteration.NewtonMap(f, df), false, x0, n, tol, true, trace, out)
  {
    ghost var step := Iteration.NewtonMap(f, df);
    var p0 := x0;
    var i := 1;
    trace := [];
    while i <= n
      invariant 1 <= i <= Cap(n) + 1 && |trace| == i - 1
      invariant Iteration.Unstopped(step, x0, tol, trace)
      invariant p0 == Iteration.Prev(x0, trace, |trace|)
    {
      if df(p0) == 0.0 {
        Iteration.BlockedRun(step, false, x0, n, tol, true, trace);
        return DivisionByZero, trace;
      }
      var p := p0 - f(p0) / df(p0);
      assert step(p0) == Iteration.Next(p);
      if Abs(p - p0) < tol {
        Iteration.ConvergedRun(step, false, x0, n, tol, true, trace, p);
        return Converged(p, i), trace + [p];
      }
      Iteration.UnstoppedExtend(step, x0, tol, trace, p);
      trace := trace + [p];
      i := i + 1;
      p0 := p;
    }
    Iteration.ExhaustedRun(step, false, x0, n, tol, true, trace);
    out := FormatError;
  }

  /** The secant method from `x0`, `x1`, the give-up path raising the format
      error. */
  method Secant(f: real -> real, x0: real, x1: real, n: int, tol: real)
    returns (out: Outcome, trace: seq<real>)
    ensures TwoPoint.TwoPointRun(f, TwoPoint.AlwaysShift, x0, x1, n, tol, true, trace, out)
  {
    ghost var rule := TwoPoint.AlwaysShift;
    var p0, p1 := x0, x1;
    var q0, q1 := f(p0), f(p1);
    var i := 2;
    trace := [];
    while i <= n
      invariant 2 <= i <= Cap(n - 1) + 2 && |trace| == i - 2
      invariant TwoPoint.Window(p0, q0, p1, q1) == TwoPoint.Windows(f, rule, x0, x1, trace, |trace|)
      invariant TwoPoint.Unstopped(f, rule, x0, x1, tol, trace)
    {
      if q1 - q0 == 0.0 {
        TwoPoint.BlockedRun(f, rule, x0, x1, n, tol, true, trace);
        return DivisionByZero, trace;
      }
      var p := SecantPoint(p0, q0, p1, q1);
      ghost var w := TwoPoint.Window(p0, q0, p1, q1);
      if Close(p, p1, tol) {
        TwoPoint.ConvergedRun(f, rule, x0, x1, n, tol, true, trace, p);
        return Converged(p, i + 1), trace + [p];
      }
      TwoPoint.UnstoppedExtend(f, rule, x0, x1, tol, trace, p);
      trace := trace + [p];
      i := i + 1;
      p0 := p1;
      q0 := q1;
      p1 := p;
      q1 := f(p);
      assert TwoPoint.Window(p0, q0, p1, q1) == TwoPoint.Advance(f, rule, w, p);
    }
    TwoPoint.ExhaustedRun(f, rule, x0, x1, n, tol, true, trace);
    out := FormatError;
  }

  /** Regula falsi from `x0`, `x1`, the give-up path raising the format
      error. */
  method RegulaFalsi(f: real -> real, x0: real, x1: real, n: int, tol: real)
    returns (out: Outcome, trace: seq<real>)
    ensures TwoPoint.TwoPointRun(f, TwoPoint.ShiftOnSignChange, x0, x1, n, tol, true, trace, out)
  {
    ghost var rule := TwoPoint.ShiftOnSignChange;
    var p0, p1 := x0, x1;
    var q0, q1 := f(p0), f(p1);
    var i := 2;
    trace := [];
    while i <= n
      invariant 2 <= i <= Cap(n - 1) + 2 && |trace| == i - 2
      invariant TwoPoint.Window(p0, q0, p1, q1) == TwoPoint.Windows(f, rule, x0, x1, trace, |trace|)
      invariant TwoPoint.Unstopped(f, rule, x0, x1, tol, trace)
    {
      if q1 - q0 == 0.0 {
        TwoPoint.BlockedRun(f, rule, x0, x1, n, tol, true, trace);
        return DivisionByZero, trace;
      }
      var p := SecantPoint(p0, q0, p1, q1);
      ghost var w := TwoPoint.Window(p0, q0, p1, q1);
      if Close(p, p1, tol) {
        TwoPoint.ConvergedRun(f, rule, x0, x1, n, tol, true, trace, p);
        return Converged(p, i + 1), trace + [p];
      }
      TwoPoint.UnstoppedExtend(f, rule, x0, x1, tol, trace, p);
      trace := trace + [p];
      i := i + 1;
      var q := f(p);
      if q * q1 < 0.0 {
        p0 := p1;
        q0 := q1;
      }
      p1 := p;
      q1 := q;
      assert TwoPoint.Window(p0, q0, p1, q1) == TwoPoint.Advance(f, rule, w, p);
    }
    TwoPoint.ExhaustedRun(f, rule, x0, x1, n, tol, true, trace);
    out := FormatError;
  }

  /** Newton-Raphson on `f(x) = x - 1` from `3` with one pass and `tol = 1`:
      the single step lands on the root `1` but moves by `2`, so the run gives
      up, and in this revision giving up raises the format error. */
  lemma GivingUpRaises(tr: seq<real>, out: Outcome)
    requires Iteration.IterationRun(Iteration.NewtonMap(x => x - 1.0, x => 1.0), false, 3.0, 1, 1.0, true, tr, out)
    ensures tr == [1.0] && out == FormatError
  {
    var step := Iteration.NewtonMap(x => x - 1.0, x => 1.0);
    assert NewtonPoint(3.0, 2.0, 1.0) == 1.0;
    assert step(3.0) == Iteration.Next(1.0);
    if |tr| == 0 {
      assert false;
    }
    Iteration.StepAt(step, 3.0, tr, 0);
  }

  /** The same run in the revisions whose give-up path reports: it ends as
      Exhausted with the last approximation. */
  lemma GivingUpReports(tr: seq<real>, out: Outcome)
    requires Iteration.IterationRun(Iteration.NewtonMap(x => x - 1.0, x => 1.0), false, 3.0, 1, 1.0, false, tr, out)
    ensures tr == [1.0] && out == Exhausted(1.0)
  {
    var step := Iteration.NewtonMap(x => x - 1.0, x => 1.0);
    assert NewtonPoint(3.0, 2.0, 1.0) == 1.0;
    assert step(3.0) == Iteration.Next(1.0);
    if |tr| == 0 {
      assert false;
    }
    Iteration.StepAt(step, 3.0, tr, 0);
  }
}
