/** The loops of `root-finding.py`, each as the method it is there: a counter
    `i`, locals reassigned pass by pass, and a trace of the approximations in
    place of the printed lines. A division by zero that Python would raise is
    tested for just before the division and ends the run as `DivisionByZero`.
    Each method is proved against the run predicate of its loop family. */
module RootFinding {
  import opened Outcomes
  import opened Formulas
  import Bisect
  import Iteration
  import TwoPoint
  import Acceleration

  /** Bisection on `[a0, b0]` with at most `n` passes; `FA` is taken once. */
  method Bisection(f: real -> real, a0: real, b0: real, n: int, tol: real)
    returns (out: Outcome, trace: seq<real>)
    ensures Bisect.BisectionRun(f, a0, b0, n, tol, trace, out)
  {
    var a, b := a0, b0;
    var i := 1;
    var fa := f(a);
    trace := [];
    while i <= n
      invariant 1 <= i <= Cap(n) + 1 && |trace| == i - 1
      invariant Bisect.Interval(a, b) == Bisect.Bracket(f, fa, a0, b0, i - 1)
      invariant Bisect.Unstopped(f, a0, b0, tol, trace)
    {
      var p := a + (b - a) / 2.0;
      var fp := f(p);
      if fp == 0.0 || (b - a) / 2.0 < tol {
        Bisect.ConvergedRun(f, a0, b0, n, tol, trace, p);
        return Converged(p, i), trace + [p];
      }
      Bisect.UnstoppedExtend(f, a0, b0, tol, trace, p);
      trace := trace + [p];
      i := i + 1;
      if fa * fp > 0.0 {
        a := p;
      } else {
        b := p;
      }
    }
    Bisect.ExhaustedRun(f, a0, b0, n, tol, trace);
    if i == 1 {
      // no pass bound `p`
      return UndefinedReport, trace;
    }
    out := Exhausted(trace[|trace| - 1]);
  }

  /** Fixed-point iteration `p = f(p0)` with at most `n` passes. */
  method FixedPoint(f: real -> real, x0: real, n: int, tol: real)
    returns (out: Outcome, trace: seq<real>)
    ensures Iteration.IterationRun(Iteration.FixedPointMap(f), false, x0, n, tol, false, trace, out)
  {
    ghost var step := Iteration.FixedPointMap(f);
    var p0 := x0;
    var i := 1;
    trace := [];
    while i <= n
      invariant 1 <= i <= Cap(n) + 1 && |trace| == i - 1
      invariant Iteration.Unstopped(step, x0, tol, trace)
      invariant p0 == Iteration.Prev(x0, trace, |trace|)
    {
      var p := f(p0);
      assert step(p0) == Iteration.Next(p);
      if Abs(p - p0) < tol {
        Iteration.ConvergedRun(step, false, x0, n, tol, false, trace, p);
        return Converged(p, i), trace + [p];
      }
      Iteration.UnstoppedExtend(step, x0, tol, trace, p);
      trace := trace + [p];
      i := i + 1;
      p0 := p;
    }
    Iteration.ExhaustedRun(step, false, x0, n, tol, false, trace);
    if i == 1 {
      // no pass bound `p`
      return UndefinedReport, trace;
    }
    out := Exhausted(p0);
  }

  /** Newton-Raphson `p = p0 - f(p0)/df(p0)`; the division is not guarded. */
  method NewtonRaphson(f: real -> real, df: real -> real, x0: real, n: int, tol: real)
    returns (out: Outcome, trace: seq<real>)
    ensures Iteration.IterationRun(Iteration.NewtonMap(f, df), false, x0, n, tol, false, trace, out)
  {
    ghost var step := Iteration.NewtonMap(f, df);
    var p0 := x0;
    var i := 1;
    trace := [];
    while i <= n
      invariant 1 <= i <= Cap(n) + 1 && |trace| == i - 1
      invariant Iteration.Unstopped(step, x0, tol, trace)
      invariant p0 == Iteration.Prev(x0, trace, |trace|)
    {
      if df(p0) == 0.0 {
        Iteration.BlockedRun(step, false, x0, n, tol, false, trace);
        return DivisionByZero, trace;
      }
      var p := p0 - f(p0) / df(p0);
      assert step(p0) == Iteration.Next(p);
      if Abs(p - p0) < tol {
        Iteration.ConvergedRun(step, false, x0, n, tol, false, trace, p);
        return Converged(p, i), trace + [p];
      }
      Iteration.UnstoppedExtend(step, x0, tol, trace, p);
      trace := trace + [p];
      i := i + 1;
      p0 := p;
    }
    Iteration.ExhaustedRun(step, false, x0, n, tol, false, trace);
    if i == 1 {
      // no pass bound `p`
      return UndefinedReport, trace;
    }
    out := Exhausted(p0);
  }

  /** The secant method from `x0`, `x1`: the counter starts at 2, success
      reports `i + 1`, and the division by `q1 - q0` is not guarded. */
  method Secant(f: real -> real, x0: real, x1: real, n: int, tol: real)
    returns (out: Outcome, trace: seq<real>)
    ensures TwoPoint.TwoPointRun(f, TwoPoint.AlwaysShift, x0, x1, n, tol, false, trace, out)
  {
    ghost var rule := TwoPoint.AlwaysShift;
    var p0, p1 := x0, x1;
    var q0, q1 := f(p0), f(p1);
    var i := 2;
    trace := [];
    while i <= n
      invariant 2 <= i <= Cap(n - 1) + 2 && |trace| == i - 2
      invariant TwoPoint.Window(p0, q0, p1, q1) == TwoPoint.Windows(f, rule, x0, x1, trace, |trace|)
      invariant TwoPoint.Unstopped(f, rule, x0, x1, tol, trace)
    {
      if q1 - q0 == 0.0 {
        TwoPoint.BlockedRun(f, rule, x0, x1, n, tol, false, trace);
        return DivisionByZero, trace;
      }
      var p := SecantPoint(p0, q0, p1, q1);
      ghost var w := TwoPoint.Window(p0, q0, p1, q1);
      if Close(p, p1, tol) {
        TwoPoint.ConvergedRun(f, rule, x0, x1, n, tol, false, trace, p);
        return Converged(p, i + 1), trace + [p];
      }
      TwoPoint.UnstoppedExtend(f, rule, x0, x1, tol, trace, p);
      trace := trace + [p];
      i := i + 1;
      p0 := p1;
      q0 := q1;
      p1 := p;
      q1 := f(p);
      assert TwoPoint.Window(p0, q0, p1, q1) == TwoPoint.Advance(f, rule, w, p);
    }
    TwoPoint.ExhaustedRun(f, rule, x0, x1, n, tol, false, trace);
    if i == 2 {
      // no pass bound `p`
      return UndefinedReport, trace;
    }
    // `p1` holds the last `p`
    out := Exhausted(p1);
  }

  /** Regula falsi from `x0`, `x1`: as the secant method, but `(p0, q0)` moves
      up only when `f(p)*q1 < 0`. Nothing checks the initial sign change. */
  method RegulaFalsi(f: real -> real, x0: real, x1: real, n: int, tol: real)
    returns (out: Outcome, trace: seq<real>)
    ensures TwoPoint.TwoPointRun(f, TwoPoint.ShiftOnSignChange, x0, x1, n, tol, false, trace, out)
  {
    ghost var rule := TwoPoint.ShiftOnSignChange;
    var p0, p1 := x0, x1;
    var q0, q1 := f(p0), f(p1);
    var i := 2;
    trace := [];
    while i <= n
      invariant 2 <= i <= Cap(n - 1) + 2 && |trace| == i - 2
      invariant TwoPoint.Window(p0, q0, p1, q1) == TwoPoint.Windows(f, rule, x0, x1, trace, |trace|)
      invariant TwoPoint.Unstopped(f, rule, x0, x1, tol, trace)
    {
      if q1 - q0 == 0.0 {
        TwoPoint.BlockedRun(f, rule, x0, x1, n, tol, false, trace);
        return DivisionByZero, trace;
      }
      var p := SecantPoint(p0, q0, p1, q1);
      ghost var w := TwoPoint.Window(p0, q0, p1, q1);
      if Close(p, p1, tol) {
        TwoPoint.ConvergedRun(f, rule, x0, x1, n, tol, false, trace, p);
        return Converged(p, i + 1), trace + [p];
      }
      TwoPoint.UnstoppedExtend(f, rule, x0, x1, tol, trace, p);
      trace := trace + [p];
      i := i + 1;
      var q := f(p);
      if q * q1 < 0.0 {
        p0 := p1;
        q0 := q1;
      }
      p1 := p;
      q1 := q;
      assert TwoPoint.Window(p0, q0, p1, q1) == TwoPoint.Advance(f, rule, w, p);
    }
    TwoPoint.ExhaustedRun(f, rule, x0, x1, n, tol, false, trace);
    if i == 2 {
      // no pass bound `p`
      return UndefinedReport, trace;
    }
    // `p1` holds the last `p`
    out := Exhausted(p1);
  }

  /** Modified Newton `p = p0 - g(p0)/dg(p0)` with `g = f/df` and
      `dg = 1 - f*d2f/df^2`; none of the three divisions is guarded. */
  method ModifiedNewton(f: real -> real, df: real -> real, d2f: real -> real, x0: real, n: int, tol: real)
    returns (out: Outcome, trace: seq<real>)
    ensures Iteration.IterationRun(Iteration.ModifiedNewtonMap(f, df, d2f), false, x0, n, tol, false, trace, out)
  {
    ghost var step := Iteration.ModifiedNewtonMap(f, df, d2f);
    var p0 := x0;
    var i := 1;
    trace := [];
    while i <= n
      invariant 1 <= i <= Cap(n) + 1 && |trace| == i - 1
      invariant Iteration.Unstopped(step, x0, tol, trace)
      invariant p0 == Iteration.Prev(x0, trace, |trace|)
    {
      if df(p0) == 0.0 || DG(f(p0), df(p0), d2f(p0)) == 0.0 {
        Iteration.BlockedRun(step, false, x0, n, tol, false, trace);
        return DivisionByZero, trace;
      }
      var p := p0 - G(f(p0), df(p0)) / DG(f(p0), df(p0), d2f(p0));
      assert step(p0) == Iteration.Next(p);
      if Abs(p - p0) < tol {
        Iteration.ConvergedRun(step, false, x0, n, tol, false, trace, p);
        return Converged(p, i), trace + [p];
      }
      Iteration.UnstoppedExtend(step, x0, tol, trace, p);
      trace := trace + [p];
      i := i + 1;
      p0 := p;
    }
    Iteration.ExhaustedRun(step, false, x0, n, tol, false, trace);
    if i == 1 {
      // no pass bound `p`
      return UndefinedReport, trace;
    }
    out := Exhausted(p0);
  }

  /** Aitken's method: `n + 2` fixed-point iterates into `arr`, then up to `n`
      accelerated values; the first triple starts at the original `p0`. The
      zero-denominator report names a variable that was never bound. */
  method Aitken(f: real -> real, x0: real, n: int)
    returns (out: Outcome, base: seq<real>, acc: seq<real>)
    ensures Acceleration.AitkenRun(f, x0, n, x0, true, base, acc, out)
  {
    var pm := x0;
    var m := n + 2;
    var arr := new real[Cap(m)](_ => 0.0);
    var i := 1;
    while i <= m
      invariant 1 <= i <= Cap(m) + 1
      invariant pm == Iterate(f, x0, i - 1)
      invariant forall k :: 0 <= k < i - 1 ==> arr[k] == Iterate(f, x0, k + 1)
    {
      arr[i - 1] := f(pm);
      var q := arr[i - 1];
      pm := q;
      i := i + 1;
    }
    base := arr[..];
    assert Acceleration.IsOrbit(f, x0, base);
    var p0 := x0;
    var pn := p0;
    acc := [];
    i := 1;
    while i <= n
      invariant 1 <= i && |acc| == i - 1 && |acc| <= Cap(n)
      modifies {}
      invariant p0 == Iteration.Prev(x0, base, |acc|) && pn == Acceleration.LastOr(x0, acc)
      invariant forall j :: 0 <= j < |acc| ==> Acceleration.AcceleratedPass(x0, base, acc, j)
    {
      var p1 := arr[i - 1];
      var p2 := arr[i];
      if Denominator(p0, p1, p2) == 0.0 {
        Acceleration.StoppedRun(f, x0, n, x0, true, base, acc);
        return UndefinedReport, base, acc;
      }
      pn := Accelerate(p0, p1, p2);
      Acceleration.AcceleratedExtend(x0, base, acc, pn);
      acc := acc + [pn];
      p0 := p1;
      i := i + 1;
    }
    Acceleration.FinishedRun(f, x0, n, x0, true, base, acc);
    out := Exhausted(pn);
  }

  /** Steffensen's method: `p1 = f(p0)`, `p2 = f(p1)`, the second difference
      tested before dividing, and `p` reported on a zero denominator. */
  method Steffensen(f: real -> real, x0: real, n: int, tol: real)
    returns (out: Outcome, trace: seq<real>)
    ensures Iteration.IterationRun(Iteration.SteffensenMap(f), true, x0, n, tol, false, trace, out)
  {
    ghost var step := Iteration.SteffensenMap(f);
    var p0 := x0;
    var p := p0;
    var i := 1;
    trace := [];
    while i <= n
      invariant 1 <= i && |trace| == i - 1 && |trace| <= Cap(n)
      invariant Iteration.Unstopped(step, x0, tol, trace)
      invariant p0 == p == Iteration.Prev(x0, trace, |trace|)
    {
      var p1 := f(p0);
      var p2 := f(p1);
      if Denominator(p0, p1, p2) == 0.0 {
        Iteration.BlockedRun(step, true, x0, n, tol, false, trace);
        return ZeroDenominator(p), trace;
      }
      p := Accelerate(p0, p1, p2);
      assert step(p0) == Iteration.Next(p);
      if Abs(p - p0) < tol {
        Iteration.ConvergedRun(step, true, x0, n, tol, false, trace, p);
        return Converged(p, i), trace + [p];
      }
      Iteration.UnstoppedExtend(step, x0, tol, trace, p);
      trace := trace + [p];
      i := i + 1;
      p0 := p;
    }
    Iteration.ExhaustedRun(step, true, x0, n, tol, false, trace);
    out := Exhausted(p);
  }
}
