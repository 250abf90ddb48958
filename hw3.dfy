/** The loops of `math414/hw3.py`. Newton-Raphson, secant, regula falsi,
    modified Newton and Steffensen are, statement for statement, the loops of
    `root-finding.py` (only their comments differ), so this revision runs
    those methods. Aitken differs: its generation loop advances `p0` itself,
    so the first accelerated triple starts at the last iterate instead of the
    original start. */
module Hw3 {
  import opened Outcomes
  import opened Formulas
  import Iteration
  import TwoPoint
  import Acceleration
  import RootFinding

  /** Newton-Raphson, the same loop as in `root-finding.py`. */
  method NewtonRaphson(f: real -> real, df: real -> real, x0: real, n: int, tol: real)
    returns (out: Outcome, trace: seq<real>)
    ensures Iteration.IterationRun(Iteration.NewtonMap(f, df), false, x0, n, tol, false, trace, out)
  {
    out, trace := RootFinding.NewtonRaphson(f, df, x0, n, tol);
  }

  /** The secant method, the same loop as in `root-finding.py`. */
  method Secant(f: real -> real, x0: real, x1: real, n: int, tol: real)
    returns (out: Outcome, trace: seq<real>)
    ensures TwoPoint.TwoPointRun(f, TwoPoint.AlwaysShift, x0, x1, n, tol, false, trace, out)
  {
    out, trace := RootFinding.Secant(f, x0, x1, n, tol);
  }

  /** Regula falsi, the same loop as in `root-finding.py`. */
  method RegulaFalsi(f: real -> real, x0: real, x1: real, n: int, tol: real)
    returns (out: Outcome, trace: seq<real>)
    ensures TwoPoint.TwoPointRun(f, TwoPoint.ShiftOnSignChange, x0, x1, n, tol, false, trace, out)
  {
    out, trace := RootFinding.RegulaFalsi(f, x0, x1, n, tol);
  }

  /** Modified Newton, the same loop as in `root-finding.py`. */
  method ModifiedNewton(f: real -> real, df: real -> real, d2f: real -> real, x0: real, n: int, tol: real)
    returns (out: Outcome, trace: seq<real>)
    ensures Iteration.IterationRun(Iteration.ModifiedNewtonMap(f, df, d2f), false, x0, n, tol, false, trace, out)
  {
    out, trace := RootFinding.ModifiedNewton(f, df, d2f, x0, n, tol);
  }

  /** Steffensen's method, the same loop as in `root-finding.py`. */
  method Steffensen(f: real -> real, x0: real, n: int, tol: real)
    returns (out: Outcome, trace: seq<real>)
    ensures Iteration.IterationRun(Iteration.SteffensenMap(f), true, x0, n, tol, false, trace, out)
  {
    out, trace := RootFinding.Steffensen(f, x0, n, tol);
  }

  /** Aitken's method with `p0` advanced by the generation loop: the buffer
      still holds `f` applied `k + 1` times to the original start, but the first
      triple starts at the last buffer element. A zero denominator is reported
      with `p`, which holds the start of the accelerated pass until the first
      value replaces it. */
  method Aitken(f: real -> real, x0: real, n: int)
    returns (out: Outcome, base: seq<real>, acc: seq<real>)
    ensures Acceleration.AitkenRun(f, x0, n, Iterate(f, x0, Cap(n + 2)), false, base, acc, out)
    ensures |base| > 0 ==> Iterate(f, x0, Cap(n + 2)) == base[|base| - 1]
  {
    var p0 := x0;
    var m := n + 2;
    var arr := new real[Cap(m)](_ => 0.0);
    var i := 1;
    while i <= m
      invariant 1 <= i <= Cap(m) + 1
      invariant p0 == Iterate(f, x0, i - 1)
      invariant forall k :: 0 <= k < i - 1 ==> arr[k] == Iterate(f, x0, k + 1)
    {
      arr[i - 1] := f(p0);
      var q := arr[i - 1];
      p0 := q;
      i := i + 1;
    }
    base := arr[..];
    assert Acceleration.IsOrbit(f, x0, base);
    ghost var first := p0;
    assert first == Iterate(f, x0, Cap(n + 2));
    var p := p0;
    acc := [];
    i := 1;
    while i <= n
      invariant 1 <= i && |acc| == i - 1 && |acc| <= Cap(n)
      modifies {}
      invariant p0 == Iteration.Prev(first, base, |acc|) && p == Acceleration.LastOr(first, acc)
      invariant forall j :: 0 <= j < |acc| ==> Acceleration.AcceleratedPass(first, base, acc, j)
    {
      var p1 := arr[i - 1];
      var p2 := arr[i];
      if Denominator(p0, p1, p2) == 0.0 {
        Acceleration.StoppedRun(f, x0, n, first, false, base, acc);
        return ZeroDenominator(p), base, acc;
      }
      p := Accelerate(p0, p1, p2);
      Acceleration.AcceleratedExtend(first, base, acc, p);
      acc := acc + [p];
      p0 := p1;
      i := i + 1;
    }
    Acceleration.FinishedRun(f, x0, n, first, false, base, acc);
    out := Exhausted(p);
  }
}
