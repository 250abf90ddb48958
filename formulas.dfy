/** The step formulas of the root-finding loops, over exact reals. The target
    function and its derivatives are parameters the formulas never look inside. */
module Formulas {

  function Abs(x: real): (r: real)
    ensures r >= 0.0 && (r == x || r == -x)
  {
    if x < 0.0 then -x else x
  }

  /** The stopping test `abs(p - prev) < tol` shared by the iteration loops. */
  predicate Close(p: real, prev: real, tol: real)
  {
    Abs(p - prev) < tol
  }

  /** Bisection's midpoint, written `a + (b - a)/2` as the source does. */
  function Midpoint(a: real, b: real): (p: real)
    ensures p - a == b - p
    ensures a <= b ==> a <= p <= b
  {
    a + (b - a) / 2.0
  }

  /** Newton's step from `x`, given `fx = f(x)` and `dfx = f'(x)`. */
  function NewtonPoint(x: real, fx: real, dfx: real): real
    requires dfx != 0.0
  {
    x - fx / dfx
  }

  /** Newton's step is where the tangent line at `x` vanishes. */
  lemma NewtonPointOnTangent(x: real, fx: real, dfx: real, p: real)
    requires dfx != 0.0 && p == NewtonPoint(x, fx, dfx)
    ensures OnTangent(x, fx, dfx, p)
  {
  }

  /** `p` is where the tangent line `fx + dfx*(t - x)` at `x` vanishes, and the
      tangent is not flat. */
  predicate OnTangent(x: real, fx: real, dfx: real, p: real)
  {
    dfx != 0.0 && fx + dfx * (p - x) == 0.0
  }

  /** The secant (and false-position) point from the window `(p0, q0)`, `(p1, q1)`. */
  function SecantPoint(p0: real, q0: real, p1: real, q1: real): real
    requires q1 != q0
  {
    p1 - q1 * (p1 - p0) / (q1 - q0)
  }

  /** The secant point is where the chord through `(p0, q0)` and `(p1, q1)`
      vanishes. */
  lemma SecantPointOnChord(p0: real, q0: real, p1: real, q1: real)
    requires q1 != q0
    ensures q1 * (SecantPoint(p0, q0, p1, q1) - p0) == q0 * (SecantPoint(p0, q0, p1, q1) - p1)
  {
  }

  /** Modified Newton's helper `g(y) = f(y)/df(y)`, on the values at `y`. */
  function G(fy: real, dfy: real): real
    requires dfy != 0.0
  {
    fy / dfy
  }

  /** Modified Newton's helper `dg(y) = 1 - f(y)*d2f(y)/df(y)**2`, on the values at `y`. */
  function DG(fy: real, dfy: real, d2fy: real): real
    requires dfy != 0.0
  {
    1.0 - (fy * d2fy) / (dfy * dfy)
  }

  /** The closed form of modified Newton's step that the source keeps as a comment. */
  function ModifiedNewtonClosedForm(x: real, fx: real, dfx: real, d2fx: real): real
    requires dfx * dfx - fx * d2fx != 0.0
  {
    x - (fx * dfx) / (dfx * dfx - fx * d2fx)
  }

  /** `p` is the closed-form step from `x`, and that step is defined. */
  predicate IsClosedFormStep(x: real, fx: real, dfx: real, d2fx: real, p: real)
  {
    dfx * dfx - fx * d2fx != 0.0 && p == ModifiedNewtonClosedForm(x, fx, dfx, d2fx)
  }

  /** The second difference `p2 - 2*p1 + p0` that Aitken's formula divides by. */
  function Denominator(p0: real, p1: real, p2: real): real
  {
    p2 - 2.0 * p1 + p0
  }

  /** Aitken's delta-squared value `p0 - (p1 - p0)**2 / (p2 - 2*p1 + p0)`. */
  function Accelerate(p0: real, p1: real, p2: real): real
    requires Denominator(p0, p1, p2) != 0.0
  {
    p0 - ((p1 - p0) * (p1 - p0)) / Denominator(p0, p1, p2)
  }

  /** `f` applied `k` times to `x`. */
  function Iterate(f: real -> real, x: real, k: nat): real
  {
    if k == 0 then x else f(Iterate(f, x, k - 1))
  }

  /** Where both divisions of modified Newton's step are defined, the `g/dg`
      step equals the closed form, and the closed form's denominator is not zero. */
  lemma ModifiedNewtonStepIsClosedForm(x: real, fx: real, dfx: real, d2fx: real)
    requires dfx != 0.0 && DG(fx, dfx, d2fx) != 0.0
    ensures IsClosedFormStep(x, fx, dfx, d2fx, x - G(fx, dfx) / DG(fx, dfx, d2fx))
  {
    var dg := DG(fx, dfx, d2fx);
    var q := G(fx, dfx) / dg;
    DGScaled(fx, dfx, d2fx);
    NonzeroProduct(dfx, dg);
    NonzeroProduct(dfx, dfx * dg);
    assert q * dg == fx / dfx;
    assert q * dg * dfx == fx;
    assert q * (dfx * (dfx * dg)) == fx * dfx;
    DivUnique(q, dfx * dfx - fx * d2fx, fx * dfx);
  }

  /** `df**2 * dg == df**2 - f*d2f`: the closed form's denominator is `dg` scaled by `df**2`. */
  lemma DGScaled(fx: real, dfx: real, d2fx: real)
    requires dfx != 0.0
    ensures dfx * (dfx * DG(fx, dfx, d2fx)) == dfx * dfx - fx * d2fx
  {
    assert dfx * dfx != 0.0;
  }

  /** A product that equals `e` identifies its factor as a quotient. */
  lemma DivUnique(w: real, d: real, e: real)
    requires d != 0.0 && w * d == e
    ensures w == e / d
  {
  }

  /** When `q0` is not zero and `q0`, `q1` do not share a sign, the chord's zero
      is defined and lies between `p0` and `p1`. */
  lemma SecantPointBetween(p0: real, q0: real, p1: real, q1: real)
    requires q0 != 0.0 && q0 * q1 <= 0.0
    ensures q1 != q0
    ensures var p := SecantPoint(p0, q0, p1, q1);
      (p0 <= p1 ==> p0 <= p <= p1) && (p1 <= p0 ==> p1 <= p <= p0)
  {
    ProductSigns(q0, q1);
    SecantPointOnChord(p0, q0, p1, q1);
    var p := SecantPoint(p0, q0, p1, q1);
    assert q1 * (p - p0) == q0 * (p - p1);
    assert q1 == 0.0 ==> p == p1;
    ProductSigns(q1, p - p0);
    ProductSigns(q0, p - p1);
  }

  /** The sign of a product from the signs of its factors. */
  lemma ProductSigns(a: real, b: real)
    ensures a > 0.0 && b > 0.0 ==> a * b > 0.0
    ensures a < 0.0 && b < 0.0 ==> a * b > 0.0
    ensures a > 0.0 && b < 0.0 ==> a * b < 0.0
    ensures a < 0.0 && b > 0.0 ==> a * b < 0.0
    ensures a == 0.0 || b == 0.0 ==> a * b == 0.0
  {
  }

  lemma NonzeroProduct(a: real, b: real)
    requires a != 0.0 && b != 0.0
    ensures a * b != 0.0
  {
  }

  /** On an affine map `x -> c*x + d` the second difference of `x`, `p1`,
      `p2` factors as `(c - 1) * (p1 - x)`. */
  lemma AffineSecondDifference(c: real, d: real, x: real, p1: real, p2: real)
    requires p1 == c * x + d && p2 == c * p1 + d
    ensures Denominator(x, p1, p2) == (c - 1.0) * (p1 - x)
  {
  }

  /** The fixed point of the affine map `x -> c*x + d` with `c != 1`. */
  function AffineFixedPoint(c: real, d: real): (r: real)
    requires c != 1.0
    ensures c * r + d == r
  {
    d / (1.0 - c)
  }

  /** `v` is the one fixed point of `x -> c*x + d`, which needs `c != 1`. */
  predicate IsAffineFixedPoint(c: real, d: real, v: real)
  {
    c != 1.0 && v == AffineFixedPoint(c, d)
  }

  /** Aitken's value is exact on an affine fixed-point map `x -> c*x + d`:
      the second difference of `x`, `p1 = c*x + d`, `p2 = c*p1 + d` is nonzero
      exactly when `c != 1` and `x` is not already the fixed point, and then
      one step lands on the fixed point `d / (1 - c)`. */
  lemma AccelerateAffineIsExact(c: real, d: real, x: real, p1: real, p2: real)
    requires p1 == c * x + d && p2 == c * p1 + d
    ensures Denominator(x, p1, p2) != 0.0 <==> c != 1.0 && p1 != x
    ensures Denominator(x, p1, p2) != 0.0 ==> Accelerate(x, p1, p2) == AffineFixedPoint(c, d)
  {
    AffineSecondDifference(c, d, x, p1, p2);
    ProductSigns(c - 1.0, p1 - x);
    if c != 1.0 && p1 != x {
      AffineStep(c, d, x, p1, p2, p1 - x);
    }
  }

  lemma AffineStep(c: real, d: real, x: real, p1: real, p2: real, h: real)
    requires c != 1.0 && h != 0.0 && h == p1 - x && p1 == c * x + d
    requires Denominator(x, p1, p2) == (c - 1.0) * h
    ensures Accelerate(x, p1, p2) == AffineFixedPoint(c, d)
  {
    QuotientCancel(h, c - 1.0);
    assert (c - 1.0) * h != 0.0;
    assert Denominator(x, p1, p2) != 0.0;
    assert (p1 - x) * (p1 - x) == h * h;
    assert Accelerate(x, p1, p2) == x - h / (c - 1.0);
    AffineQuotient(c, d, x, h);
  }

  lemma QuotientCancel(h: real, k: real)
    requires h != 0.0 && k != 0.0
    ensures k * h != 0.0 && h * h / (k * h) == h / k
  {
    NonzeroProduct(k, h);
    var w := h / k;
    assert w * (k * h) == h * h;
    DivUnique(w, k * h, h * h);
  }

  lemma AffineQuotient(c: real, d: real, x: real, h: real)
    requires c != 1.0 && h == (c - 1.0) * x + d
    ensures x - h / (c - 1.0) == d / (1.0 - c)
  {
    var w := h / (c - 1.0);
    assert (w - x) * (c - 1.0) == d;
    DivUnique(w - x, c - 1.0, d);
  }
}
