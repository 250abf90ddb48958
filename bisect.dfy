/** Bisection's bracket: the interval `[a, b]` it halves, with `FA = f(a)`
    computed once from the starting endpoint and never refreshed. */
module Bisect {
  import opened Outcomes
  import opened Formulas

  datatype Interval = Interval(a: real, b: real)

  function Mid(iv: Interval): real
  {
    Midpoint(iv.a, iv.b)
  }

  function Width(iv: Interval): real
  {
    iv.b - iv.a
  }

  /** The stopping test of one pass: `FP == 0 or (b-a)/2 < tol`. */
  predicate Stops(f: real -> real, iv: Interval, tol: real)
  {
    f(Mid(iv)) == 0.0 || (iv.b - iv.a) / 2.0 < tol
  }

  /** A pass that does not stop moves `a` to the midpoint when `FA*FP > 0`,
      otherwise `b`. */
  function Halve(f: real -> real, fa: real, iv: Interval): (r: Interval)
    ensures Width(r) == Width(iv) / 2.0
    ensures iv.a <= iv.b ==> iv.a <= r.a <= r.b <= iv.b
    ensures (r.a == iv.a) != (r.b == iv.b) || iv.a == iv.b
  {
    var p := Mid(iv);
    if fa * f(p) > 0.0 then Interval(p, iv.b) else Interval(iv.a, p)
  }

  /** The bracket after `k` passes that did not stop. */
  function Bracket(f: real -> real, fa: real, a0: real, b0: real, k: nat): Interval
  {
    if k == 0 then Interval(a0, b0) else Halve(f, fa, Bracket(f, fa, a0, b0, k - 1))
  }

  function Pow2(k: nat): real
  {
    if k == 0 then 1.0 else 2.0 * Pow2(k - 1)
  }

  /** The bracket pass `j` (counted from 0) works on, with `FA = f(a0)`. */
  function BracketAt(f: real -> real, a0: real, b0: real, j: nat): Interval
  {
    Bracket(f, f(a0), a0, b0, j)
  }

  /** Element `j` of the trace is the midpoint of bracket `j`. */
  ghost predicate MidpointAt(f: real -> real, a0: real, b0: real, tr: seq<real>, j: nat)
    requires j < |tr|
  {
    tr[j] == Mid(BracketAt(f, a0, b0, j))
  }

  /** Pass `j` meets the stopping test. */
  ghost predicate StopsAt(f: real -> real, a0: real, b0: real, tol: real, j: nat)
  {
    Stops(f, BracketAt(f, a0, b0, j), tol)
  }

  /** A complete bisection run from `[a0, b0]`: the trace holds the midpoint
      of each pass's bracket, no pass but the last meets the stopping test,
      and the outcome is Converged at the first pass that meets it, or
      Exhausted after `n` passes. With no pass at all the report names an
      unbound `p`. */
  ghost predicate BisectionRun(f: real -> real, a0: real, b0: real, n: int, tol: real,
                               tr: seq<real>, out: Outcome)
  {
    && |tr| <= Cap(n)
    && (forall j :: 0 <= j < |tr| ==> MidpointAt(f, a0, b0, tr, j))
    && (forall j :: 0 <= j < |tr| - 1 ==> !StopsAt(f, a0, b0, tol, j))
    && if |tr| > 0 && StopsAt(f, a0, b0, tol, |tr| - 1) then
         out == Converged(tr[|tr| - 1], |tr|)
       else
         && |tr| == Cap(n)
         && out == (if |tr| == 0 then UndefinedReport else Exhausted(tr[|tr| - 1]))
  }

  /** After `k` passes the bracket is `b0 - a0` halved `k` times. */
  lemma {:induction false} BracketWidth(f: real -> real, fa: real, a0: real, b0: real, k: nat)
    ensures Width(Bracket(f, fa, a0, b0, k)) == Halved(b0 - a0, k)
  {
    if k > 0 {
      BracketWidth(f, fa, a0, b0, k - 1);
    }
  }

  /** `w` halved `k` times. */
  function Halved(w: real, k: nat): real
  {
    if k == 0 then w else Halved(w, k - 1) / 2.0
  }

  /** Halving `k` times is dividing by `2^k`. */
  lemma {:induction false} HalvedTimesPow2(w: real, k: nat)
    ensures Halved(w, k) * Pow2(k) == w
  {
    if k > 0 {
      HalvedTimesPow2(w, k - 1);
      HalfTimesDouble(Halved(w, k), Halved(w, k - 1), Pow2(k), Pow2(k - 1), w);
    }
  }

  lemma HalfTimesDouble(w': real, w: real, q': real, q: real, d: real)
    requires w' == w / 2.0 && q' == 2.0 * q && w * q == d
    ensures w' * q' == d
  {
  }

  /** From an ordered start every bracket lies inside the one before, so inside `[a0, b0]`. */
  lemma {:induction false} BracketNested(f: real -> real, fa: real, a0: real, b0: real, k: nat)
    requires a0 <= b0
    ensures var iv := Bracket(f, fa, a0, b0, k); a0 <= iv.a <= iv.b <= b0
  {
    if k > 0 {
      BracketNested(f, fa, a0, b0, k - 1);
    }
  }

  /** The midpoint of bracket `j` is not a zero of `f`. */
  ghost predicate MissesZero(f: real -> real, a0: real, b0: real, j: nat)
  {
    f(Mid(BracketAt(f, a0, b0, j))) != 0.0
  }

  /** With a strict sign change at the start, and no pass so far landing on a
      zero of `f`, `f(a)` keeps the sign of the stale `FA` and the bracket keeps
      a strict sign change. */
  lemma {:induction false} BracketKeepsSignChange(f: real -> real, a0: real, b0: real, k: nat)
    requires f(a0) * f(b0) < 0.0
    requires forall j :: 0 <= j < k ==> MissesZero(f, a0, b0, j)
    ensures var iv := BracketAt(f, a0, b0, k);
      f(a0) * f(iv.a) > 0.0 && f(iv.a) * f(iv.b) < 0.0
  {
    var fa := f(a0);
    if k == 0 {
      ProductSigns(fa, f(b0));
      ProductSigns(fa, fa);
    } else {
      BracketKeepsSignChange(f, a0, b0, k - 1);
      var iv := BracketAt(f, a0, b0, k - 1);
      assert MissesZero(f, a0, b0, k - 1);
      var fp := f(Mid(iv));
      ProductSigns(fa, f(iv.a));
      ProductSigns(f(iv.a), f(iv.b));
      ProductSigns(fa, fp);
      ProductSigns(fp, f(iv.b));
      ProductSigns(f(iv.a), fp);
    }
  }

  /** A bisection run from an ordered strict sign change: every approximation
      lies in `[a0, b0]`, and the bracket of the last pass still has a strict
      sign change and holds the last approximation. A run has a pass exactly
      when `n >= 1`. */
  lemma BisectionRunKeepsBracket(f: real -> real, a0: real, b0: real, n: int, tol: real,
                                 tr: seq<real>, out: Outcome)
    requires BisectionRun(f, a0, b0, n, tol, tr, out)
    requires a0 <= b0 && f(a0) * f(b0) < 0.0
    ensures (|tr| > 0) == (n >= 1)
    ensures forall j :: 0 <= j < |tr| ==> a0 <= tr[j] <= b0
    ensures |tr| > 0 ==> var iv := BracketAt(f, a0, b0, |tr| - 1);
      f(iv.a) * f(iv.b) < 0.0 && iv.a <= tr[|tr| - 1] <= iv.b
  {
    forall j | 0 <= j < |tr|
      ensures a0 <= tr[j] <= b0
    {
      assert MidpointAt(f, a0, b0, tr, j);
      BracketNested(f, f(a0), a0, b0, j);
    }
    forall j | 0 <= j < |tr| - 1
      ensures MissesZero(f, a0, b0, j)
    {
      assert !StopsAt(f, a0, b0, tol, j);
    }
    if |tr| > 0 {
      BracketKeepsSignChange(f, a0, b0, |tr| - 1);
      BracketNested(f, f(a0), a0, b0, |tr| - 1);
      assert MidpointAt(f, a0, b0, tr, |tr| - 1);
    }
  }

  /** The passes of a bisection run that has not stopped yet: each computed
      the midpoint of its bracket and did not stop. */
  ghost predicate Unstopped(f: real -> real, a0: real, b0: real, tol: real, tr: seq<real>)
  {
    forall j :: 0 <= j < |tr| ==> MidpointAt(f, a0, b0, tr, j) && !StopsAt(f, a0, b0, tol, j)
  }

  /** A pass that computes the midpoint and does not stop keeps the run
      unstopped. */
  lemma UnstoppedExtend(f: real -> real, a0: real, b0: real, tol: real, tr: seq<real>, p: real)
    requires Unstopped(f, a0, b0, tol, tr)
    requires p == Mid(BracketAt(f, a0, b0, |tr|)) && !StopsAt(f, a0, b0, tol, |tr|)
    ensures Unstopped(f, a0, b0, tol, tr + [p])
  {
    var tr' := tr + [p];
    forall j | 0 <= j < |tr'|
      ensures MidpointAt(f, a0, b0, tr', j) && !StopsAt(f, a0, b0, tol, j)
    {
      if j < |tr| {
        assert MidpointAt(f, a0, b0, tr, j);
      }
    }
  }

  /** A pass within the cap that computes the midpoint and meets the stopping
      test ends the run as Converged, reporting the pass count. */
  lemma ConvergedRun(f: real -> real, a0: real, b0: real, n: int, tol: real, tr: seq<real>, p: real)
    requires Unstopped(f, a0, b0, tol, tr) && |tr| < n
    requires p == Mid(BracketAt(f, a0, b0, |tr|)) && StopsAt(f, a0, b0, tol, |tr|)
    ensures BisectionRun(f, a0, b0, n, tol, tr + [p], Converged(p, |tr| + 1))
  {
    var tr' := tr + [p];
    forall j | 0 <= j < |tr'|
      ensures MidpointAt(f, a0, b0, tr', j)
    {
      if j < |tr| {
        assert MidpointAt(f, a0, b0, tr, j);
      }
    }
  }

  /** An unstopped run of `n` passes ends with the exhaustion report, which
      names an unbound `p` when no pass ran. */
  lemma ExhaustedRun(f: real -> real, a0: real, b0: real, n: int, tol: real, tr: seq<real>)
    requires Unstopped(f, a0, b0, tol, tr) && |tr| == Cap(n)
    ensures BisectionRun(f, a0, b0, n, tol, tr,
                         if |tr| == 0 then UndefinedReport else Exhausted(tr[|tr| - 1]))
  {
  }

  /** A bisection run is determined by its inputs: the same function,
      endpoints, cap and tolerance give the same trace and the same outcome. */
  lemma BisectionRunIsDeterministic(f: real -> real, a0: real, b0: real, n: int, tol: real,
                                    tr1: seq<real>, out1: Outcome, tr2: seq<real>, out2: Outcome)
    requires BisectionRun(f, a0, b0, n, tol, tr1, out1)
    requires BisectionRun(f, a0, b0, n, tol, tr2, out2)
    ensures tr1 == tr2 && out1 == out2
  {
    if |tr1| <= |tr2| {
      ShorterRunIsSame(f, a0, b0, n, tol, tr1, out1, tr2, out2);
    } else {
      ShorterRunIsSame(f, a0, b0, n, tol, tr2, out2, tr1, out1);
    }
  }

  lemma ShorterRunIsSame(f: real -> real, a0: real, b0: real, n: int, tol: real,
                         tr1: seq<real>, out1: Outcome, tr2: seq<real>, out2: Outcome)
    requires BisectionRun(f, a0, b0, n, tol, tr1, out1)
    requires BisectionRun(f, a0, b0, n, tol, tr2, out2)
    requires |tr1| <= |tr2|
    ensures tr1 == tr2 && out1 == out2
  {
    var k := |tr1|;
    forall j | 0 <= j < k
      ensures tr1[j] == tr2[j]
    {
      assert MidpointAt(f, a0, b0, tr1, j) && MidpointAt(f, a0, b0, tr2, j);
    }
    if k < |tr2| {
      assert false;
    }
    assert tr1 == tr2;
  }
}
