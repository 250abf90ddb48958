/** The two-point loops: secant and regula falsi. Both keep a window
    `(p0, q0)`, `(p1, q1)`, compute `p = p1 - q1*(p1 - p0)/(q1 - q0)` with no
    guard on the divisor, test `abs(p - p1) < tol`, and then move the window;
    they differ only in how the window moves. */
module TwoPoint {
  import opened Outcomes
  import opened Formulas

  datatype Window = Window(p0: real, q0: real, p1: real, q1: real)

  /** How the window moves: the secant method always shifts it, regula falsi
      shifts it only on a sign change. */
  datatype Rule = AlwaysShift | ShiftOnSignChange

  function Start(f: real -> real, x0: real, x1: real): Window
  {
    Window(x0, f(x0), x1, f(x1))
  }

  /** The point a pass computes from its window. */
  function Point(w: Window): real
    requires w.q1 != w.q0
  {
    SecantPoint(w.p0, w.q0, w.p1, w.q1)
  }

  /** The window after a pass that computed `p` and did not stop. Secant always
      shifts: `(p0, q0) = (p1, q1)`, `(p1, q1) = (p, f(p))`. Regula falsi shifts
      the old `(p1, q1)` down only when `f(p)*q1 < 0`, and otherwise keeps
      `(p0, q0)`; in both cases `(p1, q1)` becomes `(p, f(p))`. */
  function Advance(f: real -> real, rule: Rule, w: Window, p: real): Window
  {
    var q := f(p);
    if rule == AlwaysShift || q * w.q1 < 0.0 then Window(w.p1, w.q1, p, q)
    else Window(w.p0, w.q0, p, q)
  }

  /** The window pass `j` (counted from 0) starts from, given the points the
      passes before it computed. */
  function Windows(f: real -> real, rule: Rule, x0: real, x1: real, tr: seq<real>, j: nat): Window
    requires j <= |tr|
  {
    if j == 0 then Start(f, x0, x1)
    else Advance(f, rule, Windows(f, rule, x0, x1, tr, j - 1), tr[j - 1])
  }

  /** The window's stored values are `f` at its points. */
  predicate Tracks(f: real -> real, w: Window)
  {
    w.q0 == f(w.p0) && w.q1 == f(w.p1)
  }

  /** The window brackets a zero: `q0` is not zero and `q1` is zero or of
      the other sign. */
  predicate Brackets(w: Window)
  {
    (w.q0 > 0.0 && w.q1 <= 0.0) || (w.q0 < 0.0 && w.q1 >= 0.0)
  }

  /** Pass `j` divided by a nonzero `q1 - q0` and computed the chord zero of
      its window. */
  ghost predicate ChordPass(f: real -> real, rule: Rule, x0: real, x1: real, tr: seq<real>, j: nat)
    requires j < |tr|
  {
    var w := Windows(f, rule, x0, x1, tr, j);
    w.q1 != w.q0 && tr[j] == Point(w)
  }

  /** Pass `j` meets the stopping test `abs(p - p1) < tol` against its window. */
  ghost predicate Meets(f: real -> real, rule: Rule, x0: real, x1: real, tol: real, tr: seq<real>, j: nat)
    requires j < |tr|
  {
    Close(tr[j], Windows(f, rule, x0, x1, tr, j).p1, tol)
  }

  /** A complete run with cap `n`: the counter starts at 2, so at most `n - 1`
      passes run. Each trace element is the point of its pass's window, whose
      divisor is not zero; no pass but the last meets the stopping test; and
      the outcome is Converged at the first pass that meets it, reporting the
      counter plus one, otherwise the zero divisor met before the cap,
      otherwise the exhaustion report (`badFormat` selects the one that raises;
      otherwise, with no pass run, the report names an unbound `p`). */
  ghost predicate TwoPointRun(f: real -> real, rule: Rule, x0: real, x1: real, n: int, tol: real,
                              badFormat: bool, tr: seq<real>, out: Outcome)
  {
    && |tr| <= Cap(n - 1)
    && (forall j :: 0 <= j < |tr| ==> ChordPass(f, rule, x0, x1, tr, j))
    && (forall j :: 0 <= j < |tr| - 1 ==> !Meets(f, rule, x0, x1, tol, tr, j))
    && var last := Windows(f, rule, x0, x1, tr, |tr|);
       if |tr| > 0 && Meets(f, rule, x0, x1, tol, tr, |tr| - 1) then
         out == Converged(tr[|tr| - 1], |tr| + 2)
       else if |tr| < n - 1 then
         last.q1 == last.q0 && out == DivisionByZero
       else if badFormat then
         out == FormatError
       else
         out == (if |tr| == 0 then UndefinedReport else Exhausted(tr[|tr| - 1]))
  }

  /** Windows depend only on the points computed before them. */
  lemma {:induction false} WindowsExtend(f: real -> real, rule: Rule, x0: real, x1: real,
                                         tr: seq<real>, p: real, j: nat)
    requires j <= |tr|
    ensures Windows(f, rule, x0, x1, tr + [p], j) == Windows(f, rule, x0, x1, tr, j)
  {
    if j > 0 {
      WindowsExtend(f, rule, x0, x1, tr, p, j - 1);
      assert (tr + [p])[j - 1] == tr[j - 1];
    }
  }

  /** Whatever the rule, the stored `q0`, `q1` are `f(p0)`, `f(p1)`. */
  lemma {:induction false} WindowsTrack(f: real -> real, rule: Rule, x0: real, x1: real,
                                        tr: seq<real>, j: nat)
    requires j <= |tr|
    ensures Tracks(f, Windows(f, rule, x0, x1, tr, j))
  {
    if j > 0 {
      WindowsTrack(f, rule, x0, x1, tr, j - 1);
    }
  }

  /** When `q1` is zero the chord meets zero at `p1` itself. */
  lemma PointAtZero(w: Window)
    requires w.q1 != w.q0
    ensures w.q1 == 0.0 ==> Point(w) == w.p1
  {
  }

  /** One regula falsi pass keeps a bracketing window bracketing, given only
      that a zero `q1` makes the new point `p1`. */
  lemma RegulaFalsiStepKeepsBracket(f: real -> real, w: Window, p: real)
    requires Tracks(f, w) && Brackets(w)
    requires w.q1 == 0.0 ==> p == w.p1
    ensures Brackets(Advance(f, ShiftOnSignChange, w, p))
  {
    ProductSigns(f(p), w.q1);
  }

  /** Regula falsi from a strict sign change: as long as each point is the
      window's chord zero, every window brackets a zero. */
  lemma {:induction false} RegulaFalsiKeepsBracket(f: real -> real, x0: real, x1: real,
                                                   tr: seq<real>, k: nat)
    requires Brackets(Start(f, x0, x1))
    requires k <= |tr|
    requires forall j :: 0 <= j < k ==> ChordPass(f, ShiftOnSignChange, x0, x1, tr, j)
    ensures Brackets(Windows(f, ShiftOnSignChange, x0, x1, tr, k))
  {
    if k > 0 {
      RegulaFalsiKeepsBracket(f, x0, x1, tr, k - 1);
      WindowsTrack(f, ShiftOnSignChange, x0, x1, tr, k - 1);
      var w := Windows(f, ShiftOnSignChange, x0, x1, tr, k - 1);
      assert ChordPass(f, ShiftOnSignChange, x0, x1, tr, k - 1);
      PointAtZero(w);
      RegulaFalsiStepKeepsBracket(f, w, tr[k - 1]);
      assert Windows(f, ShiftOnSignChange, x0, x1, tr, k) == Advance(f, ShiftOnSignChange, w, tr[k - 1]);
    }
  }

  /** `p` lies between `a` and `b`, in either order. */
  predicate Between(a: real, p: real, b: real)
  {
    (a <= b ==> a <= p <= b) && (b <= a ==> b <= p <= a)
  }

  /** A bracketing window has a nonzero divisor, and its chord zero lies
      between its two points. */
  lemma BracketedPointBetween(w: Window)
    requires Brackets(w)
    ensures w.q1 != w.q0 && Between(w.p0, Point(w), w.p1)
  {
    ProductSigns(w.q0, w.q1);
    SecantPointBetween(w.p0, w.q0, w.p1, w.q1);
  }

  /** Pass `j` of a regula falsi run started from a bracketing window, with the
      window it started from. */
  ghost predicate BracketedPass(f: real -> real, x0: real, x1: real, tr: seq<real>, j: nat)
    requires j < |tr|
  {
    var w := Windows(f, ShiftOnSignChange, x0, x1, tr, j);
    Brackets(w) && Between(w.p0, tr[j], w.p1)
  }

  /** A regula falsi run from a strict sign change `f(x0)*f(x1) < 0` never
      divides by zero, every window it passes through brackets a zero, and
      every point it computes lies between the two points of its window. */
  lemma RegulaFalsiRunIsSafe(f: real -> real, x0: real, x1: real, n: int, tol: real, badFormat: bool,
                             tr: seq<real>, out: Outcome)
    requires TwoPointRun(f, ShiftOnSignChange, x0, x1, n, tol, badFormat, tr, out)
    requires f(x0) * f(x1) < 0.0
    ensures out != DivisionByZero
    ensures forall j :: 0 <= j < |tr| ==> BracketedPass(f, x0, x1, tr, j)
  {
    ProductSigns(f(x0), f(x1));
    assert Brackets(Start(f, x0, x1));
    RegulaFalsiKeepsBracket(f, x0, x1, tr, |tr|);
    forall j | 0 <= j < |tr|
      ensures BracketedPass(f, x0, x1, tr, j)
    {
      RegulaFalsiKeepsBracket(f, x0, x1, tr, j);
      var w := Windows(f, ShiftOnSignChange, x0, x1, tr, j);
      BracketedPointBetween(w);
      assert ChordPass(f, ShiftOnSignChange, x0, x1, tr, j);
    }
  }

  /** The secant window before pass `j` holds the two most recent points and
      their values: the start pair, then `x1` and the first point, then the
      last two points computed. */
  lemma {:induction false} SecantWindowIsLastTwo(f: real -> real, x0: real, x1: real, tr: seq<real>, j: nat)
    requires j <= |tr|
    ensures var w := Windows(f, AlwaysShift, x0, x1, tr, j);
      && (j == 0 ==> w == Window(x0, f(x0), x1, f(x1)))
      && (j == 1 ==> w == Window(x1, f(x1), tr[0], f(tr[0])))
      && (j >= 2 ==> w == Window(tr[j - 2], f(tr[j - 2]), tr[j - 1], f(tr[j - 1])))
  {
    if j >= 2 {
      WindowsTrack(f, AlwaysShift, x0, x1, tr, j - 1);
      SecantWindowIsLastTwo(f, x0, x1, tr, j - 1);
    }
  }

  /** Appending a point leaves the stopping test of every earlier pass as it was. */
  lemma MeetsExtend(f: real -> real, rule: Rule, x0: real, x1: real, tol: real, tr: seq<real>, p: real, j: nat)
    requires j < |tr|
    ensures Meets(f, rule, x0, x1, tol, tr + [p], j) == Meets(f, rule, x0, x1, tol, tr, j)
  {
    WindowsExtend(f, rule, x0, x1, tr, p, j);
  }

  /** Appending the chord zero of the current window keeps every pass a chord
      pass and moves the window by one `Advance`. */
  lemma ChordsExtend(f: real -> real, rule: Rule, x0: real, x1: real, tr: seq<real>, p: real)
    requires forall j :: 0 <= j < |tr| ==> ChordPass(f, rule, x0, x1, tr, j)
    requires var w := Windows(f, rule, x0, x1, tr, |tr|); w.q1 != w.q0 && p == Point(w)
    ensures forall j :: 0 <= j < |tr| + 1 ==> ChordPass(f, rule, x0, x1, tr + [p], j)
    ensures Windows(f, rule, x0, x1, tr + [p], |tr| + 1)
              == Advance(f, rule, Windows(f, rule, x0, x1, tr, |tr|), p)
  {
    WindowsExtend(f, rule, x0, x1, tr, p, |tr|);
    forall j | 0 <= j < |tr| + 1
      ensures ChordPass(f, rule, x0, x1, tr + [p], j)
    {
      WindowsExtend(f, rule, x0, x1, tr, p, j);
      if j < |tr| {
        assert ChordPass(f, rule, x0, x1, tr, j);
      }
    }
    assert (tr + [p])[|tr|] == p;
  }

  /** The passes of a two-point run that has not stopped yet. */
  ghost predicate Unstopped(f: real -> real, rule: Rule, x0: real, x1: real, tol: real, tr: seq<real>)
  {
    && (forall j :: 0 <= j < |tr| ==> ChordPass(f, rule, x0, x1, tr, j))
    && (forall j :: 0 <= j < |tr| ==> !Meets(f, rule, x0, x1, tol, tr, j))
  }

  /** A pass that computes the chord zero `p` and does not stop keeps the run
      unstopped and moves the window by one `Advance`. */
  lemma UnstoppedExtend(f: real -> real, rule: Rule, x0: real, x1: real, tol: real, tr: seq<real>, p: real)
    requires Unstopped(f, rule, x0, x1, tol, tr)
    requires var w := Windows(f, rule, x0, x1, tr, |tr|);
      w.q1 != w.q0 && p == Point(w) && !Close(p, w.p1, tol)
    ensures Unstopped(f, rule, x0, x1, tol, tr + [p])
    ensures Windows(f, rule, x0, x1, tr + [p], |tr| + 1)
              == Advance(f, rule, Windows(f, rule, x0, x1, tr, |tr|), p)
  {
    ChordsExtend(f, rule, x0, x1, tr, p);
    WindowsExtend(f, rule, x0, x1, tr, p, |tr|);
    var tr' := tr + [p];
    forall j | 0 <= j < |tr'|
      ensures !Meets(f, rule, x0, x1, tol, tr', j)
    {
      if j < |tr| {
        MeetsExtend(f, rule, x0, x1, tol, tr, p, j);
      }
    }
  }

  /** A pass within the cap that computes the chord zero and meets the
      stopping test ends the run as Converged, reporting the counter plus one. */
  lemma ConvergedRun(f: real -> real, rule: Rule, x0: real, x1: real, n: int, tol: real, badFormat: bool,
                     tr: seq<real>, p: real)
    requires Unstopped(f, rule, x0, x1, tol, tr) && |tr| < n - 1
    requires var w := Windows(f, rule, x0, x1, tr, |tr|);
      w.q1 != w.q0 && p == Point(w) && Close(p, w.p1, tol)
    ensures TwoPointRun(f, rule, x0, x1, n, tol, badFormat, tr + [p], Converged(p, |tr| + 3))
  {
    ChordsExtend(f, rule, x0, x1, tr, p);
    WindowsExtend(f, rule, x0, x1, tr, p, |tr|);
    var tr' := tr + [p];
    forall j | 0 <= j < |tr'| - 1
      ensures !Meets(f, rule, x0, x1, tol, tr', j)
    {
      MeetsExtend(f, rule, x0, x1, tol, tr, p, j);
    }
    assert Meets(f, rule, x0, x1, tol, tr', |tr|);
  }

  /** A pass within the cap whose divisor is zero ends the run with the
      escaping division error. */
  lemma BlockedRun(f: real -> real, rule: Rule, x0: real, x1: real, n: int, tol: real, badFormat: bool,
                   tr: seq<real>)
    requires Unstopped(f, rule, x0, x1, tol, tr) && |tr| < n - 1
    requires var w := Windows(f, rule, x0, x1, tr, |tr|); w.q1 == w.q0
    ensures TwoPointRun(f, rule, x0, x1, n, tol, badFormat, tr, DivisionByZero)
  {
  }

  /** An unstopped run that reached the cap ends with the exhaustion report,
      naming the last point, which the window holds as `p1`, or an unbound
      `p` when no pass ran. */
  lemma ExhaustedRun(f: real -> real, rule: Rule, x0: real, x1: real, n: int, tol: real, badFormat: bool,
                     tr: seq<real>)
    requires Unstopped(f, rule, x0, x1, tol, tr) && |tr| == Cap(n - 1)
    ensures |tr| > 0 ==> Windows(f, rule, x0, x1, tr, |tr|).p1 == tr[|tr| - 1]
    ensures TwoPointRun(f, rule, x0, x1, n, tol, badFormat, tr,
                        if badFormat then FormatError
                        else if |tr| == 0 then UndefinedReport
                        else Exhausted(Windows(f, rule, x0, x1, tr, |tr|).p1))
  {
  }

  /** Windows up to pass `k` depend only on the points before pass `k`. */
  lemma {:induction false} WindowsAgree(f: real -> real, rule: Rule, x0: real, x1: real,
                                        tr1: seq<real>, tr2: seq<real>, k: nat)
    requires k <= |tr1| && k <= |tr2|
    requires forall j :: 0 <= j < k ==> tr1[j] == tr2[j]
    ensures Windows(f, rule, x0, x1, tr1, k) == Windows(f, rule, x0, x1, tr2, k)
  {
    if k > 0 {
      WindowsAgree(f, rule, x0, x1, tr1, tr2, k - 1);
    }
  }

  /** Two traces of chord passes from the same start agree where both are defined. */
  lemma {:induction false} ChordsAgree(f: real -> real, rule: Rule, x0: real, x1: real,
                                       tr1: seq<real>, tr2: seq<real>, k: nat)
    requires k <= |tr1| && k <= |tr2|
    requires forall j :: 0 <= j < k ==> ChordPass(f, rule, x0, x1, tr1, j)
    requires forall j :: 0 <= j < k ==> ChordPass(f, rule, x0, x1, tr2, j)
    ensures forall j :: 0 <= j < k ==> tr1[j] == tr2[j]
  {
    if k > 0 {
      ChordsAgree(f, rule, x0, x1, tr1, tr2, k - 1);
      WindowsAgree(f, rule, x0, x1, tr1, tr2, k - 1);
      assert ChordPass(f, rule, x0, x1, tr1, k - 1) && ChordPass(f, rule, x0, x1, tr2, k - 1);
    }
  }

  /** A two-point run is determined by its inputs: the same function, rule,
      starts, cap and tolerance give the same trace and the same outcome. */
  lemma TwoPointRunIsDeterministic(f: real -> real, rule: Rule, x0: real, x1: real, n: int, tol: real,
                                   badFormat: bool, tr1: seq<real>, out1: Outcome, tr2: seq<real>, out2: Outcome)
    requires TwoPointRun(f, rule, x0, x1, n, tol, badFormat, tr1, out1)
    requires TwoPointRun(f, rule, x0, x1, n, tol, badFormat, tr2, out2)
    ensures tr1 == tr2 && out1 == out2
  {
    if |tr1| <= |tr2| {
      ShorterRunIsSame(f, rule, x0, x1, n, tol, badFormat, tr1, out1, tr2, out2);
    } else {
      ShorterRunIsSame(f, rule, x0, x1, n, tol, badFormat, tr2, out2, tr1, out1);
    }
  }

  lemma ShorterRunIsSame(f: real -> real, rule: Rule, x0: real, x1: real, n: int, tol: real,
                         badFormat: bool, tr1: seq<real>, out1: Outcome, tr2: seq<real>, out2: Outcome)
    requires TwoPointRun(f, rule, x0, x1, n, tol, badFormat, tr1, out1)
    requires TwoPointRun(f, rule, x0, x1, n, tol, badFormat, tr2, out2)
    requires |tr1| <= |tr2|
    ensures tr1 == tr2 && out1 == out2
  {
    var k := |tr1|;
    ChordsAgree(f, rule, x0, x1, tr1, tr2, k);
    WindowsAgree(f, rule, x0, x1, tr1, tr2, k);
    if k > 0 {
      WindowsAgree(f, rule, x0, x1, tr1, tr2, k - 1);
    }
    assert k < |tr2| ==> ChordPass(f, rule, x0, x1, tr2, k);
    assert 0 < k < |tr2| ==> !Meets(f, rule, x0, x1, tol, tr2, k - 1);
    assert tr1 == tr2;
  }
}
