/** Aitken's delta-squared method as the two revisions write it: a first loop
    fills a buffer of `n + 2` fixed-point iterates, a second loop forms up to
    `n` accelerated values from consecutive triples, stopping early only where
    a triple's second difference is zero. The revisions differ in the first
    element of the first triple, so it is a parameter `first` here. */
module Acceleration {
  import opened Outcomes
  import opened Formulas
  import opened Iteration

  /** The last accelerated value, or `first` when there is none. */
  function LastOr(first: real, acc: seq<real>): real
  {
    if |acc| == 0 then first else acc[|acc| - 1]
  }

  /** The buffer holds the iterates of `f` from `x0`: element `k` is `f`
      applied `k + 1` times. */
  ghost predicate IsOrbit(f: real -> real, x0: real, base: seq<real>)
  {
    forall k :: 0 <= k < |base| ==> base[k] == Iterate(f, x0, k + 1)
  }

  /** Accelerated value `j` comes from the triple `Prev(first, base, j)`,
      `base[j]`, `base[j + 1]`, whose second difference is not zero: `first`
      opens the first triple, then the buffer element before the middle one. */
  ghost predicate AcceleratedPass(first: real, base: seq<real>, acc: seq<real>, j: nat)
    requires j < |acc| && j + 1 < |base|
  {
    var p0 := Prev(first, base, j);
    Denominator(p0, base[j], base[j + 1]) != 0.0 && acc[j] == Accelerate(p0, base[j], base[j + 1])
  }

  /** A complete Aitken run with count `n`: the buffer has `n + 2` iterates
      (none when that is negative), every accelerated value comes from its
      triple, and the run ends either after `n` values or at the first triple
      with a zero second difference, which is reported as `UndefinedReport`
      when `undefinedReport` holds and with the last value otherwise. */
  ghost predicate AitkenRun(f: real -> real, x0: real, n: int, first: real, undefinedReport: bool,
                            base: seq<real>, acc: seq<real>, out: Outcome)
  {
    && |base| == Cap(n + 2)
    && IsOrbit(f, x0, base)
    && |acc| <= Cap(n)
    && (forall j :: 0 <= j < |acc| ==> AcceleratedPass(first, base, acc, j))
    && if |acc| < n then
         && Denominator(Prev(first, base, |acc|), base[|acc|], base[|acc| + 1]) == 0.0
         && out == (if undefinedReport then UndefinedReport else ZeroDenominator(LastOr(first, acc)))
       else
         out == Exhausted(LastOr(first, acc))
  }

  /** Consecutive buffer elements are linked by `f`, starting from `x0`. */
  lemma {:induction false} OrbitSteps(f: real -> real, x0: real, base: seq<real>, j: nat)
    requires IsOrbit(f, x0, base) && j < |base|
    ensures base[j] == f(Prev(x0, base, j))
  {
    assert base[j] == Iterate(f, x0, j + 1);
    if j > 0 {
      assert base[j - 1] == Iterate(f, x0, j);
    } else {
      assert Iterate(f, x0, 0) == x0;
    }
  }

  /** Steffensen's first pass from `p0` is the first accelerated value of the
      Aitken run from the same `p0` (with `first == p0`, as in the revision that
      keeps `p0`): both block, or both produce the same value. */
  lemma SteffensenStartsAsAitken(f: real -> real, x0: real, n: int, base: seq<real>, acc: seq<real>,
                                 out: Outcome)
    requires AitkenRun(f, x0, n, x0, true, base, acc, out) && n >= 1
    ensures SteffensenMap(f)(x0) == (if |acc| == 0 then Blocked else Next(acc[0]))
  {
    OrbitSteps(f, x0, base, 0);
    OrbitSteps(f, x0, base, 1);
    if |acc| > 0 {
      assert AcceleratedPass(x0, base, acc, 0);
    }
  }

  /** On an affine map, triple `j` of a run starting at `x0` is
      `x`, `c*x + d`, `c*(c*x + d) + d` for `x = Prev(x0, base, j)`. */
  lemma AffineTriple(f: real -> real, c: real, d: real, x0: real, base: seq<real>, j: nat)
    requires forall x :: f(x) == c * x + d
    requires IsOrbit(f, x0, base) && j + 1 < |base|
    ensures base[j] == c * Prev(x0, base, j) + d && base[j + 1] == c * base[j] + d
  {
    OrbitSteps(f, x0, base, j);
    OrbitSteps(f, x0, base, j + 1);
    assert Prev(x0, base, j + 1) == base[j];
  }

  /** On an affine map, an accelerated value formed from the run's triple is
      the fixed point. */
  lemma AffineValue(f: real -> real, c: real, d: real, x0: real, base: seq<real>, acc: seq<real>, j: nat)
    requires forall x :: f(x) == c * x + d
    requires IsOrbit(f, x0, base) && j < |acc| && j + 1 < |base|
    requires AcceleratedPass(x0, base, acc, j)
    ensures IsAffineFixedPoint(c, d, acc[j])
  {
    AffineTriple(f, c, d, x0, base, j);
    AccelerateAffineIsExact(c, d, Prev(x0, base, j), base[j], base[j + 1]);
  }

  /** On an affine map, a triple of the run with a zero second difference has
      `c == 1` or starts at the fixed point. */
  lemma AffineBlocked(f: real -> real, c: real, d: real, x0: real, base: seq<real>, j: nat)
    requires forall x :: f(x) == c * x + d
    requires IsOrbit(f, x0, base) && j + 1 < |base|
    requires Denominator(Prev(x0, base, j), base[j], base[j + 1]) == 0.0
    ensures c == 1.0 || c * Prev(x0, base, j) + d == Prev(x0, base, j)
  {
    AffineTriple(f, c, d, x0, base, j);
    AccelerateAffineIsExact(c, d, Prev(x0, base, j), base[j], base[j + 1]);
  }

  /** On an affine map `x -> c*x + d` the Aitken run whose first triple starts
      at `x0` produces the fixed point `d / (1 - c)` at every value it forms. */
  lemma AitkenExactOnAffine(f: real -> real, c: real, d: real, x0: real, n: int,
                            base: seq<real>, acc: seq<real>, out: Outcome)
    requires forall x :: f(x) == c * x + d
    requires AitkenRun(f, x0, n, x0, true, base, acc, out)
    ensures forall j :: 0 <= j < |acc| ==> IsAffineFixedPoint(c, d, acc[j])
  {
    forall j | 0 <= j < |acc|
      ensures IsAffineFixedPoint(c, d, acc[j])
    {
      assert j + 1 < |base|;
      assert AcceleratedPass(x0, base, acc, j);
      AffineValue(f, c, d, x0, base, acc, j);
    }
  }

  /** On an affine map the same run stops before its `n` values only when
      `c == 1` or the triple it stopped at starts at the fixed point. */
  lemma AitkenStopsOnAffineAtFixedPoint(f: real -> real, c: real, d: real, x0: real, n: int,
                                        base: seq<real>, acc: seq<real>, out: Outcome)
    requires forall x :: f(x) == c * x + d
    requires AitkenRun(f, x0, n, x0, true, base, acc, out)
    requires |acc| < n
    ensures c == 1.0 || c * Prev(x0, base, |acc|) + d == Prev(x0, base, |acc|)
  {
    AffineBlocked(f, c, d, x0, base, |acc|);
  }

  /** The revision that overwrites `p0` starts its first triple at the last
      buffer element instead. For `f(x) = x/2.0` from `1.0` with `n = 1` that gives
      `7/20`, while the fixed point is `0`. */
  lemma OverwrittenStartMissesFixedPoint(base: seq<real>, acc: seq<real>, out: Outcome)
    requires AitkenRun(x => x / 2.0, 1.0, 1, Iterate(x => x / 2.0, 1.0, 3), false, base, acc, out)
    ensures acc == [7.0 / 20.0] && out == Exhausted(7.0 / 20.0)
  {
    var f := (x: real) => x / 2.0;
    assert Iterate(f, 1.0, 1) == 0.5;
    assert Iterate(f, 1.0, 2) == 0.25;
    assert Iterate(f, 1.0, 3) == 0.125;
    assert base[0] == 0.5 && base[1] == 0.25;
    assert Denominator(0.125, 0.5, 0.25) == -0.625;
    if |acc| == 0 {
      assert false;
    }
    assert AcceleratedPass(0.125, base, acc, 0);
  }

  /** Appending the accelerated value of the next triple keeps every value
      accelerated from its triple. */
  lemma AcceleratedExtend(first: real, base: seq<real>, acc: seq<real>, pn: real)
    requires |acc| + 2 <= |base|
    requires forall j :: 0 <= j < |acc| ==> AcceleratedPass(first, base, acc, j)
    requires var p0 := Prev(first, base, |acc|);
      Denominator(p0, base[|acc|], base[|acc| + 1]) != 0.0 && pn == Accelerate(p0, base[|acc|], base[|acc| + 1])
    ensures forall j :: 0 <= j < |acc| + 1 ==> AcceleratedPass(first, base, acc + [pn], j)
    ensures Prev(first, base, |acc| + 1) == base[|acc|] && LastOr(first, acc + [pn]) == pn
  {
    var acc' := acc + [pn];
    forall j | 0 <= j < |acc'|
      ensures AcceleratedPass(first, base, acc', j)
    {
      if j < |acc| {
        assert AcceleratedPass(first, base, acc, j);
      }
    }
  }

  /** The values formed so far, each from its triple of a buffer long enough
      for the next triple. */
  ghost predicate Accelerated(first: real, base: seq<real>, acc: seq<real>)
  {
    && |acc| + 1 < |base|
    && forall j :: 0 <= j < |acc| ==> AcceleratedPass(first, base, acc, j)
  }

  /** A run that meets a zero second difference before its `n` values ends
      with the zero-denominator report. */
  lemma StoppedRun(f: real -> real, x0: real, n: int, first: real, undefinedReport: bool,
                   base: seq<real>, acc: seq<real>)
    requires |base| == Cap(n + 2) && IsOrbit(f, x0, base)
    requires |acc| < n && Accelerated(first, base, acc)
    requires Denominator(Prev(first, base, |acc|), base[|acc|], base[|acc| + 1]) == 0.0
    ensures AitkenRun(f, x0, n, first, undefinedReport, base, acc,
                      if undefinedReport then UndefinedReport else ZeroDenominator(LastOr(first, acc)))
  {
  }

  /** A run that formed its `n` values ends with the last of them. */
  lemma FinishedRun(f: real -> real, x0: real, n: int, first: real, undefinedReport: bool,
                    base: seq<real>, acc: seq<real>)
    requires |base| == Cap(n + 2) && IsOrbit(f, x0, base)
    requires |acc| == Cap(n) && forall j :: 0 <= j < |acc| ==> AcceleratedPass(first, base, acc, j)
    ensures AitkenRun(f, x0, n, first, undefinedReport, base, acc, Exhausted(LastOr(first, acc)))
  {
  }

  /** An Aitken run is determined by its inputs: the same function, start,
      count and first triple give the same buffer, values and outcome. */
  lemma AitkenRunIsDeterministic(f: real -> real, x0: real, n: int, first: real, undefinedReport: bool,
                                 base1: seq<real>, acc1: seq<real>, out1: Outcome,
                                 base2: seq<real>, acc2: seq<real>, out2: Outcome)
    requires AitkenRun(f, x0, n, first, undefinedReport, base1, acc1, out1)
    requires AitkenRun(f, x0, n, first, undefinedReport, base2, acc2, out2)
    ensures base1 == base2 && acc1 == acc2 && out1 == out2
  {
    forall k | 0 <= k < |base1|
      ensures base1[k] == base2[k]
    {
      assert base1[k] == Iterate(f, x0, k + 1) == base2[k];
    }
    assert base1 == base2;
    if |acc1| <= |acc2| {
      ShorterValuesAreSame(f, x0, n, first, undefinedReport, base1, acc1, out1, acc2, out2);
    } else {
      ShorterValuesAreSame(f, x0, n, first, undefinedReport, base1, acc2, out2, acc1, out1);
    }
  }

  lemma ShorterValuesAreSame(f: real -> real, x0: real, n: int, first: real, undefinedReport: bool,
                             base: seq<real>, acc1: seq<real>, out1: Outcome, acc2: seq<real>, out2: Outcome)
    requires AitkenRun(f, x0, n, first, undefinedReport, base, acc1, out1)
    requires AitkenRun(f, x0, n, first, undefinedReport, base, acc2, out2)
    requires |acc1| <= |acc2|
    ensures acc1 == acc2 && out1 == out2
  {
    var k := |acc1|;
    forall j | 0 <= j < k
      ensures acc1[j] == acc2[j]
    {
      assert AcceleratedPass(first, base, acc1, j) && AcceleratedPass(first, base, acc2, j);
    }
    assert k < |acc2| ==> AcceleratedPass(first, base, acc2, k);
    assert acc1 == acc2;
  }
}
