/** The branch of `bisection` taken when `fk * fkmin == 0` (find_weibull.py
    lines 57-58) is meant to return an exact root.  With a non-negative
    tolerance it is reached only when fk is NOT zero (otherwise the step
    test |fk / fkk| <= eps would already have stopped the loop), so the
    product vanishes only because fkmin does: the lower bound ikmin is the
    root, and the midpoint returned is not a root at all.

    `ReturnMidpoint` is the code as written; `ReturnZeroPoint` returns the
    point whose value is 0, and every root it returns is either exact or
    passes the step test. */
module ExactRoot {
  import opened Brackets
  import opened Secant
  import opened Guarantees
  import FindWeibull

  /** Under eps >= 0, a step that takes the zero-product branch has a zero
      lower value and a non-zero value at the midpoint. */
  lemma ZeroProductNeedsZeroLowerValue(v: OnZeroProduct, f: real -> real, eps: real, b: Bracket)
    requires eps >= 0.0
    requires Step(v, f, eps, b).ExactProduct?
    ensures b.fkmin == 0.0 && f(Mid(b)) != 0.0
  {
    StopTests(v, f, eps, b);
  }

  /** As written, under eps >= 0, a root returned from the zero-product
      branch is the first midpoint, ikmin is the actual root, and the value
      returned is not a root. */
  lemma AsWrittenZeroProductMissesRoot(f: real -> real, ikmin: real, ikmax: real, eps: real, iter: int)
    requires eps >= 0.0
    ensures var r := Solve(ReturnMidpoint, f, ikmin, ikmax, eps, iter);
            var c := Final(ReturnMidpoint, f, ikmin, ikmax, eps, r);
            r.outcome.Root? && c.Some? && Step(ReturnMidpoint, f, eps, c.value).ExactProduct? ==>
              && |r.probes| == 3
              && f(ikmin) == 0.0
              && r.outcome.k == (ikmin + ikmax) / 2.0
              && f(r.outcome.k) != 0.0
  {
    var r := Solve(ReturnMidpoint, f, ikmin, ikmax, eps, iter);
    var c := Final(ReturnMidpoint, f, ikmin, ikmax, eps, r);
    if r.outcome.Root? && c.Some? && Step(ReturnMidpoint, f, eps, c.value).ExactProduct? {
      FinalBracket(ReturnMidpoint, f, ikmin, ikmax, eps, iter);
      ZeroProductNeedsZeroLowerValue(ReturnMidpoint, f, eps, c.value);
    }
  }

  /** An estimator whose root is the lower end of the program's range. */
  function Shifted(k: real): real {
    k - 1.0
  }

  /** With the program's own range, accuracy and budget, the code as
      written returns 4.5, where the estimator is 3.5 and the estimated
      Newton step is 3.5, far above the accuracy. */
  lemma AsWrittenReturnsNonRoot()
    ensures Solve(ReturnMidpoint, Shifted, FindWeibull.KMin, FindWeibull.KMax,
                  FindWeibull.Accuracy, FindWeibull.Iterations)
            == Run(Root(4.5), [1.0, 8.0, 4.5])
    ensures Shifted(4.5) == 3.5
    ensures Abs(Shifted(4.5) / ChordSlope(Shifted, 1.0, 8.0)) > FindWeibull.Accuracy
  {
    var b := Start(Shifted, 1.0, 8.0);
    assert Step(ReturnMidpoint, Shifted, 0.000001, b) == ExactProduct(4.5);
  }

  /** On the same input the corrected branch returns the root 1.0. */
  lemma CorrectedReturnsRoot()
    ensures Solve(ReturnZeroPoint, Shifted, FindWeibull.KMin, FindWeibull.KMax,
                  FindWeibull.Accuracy, FindWeibull.Iterations)
            == Run(Root(1.0), [1.0, 8.0, 4.5])
    ensures Shifted(1.0) == 0.0
  {
    var b := Start(Shifted, 1.0, 8.0);
    assert Step(ReturnZeroPoint, Shifted, 0.000001, b) == ExactProduct(1.0);
  }

  /** With the correction, every root returned is exact or is the midpoint
      of the final bracket where the estimated Newton step, with the chord
      slope of f over that bracket, is at most eps. */
  lemma CorrectedRootSound(f: real -> real, ikmin: real, ikmax: real, eps: real, iter: int)
    ensures var r := Solve(ReturnZeroPoint, f, ikmin, ikmax, eps, iter);
            var c := Final(ReturnZeroPoint, f, ikmin, ikmax, eps, r);
            r.outcome.Root? ==>
              || f(r.outcome.k) == 0.0
              || (&& c.Some?
                  && r.outcome.k == Mid(c.value)
                  && c.value.kmin != c.value.kmax
                  && ChordSlope(f, c.value.kmin, c.value.kmax) != 0.0
                  && Abs(f(r.outcome.k) / ChordSlope(f, c.value.kmin, c.value.kmax)) <= eps)
  {
    var r := Solve(ReturnZeroPoint, f, ikmin, ikmax, eps, iter);
    if r.outcome.Root? {
      FinalBracket(ReturnZeroPoint, f, ikmin, ikmax, eps, iter);
      var c := Final(ReturnZeroPoint, f, ikmin, ikmax, eps, r).value;
      assert Slope(c) == ChordSlope(f, c.kmin, c.kmax);
    }
  }
}
