/** The search interval of the shape-factor solver: two bounds on the shape
    factor k together with the estimator values cached for them, and the
    facts about signs and widths that the solver relies on.

    Python floats are modelled as mathematical reals: nothing here says
    anything about rounding. */
module Brackets {

  /** Python's `abs` on a float. */
  function Abs(x: real): (r: real)
    ensures r >= 0.0
    ensures r == x || r == -x
  {
    if x < 0.0 then -x else x
  }

  /** 2 to the power j, as a real. */
  function Pow2(j: nat): (p: real)
    ensures p >= 1.0
  {
    if j == 0 then 1.0 else 2.0 * Pow2(j - 1)
  }

  /** The loop state of `bisection`: the bounds `kmin`, `kmax` and the
      estimator values `fkmin`, `fkmax` the loop carries along with them. */
  datatype Bracket = Bracket(kmin: real, kmax: real, fkmin: real, fkmax: real)

  /** The candidate the loop probes next. */
  function Mid(b: Bracket): real {
    (b.kmin + b.kmax) / 2.0
  }

  function Width(b: Bracket): real {
    b.kmax - b.kmin
  }

  /** The secant slope `fkk` computed from the cached end values. */
  function Slope(b: Bracket): real
    requires Width(b) != 0.0
  {
    (b.fkmax - b.fkmin) / (b.kmax - b.kmin)
  }

  /** The slope of the chord of f between lo and hi. */
  function ChordSlope(f: real -> real, lo: real, hi: real): real
    requires lo != hi
  {
    (f(hi) - f(lo)) / (hi - lo)
  }

  /** The cached values are the estimator's values at the bounds. */
  predicate Cached(f: real -> real, b: Bracket) {
    b.fkmin == f(b.kmin) && b.fkmax == f(b.kmax)
  }

  /** The negation of the abort test: the cached values do not have the
      same strict sign. */
  predicate SignChange(b: Bracket) {
    b.fkmin * b.fkmax <= 0.0
  }

  /** `b` is a proper interval lying within [lo, hi]. */
  predicate Inside(b: Bracket, lo: real, hi: real) {
    lo <= b.kmin < b.kmax <= hi
  }

  /** Under a sign change, equal cached values are both zero: this is the
      only way the secant slope of a proper bracket can vanish. */
  lemma SignChangeEqualValues(b: Bracket)
    requires SignChange(b)
    requires b.fkmin == b.fkmax
    ensures b.fkmin == 0.0 && b.fkmax == 0.0
  {
    if b.fkmin != 0.0 {
      SquarePositive(b.fkmin);
    }
  }

  lemma SquarePositive(x: real)
    requires x != 0.0
    ensures x * x > 0.0
  {
    if x < 0.0 {
      assert x * x == (-x) * (-x);
    }
  }

  /** If a and b share a strict sign and b, c do not, then a, c do not
      either: the fact that keeps the sign change when the lower bound
      moves up. */
  lemma SignTransfer(a: real, b: real, c: real)
    requires a * b > 0.0
    requires b * c <= 0.0
    ensures a * c <= 0.0
    ensures a != 0.0
  {
    if b > 0.0 {
      assert a > 0.0;
      assert c <= 0.0;
    } else {
      assert a < 0.0;
      assert c >= 0.0;
    }
  }

  /** Moving the lower bound to a point whose value shares the strict sign
      of `fkmin` keeps the sign change; the new lower value is non-zero and
      differs from `fkmax`. */
  lemma RaiseLowerBound(b: Bracket, fk: real)
    requires fk * b.fkmin > 0.0
    ensures SignChange(b) ==> fk * b.fkmax <= 0.0 && fk != 0.0 && fk != b.fkmax
  {
    if SignChange(b) {
      SignTransfer(fk, b.fkmin, b.fkmax);
      SquarePositive(fk);
    }
  }

  /** A quotient vanishes exactly when its numerator does. */
  lemma ZeroQuotient(a: real, w: real)
    requires w != 0.0
    ensures a / w == 0.0 <==> a == 0.0
  {
    if a / w == 0.0 {
      assert a == (a / w) * w;
    }
  }

  /** Halving w / 2^j gives w / 2^(j+1). */
  lemma HalfOverPow2(w: real, j: nat)
    ensures (w / Pow2(j)) / 2.0 == w / Pow2(j + 1)
  {
    var p := Pow2(j);
    assert Pow2(j + 1) == 2.0 * p;
    var q := w / p;
    assert q * p == w;
    assert (q / 2.0) * (2.0 * p) == w;
  }
}
