/** A functional reference for the bisection/secant solver of find_weibull.py:
    one loop iteration is `Step`, the loop is `Iterate`, the whole procedure
    (abort test, loop, sentinel) is `Solve`.  The estimator is an arbitrary
    function `f` of the shape factor.

    `Run.probes` lists the points at which `f` was evaluated, in order: the
    two bounds first, then one midpoint per loop iteration. */
module Secant {
  import opened Brackets

  /** What `bisection` ends with. */
  datatype Outcome =
    | Root(k: real)   // a midpoint returned from inside the loop
    | NoSignChange    // both end values share a sign: the program exits
    | ZeroDivision    // Python raises ZeroDivisionError in the secant or the step test
    | Sentinel        // the iteration budget ran out: the value 0 is returned

  datatype Run = Run(outcome: Outcome, probes: seq<real>)

  /** How the branch taken when `fk * fkmin == 0` picks its answer:
      `ReturnMidpoint` is the code as written, `ReturnZeroPoint` returns
      the point whose estimator value is 0 (see module ExactRoot). */
  datatype OnZeroProduct = ReturnMidpoint | ReturnZeroPoint

  /** The result of one loop iteration. */
  datatype StepResult =
    | Converged(k: real)      // the estimated Newton step is at most eps
    | ExactProduct(k: real)   // fk * fkmin is exactly 0
    | Narrowed(next: Bracket) // one bound replaced by the midpoint
    | DivideByZero

  datatype Option<T> = None | Some(value: T)

  /** The number of iterations of `range(1, iter)`. */
  function Budget(iter: int): nat {
    if iter > 1 then iter - 1 else 0
  }

  /** The loop state before the first iteration. */
  function Start(f: real -> real, ikmin: real, ikmax: real): Bracket {
    Bracket(ikmin, ikmax, f(ikmin), f(ikmax))
  }

  /** One iteration of the loop body.  The arithmetic facts about its
      stopping tests are in `StopTests`. */
  function Step(v: OnZeroProduct, f: real -> real, eps: real, b: Bracket): (s: StepResult)
    ensures s.DivideByZero? <==> Width(b) == 0.0 || b.fkmin == b.fkmax
    ensures s.Converged? ==> s.k == Mid(b)
    ensures s.ExactProduct? ==> s.k == Mid(b) || s.k == b.kmin
    ensures s.ExactProduct? && v == ReturnMidpoint ==> s.k == Mid(b)
    ensures s.Narrowed? ==>
              || s.next == Bracket(b.kmin, Mid(b), b.fkmin, f(Mid(b)))
              || s.next == Bracket(Mid(b), b.kmax, f(Mid(b)), b.fkmax)
    ensures s.Narrowed? ==> Width(s.next) == Width(b) / 2.0
    ensures s.Narrowed? && b.kmin < b.kmax ==> Inside(s.next, b.kmin, b.kmax)
    ensures s.Narrowed? && Cached(f, b) ==> Cached(f, s.next)
  {
    var k := Mid(b);
    var fk := f(k);
    if b.kmax - b.kmin == 0.0 then DivideByZero
    else
      var fkk := (b.fkmax - b.fkmin) / (b.kmax - b.kmin);
      ZeroQuotient(b.fkmax - b.fkmin, b.kmax - b.kmin);
      if fkk == 0.0 then DivideByZero
      else if Abs(fk / fkk) - eps > 0.0 then
        if fk * b.fkmin < 0.0 then
          Narrowed(Bracket(b.kmin, k, b.fkmin, fk))
        else if fk * b.fkmin == 0.0 then
          ExactProduct(if v == ReturnZeroPoint && fk != 0.0 then b.kmin else k)
        else
          Narrowed(Bracket(k, b.kmax, fk, b.fkmax))
      else Converged(k)
  }

  /** What the tests of one iteration establish.  A convergence passes
      the estimated-Newton-step test |fk / fkk| <= eps.  The zero-product
      branch fails it and has fk * fkmin == 0; with the correction it
      returns a zero of f.  A narrowing fails the test, has fk * fkmin != 0,
      and moves the upper bound exactly when fk * fkmin < 0. */
  lemma StopTests(v: OnZeroProduct, f: real -> real, eps: real, b: Bracket)
    ensures var s := Step(v, f, eps, b);
            && (s.Converged? ==> Width(b) != 0.0 && Slope(b) != 0.0 && Abs(f(Mid(b)) / Slope(b)) <= eps)
            && (s.ExactProduct? ==>
                  && f(Mid(b)) * b.fkmin == 0.0
                  && Width(b) != 0.0 && Slope(b) != 0.0
                  && Abs(f(Mid(b)) / Slope(b)) > eps)
            && (s.ExactProduct? && v == ReturnZeroPoint && Cached(f, b) ==> f(s.k) == 0.0)
            && (s.Narrowed? ==>
                  && Width(b) != 0.0 && Slope(b) != 0.0
                  && Abs(f(Mid(b)) / Slope(b)) > eps
                  && f(Mid(b)) * b.fkmin != 0.0
                  && (s.next.kmax == Mid(b) <==> f(Mid(b)) * b.fkmin < 0.0))
  {
  }

  /** A narrowing keeps the sign change, and leaves a non-zero lower value
      that differs from the upper one. */
  lemma NarrowKeepsSignChange(v: OnZeroProduct, f: real -> real, eps: real, b: Bracket)
    requires SignChange(b)
    ensures var s := Step(v, f, eps, b);
            s.Narrowed? ==> SignChange(s.next) && s.next.fkmin != 0.0 && s.next.fkmin != s.next.fkmax
  {
    var fk := f(Mid(b));
    if Step(v, f, eps, b).Narrowed? && fk * b.fkmin > 0.0 {
      RaiseLowerBound(b, fk);
    }
  }

  /** `n` iterations of the loop started from `b`. */
  function Iterate(v: OnZeroProduct, f: real -> real, eps: real, b: Bracket, n: nat): (r: Run)
    ensures |r.probes| <= n
    ensures n > 0 ==> |r.probes| >= 1 && r.probes[0] == Mid(b)
    ensures r.outcome.Sentinel? ==> |r.probes| == n
    ensures !r.outcome.NoSignChange?
    decreases n
  {
    if n == 0 then Run(Sentinel, [])
    else
      match Step(v, f, eps, b)
      case Converged(k) => Run(Root(k), [Mid(b)])
      case ExactProduct(k) => Run(Root(k), [Mid(b)])
      case DivideByZero => Run(ZeroDivision, [Mid(b)])
      case Narrowed(c) =>
        var t := Iterate(v, f, eps, c, n - 1);
        Run(t.outcome, [Mid(b)] + t.probes)
  }

  /** Unfolding the loop once after a narrowing step. */
  lemma IterateNarrowed(v: OnZeroProduct, f: real -> real, eps: real, b: Bracket, c: Bracket, n: nat)
    requires n > 0 && Step(v, f, eps, b) == Narrowed(c)
    ensures var t := Iterate(v, f, eps, c, n - 1);
            Iterate(v, f, eps, b, n) == Run(t.outcome, [Mid(b)] + t.probes)
  {
  }

  /** Unfolding the loop once at a step that ends it. */
  lemma IterateEnds(v: OnZeroProduct, f: real -> real, eps: real, b: Bracket, n: nat)
    requires n > 0 && !Step(v, f, eps, b).Narrowed?
    ensures var r := Iterate(v, f, eps, b, n);
            Ends(Step(v, f, eps, b), r.outcome) && r.probes == [Mid(b)]
  {
  }

  /** The bracket at the top of iteration j + 1, if the first j
      iterations all narrowed. */
  function Trail(v: OnZeroProduct, f: real -> real, eps: real, b: Bracket, j: nat): Option<Bracket>
    decreases j
  {
    if j == 0 then Some(b)
    else
      match Step(v, f, eps, b)
      case Narrowed(c) => Trail(v, f, eps, c, j - 1)
      case _ => None
  }

  /** The whole of `bisection(x, ikmin, ikmax, eps, iter)`. */
  function Solve(v: OnZeroProduct, f: real -> real, ikmin: real, ikmax: real, eps: real, iter: int): (r: Run)
    ensures |r.probes| >= 2 && r.probes[0] == ikmin && r.probes[1] == ikmax
    ensures r.outcome.NoSignChange? <==> f(ikmin) * f(ikmax) > 0.0
    ensures r.outcome.NoSignChange? ==> |r.probes| == 2
    ensures |r.probes| <= 2 + Budget(iter)
    ensures r.outcome.Sentinel? ==> |r.probes| == 2 + Budget(iter)
  {
    var b := Start(f, ikmin, ikmax);
    if b.fkmin * b.fkmax > 0.0 then Run(NoSignChange, [ikmin, ikmax])
    else
      var t := Iterate(v, f, eps, b, Budget(iter));
      Run(t.outcome, [ikmin, ikmax] + t.probes)
  }

  /** Whether a step result ends the loop with the given outcome. */
  predicate Ends(s: StepResult, o: Outcome) {
    match s
    case Converged(k) => o == Root(k)
    case ExactProduct(k) => o == Root(k)
    case DivideByZero => o == ZeroDivision
    case Narrowed(_) => false
  }

  /** Extending a trail by one iteration. */
  lemma {:induction false} TrailNext(v: OnZeroProduct, f: real -> real, eps: real, b: Bracket, j: nat)
    ensures Trail(v, f, eps, b, j).Some? ==>
              var c := Trail(v, f, eps, b, j).value;
              Trail(v, f, eps, b, j + 1) == (if Step(v, f, eps, c).Narrowed? then Some(Step(v, f, eps, c).next) else None)
    decreases j
  {
    if j > 0 && Step(v, f, eps, b).Narrowed? {
      var c := Step(v, f, eps, b).next;
      TrailNext(v, f, eps, c, j - 1);
    }
  }

  /** Every bracket along the trail keeps the cache and the sign change,
      sits inside its predecessors and has width Width(b) / 2^j. After the
      first narrowing, the width and the lower cached value are non-zero
      and the two cached values differ. */
  lemma {:induction false} TrailInvariant(v: OnZeroProduct, f: real -> real, eps: real, b: Bracket, j: nat)
    requires Cached(f, b) && SignChange(b)
    ensures Trail(v, f, eps, b, j).Some? ==>
            var c := Trail(v, f, eps, b, j).value;
            && Cached(f, c)
            && SignChange(c)
            && Width(c) == Width(b) / Pow2(j)
            && (j == 0 ==> c == b)
            && (b.kmin < b.kmax ==> b.kmin <= c.kmin < c.kmax <= b.kmax)
            && (j >= 1 ==> Width(c) != 0.0 && c.fkmin != 0.0 && c.fkmin != c.fkmax)
    decreases j
  {
    if j > 0 && Step(v, f, eps, b).Narrowed? {
      var b1 := Step(v, f, eps, b).next;
      NarrowKeepsSignChange(v, f, eps, b);
      TrailInvariant(v, f, eps, b1, j - 1);
      if Trail(v, f, eps, b1, j - 1).Some? {
        var c := Trail(v, f, eps, b1, j - 1).value;
        HalvingWidth(Width(b), Width(b1), Width(c), j);
      }
    }
  }

  /** Width(c) = Width(b1) / 2^(j-1) and Width(b1) = Width(b) / 2 give
      Width(c) = Width(b) / 2^j. */
  lemma HalvingWidth(w: real, w1: real, wc: real, j: nat)
    requires j >= 1
    requires w1 == w / 2.0
    requires wc == w1 / Pow2(j - 1)
    ensures wc == w / Pow2(j)
    ensures w != 0.0 ==> wc != 0.0
  {
    var p := Pow2(j - 1);
    assert Pow2(j) == 2.0 * p;
    assert wc * p == w1;
    assert wc * (2.0 * p) == w;
  }

  /** The i-th probe of a loop run is the midpoint of the i-th bracket of
      the trail. */
  lemma {:induction false} IterateProbes(v: OnZeroProduct, f: real -> real, eps: real, b: Bracket, n: nat)
    ensures var r := Iterate(v, f, eps, b, n);
            forall i :: 0 <= i < |r.probes| ==>
              Trail(v, f, eps, b, i).Some? && r.probes[i] == Mid(Trail(v, f, eps, b, i).value)
    decreases n
  {
    if n > 0 && Step(v, f, eps, b).Narrowed? {
      var c := Step(v, f, eps, b).next;
      IterateProbes(v, f, eps, c, n - 1);
      var r := Iterate(v, f, eps, b, n);
      forall i | 0 <= i < |r.probes|
        ensures Trail(v, f, eps, b, i).Some? && r.probes[i] == Mid(Trail(v, f, eps, b, i).value)
      {
        if i > 0 {
          assert Trail(v, f, eps, b, i) == Trail(v, f, eps, c, i - 1);
        }
      }
    }
  }

  /** A loop run ends in the sentinel exactly when all n iterations
      narrowed. */
  lemma {:induction false} IterateSentinel(v: OnZeroProduct, f: real -> real, eps: real, b: Bracket, n: nat)
    ensures Iterate(v, f, eps, b, n).outcome.Sentinel? <==> Trail(v, f, eps, b, n).Some?
    decreases n
  {
    if n > 0 && Step(v, f, eps, b).Narrowed? {
      IterateSentinel(v, f, eps, Step(v, f, eps, b).next, n - 1);
    }
  }

  /** A loop run that does not end in the sentinel ends at the step of the
      bracket it probed last. */
  lemma {:induction false} IterateLast(v: OnZeroProduct, f: real -> real, eps: real, b: Bracket, n: nat)
    ensures var r := Iterate(v, f, eps, b, n);
            !r.outcome.Sentinel? ==>
              && |r.probes| >= 1
              && Trail(v, f, eps, b, |r.probes| - 1).Some?
              && Ends(Step(v, f, eps, Trail(v, f, eps, b, |r.probes| - 1).value), r.outcome)
    decreases n
  {
    if n > 0 && Step(v, f, eps, b).Narrowed? {
      var c := Step(v, f, eps, b).next;
      IterateLast(v, f, eps, c, n - 1);
      var t := Iterate(v, f, eps, c, n - 1);
      if !t.outcome.Sentinel? {
        assert Trail(v, f, eps, b, |t.probes|) == Trail(v, f, eps, c, |t.probes| - 1);
      }
    }
  }
}
