/** The shape-factor solver `bisection` of find_weibull.py, written as the
    loop the program runs.  The estimator `k_estimator(x, k)` is the
    parameter `f`: for a fixed sample it depends on k alone.  Besides the
    outcome, the method returns the points at which it evaluated `f`. */
module FindWeibull {
  import opened Brackets
  import opened Secant
  import Guarantees

  /** The search range and accuracy the program passes to the solver. */
  const KMin: real := 1.0
  const KMax: real := 8.0
  const Accuracy: real := 0.000001
  const Iterations: int := 50

  /** The program's own call `bisection(ws, 1.0, 8.0, 0.000001, 50)`: the
      estimator is evaluated at most 51 times, and a root it returns lies
      strictly between 1 and 8, so it is never the sentinel 0 and the scale
      formula's division by k is defined for it. */
  lemma ProgramCall(f: real -> real)
    ensures var r := Solve(ReturnMidpoint, f, KMin, KMax, Accuracy, Iterations);
            && |r.probes| <= 51
            && (r.outcome.Root? ==> 1.0 < r.outcome.k < 8.0 && r.outcome.k != 0.0)
  {
    Guarantees.SolveBracketed(ReturnMidpoint, f, KMin, KMax, Accuracy, Iterations);
  }

  method Bisection(f: real -> real, ikmin: real, ikmax: real, eps: real, iter: int)
    returns (r: Outcome, probes: seq<real>)
    ensures Run(r, probes) == Solve(ReturnMidpoint, f, ikmin, ikmax, eps, iter)
    ensures r.NoSignChange? <==> f(ikmin) * f(ikmax) > 0.0
    ensures r.NoSignChange? ==> probes == [ikmin, ikmax]
    ensures 2 <= |probes| <= 2 + Budget(iter)
    ensures r.Sentinel? ==> |probes| == 2 + Budget(iter)
    ensures ikmin < ikmax ==> forall i :: 0 <= i < |probes| ==> ikmin <= probes[i] <= ikmax
    ensures r.Root? ==> r.k == probes[|probes| - 1]
    ensures ikmin < ikmax && r.Root? ==> ikmin < r.k < ikmax
  {
    // kmin, kmax, fkmin and fkmax of the source are the fields of b
    var b := Bracket(ikmin, ikmax, f(ikmin), f(ikmax));
    if b.fkmin * b.fkmax > 0.0 {
      return NoSignChange, [ikmin, ikmax];
    }
    r, probes := Loop(f, ikmin, ikmax, eps, iter, b);
    if ikmin < ikmax {
      Guarantees.SolveBracketed(ReturnMidpoint, f, ikmin, ikmax, eps, iter);
    }
  }

  /** The `for` loop of `bisection`, entered once the abort test has passed
      with the initial loop state b. */
  method Loop(f: real -> real, ikmin: real, ikmax: real, eps: real, iter: int, b0: Bracket)
    returns (r: Outcome, probes: seq<real>)
    requires b0 == Start(f, ikmin, ikmax) && SignChange(b0)
    ensures Run(r, probes) == Solve(ReturnMidpoint, f, ikmin, ikmax, eps, iter)
    ensures r.Root? ==> r.k == probes[|probes| - 1]
  {
    var b := b0;
    probes := [ikmin, ikmax];
    Begin(f, ikmin, ikmax, eps, iter);
    var i := 1;
    while i < iter
      invariant 1 <= i && (i <= iter || i == 1)
      invariant |probes| == i + 1
      invariant Cached(f, b)
      invariant SignChange(b)
      invariant Width(b) == (ikmax - ikmin) / Pow2(i - 1)
      invariant ikmin < ikmax ==> Inside(b, ikmin, ikmax)
      invariant Resumes(f, ikmin, ikmax, eps, iter, i, probes, b)
      decreases iter - i
    {
      ghost var before := probes;
      var s, k := Iteration(f, eps, b);
      probes := probes + [k];
      match s
      case DivideByZero =>
        Finish(f, ikmin, ikmax, eps, iter, i, before, b, ZeroDivision);
        return ZeroDivision, probes;
      case Converged(root) =>
        Finish(f, ikmin, ikmax, eps, iter, i, before, b, Root(root));
        return Root(root), probes;
      case ExactProduct(root) =>
        Finish(f, ikmin, ikmax, eps, iter, i, before, b, Root(root));
        return Root(root), probes;
      case Narrowed(c) =>
        Advance(f, ikmin, ikmax, eps, iter, i, before, b, c);
        b := c;
        i := i + 1;
    }
    Exhausted(f, ikmin, ikmax, eps, iter, i, probes, b);
    return Sentinel, probes;
  }

  /** The body of the loop: probe the midpoint `k`, compute the secant
      slope `fkk` from the cached values, stop when the estimated Newton
      step |fk / fkk| is at most eps or when fk * fkmin is exactly 0, and
      otherwise replace one bound and its cached value by the midpoint. */
  method Iteration(f: real -> real, eps: real, b: Bracket) returns (s: StepResult, k: real)
    ensures k == Mid(b)
    ensures s.DivideByZero? <==> b.kmax == b.kmin || b.fkmin == b.fkmax
    ensures s.Converged? ==>
              s.k == k && b.kmax != b.kmin && Slope(b) != 0.0 && Abs(f(k) / Slope(b)) <= eps
    ensures s.ExactProduct? ==>
              && s.k == k && f(k) * b.fkmin == 0.0
              && b.kmax != b.kmin && Slope(b) != 0.0 && Abs(f(k) / Slope(b)) > eps
    ensures s.Narrowed? ==>
              && b.kmax != b.kmin && Slope(b) != 0.0 && Abs(f(k) / Slope(b)) > eps
              && f(k) * b.fkmin != 0.0
              && s.next == (if f(k) * b.fkmin < 0.0 then Bracket(b.kmin, k, b.fkmin, f(k))
                            else Bracket(k, b.kmax, f(k), b.fkmax))
    ensures s.Narrowed? && Cached(f, b) ==> Cached(f, s.next)
    ensures s.Narrowed? && SignChange(b) ==> SignChange(s.next)
    ensures s == Step(ReturnMidpoint, f, eps, b)
  {
    var kmin, kmax, fkmin, fkmax := b.kmin, b.kmax, b.fkmin, b.fkmax;
    k := (kmin + kmax) / 2.0;
    var fk := f(k);
    if kmax - kmin == 0.0 {
      return DivideByZero, k;
    }
    var fkk := (fkmax - fkmin) / (kmax - kmin);
    ZeroQuotient(fkmax - fkmin, kmax - kmin);
    if fkk == 0.0 {
      return DivideByZero, k;
    }
    if Abs(fk / fkk) - eps > 0.0 {
      if fk * fkmin < 0.0 {
        return Narrowed(Bracket(kmin, k, fkmin, fk)), k;
      } else {
        if fk * fkmin == 0.0 {
          return ExactProduct(k), k;
        }
        RaiseLowerBound(b, fk);
        return Narrowed(Bracket(k, kmax, fk, fkmax)), k;
      }
    } else {
      return Converged(k), k;
    }
  }

  /** At the top of iteration i, with the probes made so far and the loop
      state b, the reference run is what has been probed followed by the
      reference loop resumed from b with the iterations left. */
  ghost predicate Resumes(f: real -> real, ikmin: real, ikmax: real, eps: real, iter: int, i: int,
                          probes: seq<real>, b: Bracket)
  {
    && 1 <= i <= Budget(iter) + 1
    && Trail(ReturnMidpoint, f, eps, Start(f, ikmin, ikmax), i - 1) == Some(b)
    && var t := Iterate(ReturnMidpoint, f, eps, b, Budget(iter) - (i - 1));
       Solve(ReturnMidpoint, f, ikmin, ikmax, eps, iter) == Run(t.outcome, probes + t.probes)
  }

  lemma Begin(f: real -> real, ikmin: real, ikmax: real, eps: real, iter: int)
    requires f(ikmin) * f(ikmax) <= 0.0
    ensures Resumes(f, ikmin, ikmax, eps, iter, 1, [ikmin, ikmax], Start(f, ikmin, ikmax))
  {
  }

  /** A narrowing iteration moves the loop one bracket along the trail. */
  lemma Advance(f: real -> real, ikmin: real, ikmax: real, eps: real, iter: int, i: int,
                before: seq<real>, b: Bracket, c: Bracket)
    requires i < iter
    requires Resumes(f, ikmin, ikmax, eps, iter, i, before, b)
    requires Step(ReturnMidpoint, f, eps, b) == Narrowed(c)
    requires Cached(f, b) && SignChange(b)
    requires Width(b) == (ikmax - ikmin) / Pow2(i - 1)
    requires ikmin < ikmax ==> Inside(b, ikmin, ikmax)
    ensures Resumes(f, ikmin, ikmax, eps, iter, i + 1, before + [Mid(b)], c)
    ensures Cached(f, c) && SignChange(c)
    ensures Width(c) == (ikmax - ikmin) / Pow2(i)
    ensures ikmin < ikmax ==> Inside(c, ikmin, ikmax) && ikmin < Mid(b) < ikmax
  {
    HalfOverPow2(ikmax - ikmin, i - 1);
    NarrowKeepsSignChange(ReturnMidpoint, f, eps, b);
    TrailNext(ReturnMidpoint, f, eps, Start(f, ikmin, ikmax), i - 1);
    IterateNarrowed(ReturnMidpoint, f, eps, b, c, Budget(iter) - (i - 1));
    var t := Iterate(ReturnMidpoint, f, eps, c, Budget(iter) - i);
    assert (before + [Mid(b)]) + t.probes == before + ([Mid(b)] + t.probes);
  }

  /** An iteration that ends the loop ends the reference run the same way. */
  lemma Finish(f: real -> real, ikmin: real, ikmax: real, eps: real, iter: int, i: int,
               before: seq<real>, b: Bracket, o: Outcome)
    requires i < iter
    requires Resumes(f, ikmin, ikmax, eps, iter, i, before, b)
    requires Ends(Step(ReturnMidpoint, f, eps, b), o)
    ensures Solve(ReturnMidpoint, f, ikmin, ikmax, eps, iter) == Run(o, before + [Mid(b)])
  {
    IterateEnds(ReturnMidpoint, f, eps, b, Budget(iter) - (i - 1));
  }

  /** Leaving the loop after all iterations narrowed gives the sentinel. */
  lemma Exhausted(f: real -> real, ikmin: real, ikmax: real, eps: real, iter: int, i: int,
                  probes: seq<real>, b: Bracket)
    requires i >= iter
    requires Resumes(f, ikmin, ikmax, eps, iter, i, probes, b)
    ensures Solve(ReturnMidpoint, f, ikmin, ikmax, eps, iter) == Run(Sentinel, probes)
  {
  }
}
