/** What a whole run of the solver guarantees, for every estimator `f`:
    where it probes, what each outcome means and when each one happens. */
module Guarantees {
  import opened Brackets
  import opened Secant

  /** The bracket of the iteration that produced the last probe of a run
      that entered the loop. */
  function Final(v: OnZeroProduct, f: real -> real, ikmin: real, ikmax: real, eps: real, r: Run): Option<Bracket> {
    if |r.probes| >= 3 then Trail(v, f, eps, Start(f, ikmin, ikmax), |r.probes| - 3) else None
  }

  /** The probes of a run that passed the abort test are the two bounds
      followed by the probes of the loop. */
  lemma SolveLoop(v: OnZeroProduct, f: real -> real, ikmin: real, ikmax: real, eps: real, iter: int)
    requires f(ikmin) * f(ikmax) <= 0.0
    ensures var r := Solve(v, f, ikmin, ikmax, eps, iter);
            var t := Iterate(v, f, eps, Start(f, ikmin, ikmax), Budget(iter));
            r.outcome == t.outcome && r.probes == [ikmin, ikmax] + t.probes
  {
  }

  /** With ikmin < ikmax every probe lies in [ikmin, ikmax], and a root the
      code as written returns is the last midpoint it probed, strictly
      inside the interval. */
  lemma SolveBracketed(v: OnZeroProduct, f: real -> real, ikmin: real, ikmax: real, eps: real, iter: int)
    requires ikmin < ikmax
    ensures var r := Solve(v, f, ikmin, ikmax, eps, iter);
            && (forall i :: 0 <= i < |r.probes| ==> ikmin <= r.probes[i] <= ikmax)
            && (r.outcome.Root? ==> ikmin <= r.outcome.k < ikmax)
            && (r.outcome.Root? && v == ReturnMidpoint ==>
                  ikmin < r.outcome.k < ikmax && r.outcome.k == r.probes[|r.probes| - 1])
  {
    var r := Solve(v, f, ikmin, ikmax, eps, iter);
    var b := Start(f, ikmin, ikmax);
    if b.fkmin * b.fkmax <= 0.0 {
      var n := Budget(iter);
      var t := Iterate(v, f, eps, b, n);
      SolveLoop(v, f, ikmin, ikmax, eps, iter);
      LoopInside(v, f, eps, b, n);
      IterateLast(v, f, eps, b, n);
      assert forall i :: 2 <= i < |r.probes| ==> r.probes[i] == t.probes[i - 2];
      if r.outcome.Root? {
        IterateProbes(v, f, eps, b, n);
        TrailInvariant(v, f, eps, b, |t.probes| - 1);
      }
    }
  }

  /** Every midpoint the loop probes from a proper bracket with a valid
      cache and a sign change lies strictly inside that bracket. */
  lemma LoopInside(v: OnZeroProduct, f: real -> real, eps: real, b: Bracket, n: nat)
    requires Cached(f, b) && SignChange(b)
    ensures var t := Iterate(v, f, eps, b, n);
            b.kmin < b.kmax ==> forall i :: 0 <= i < |t.probes| ==> b.kmin < t.probes[i] < b.kmax
  {
    var t := Iterate(v, f, eps, b, n);
    IterateProbes(v, f, eps, b, n);
    forall i | 0 <= i < |t.probes|
      ensures b.kmin < b.kmax ==> b.kmin < t.probes[i] < b.kmax
    {
      TrailInvariant(v, f, eps, b, i);
    }
  }

  /** A root is returned only from an iteration whose bracket has cached
      values equal to f at its bounds and width (ikmax - ikmin) / 2^j after
      j narrowings, and only when the estimated Newton step at its
      midpoint, with the chord slope of f over the bracket, is at most eps,
      or f(midpoint) * f(lower bound) is exactly 0. */
  lemma SolveStops(v: OnZeroProduct, f: real -> real, ikmin: real, ikmax: real, eps: real, iter: int)
    ensures var r := Solve(v, f, ikmin, ikmax, eps, iter);
            var c := Final(v, f, ikmin, ikmax, eps, r);
            r.outcome.Root? ==>
              && |r.probes| >= 3
              && c.Some?
              && Cached(f, c.value)
              && Width(c.value) != 0.0
              && Width(c.value) == (ikmax - ikmin) / Pow2(|r.probes| - 3)
              && (|| (ChordSlope(f, c.value.kmin, c.value.kmax) != 0.0
                      && Abs(f(Mid(c.value)) / ChordSlope(f, c.value.kmin, c.value.kmax)) <= eps)
                  || f(Mid(c.value)) * f(c.value.kmin) == 0.0)
              && (v == ReturnMidpoint ==> r.outcome.k == Mid(c.value))
  {
    var r := Solve(v, f, ikmin, ikmax, eps, iter);
    if r.outcome.Root? {
      FinalBracket(v, f, ikmin, ikmax, eps, iter);
      StopCondition(v, f, eps, Final(v, f, ikmin, ikmax, eps, r).value, r.outcome);
    }
  }

  /** A run that ended inside the loop ended at the step of its final
      bracket, which has cached values equal to f at its bounds, carries
      the sign change and has width (ikmax - ikmin) / 2^j after j
      narrowings. */
  lemma FinalBracket(v: OnZeroProduct, f: real -> real, ikmin: real, ikmax: real, eps: real, iter: int)
    ensures var r := Solve(v, f, ikmin, ikmax, eps, iter);
            var c := Final(v, f, ikmin, ikmax, eps, r);
            !r.outcome.NoSignChange? && !r.outcome.Sentinel? ==>
              && |r.probes| >= 3
              && c.Some?
              && Cached(f, c.value)
              && SignChange(c.value)
              && Width(c.value) == (ikmax - ikmin) / Pow2(|r.probes| - 3)
              && (|r.probes| > 3 ==> Width(c.value) != 0.0 && c.value.fkmin != 0.0 && c.value.fkmin != c.value.fkmax)
              && (|r.probes| == 3 ==> c.value == Start(f, ikmin, ikmax))
              && Ends(Step(v, f, eps, c.value), r.outcome)
  {
    var r := Solve(v, f, ikmin, ikmax, eps, iter);
    var b := Start(f, ikmin, ikmax);
    if !r.outcome.NoSignChange? && !r.outcome.Sentinel? {
      var n := Budget(iter);
      SolveLoop(v, f, ikmin, ikmax, eps, iter);
      IterateProbes(v, f, eps, b, n);
      IterateLast(v, f, eps, b, n);
      var j := |Iterate(v, f, eps, b, n).probes| - 1;
      TrailInvariant(v, f, eps, b, j);
    }
  }

  /** The stop conditions of one iteration, with the cached values read as
      values of f. */
  lemma StopCondition(v: OnZeroProduct, f: real -> real, eps: real, c: Bracket, o: Outcome)
    requires Cached(f, c)
    requires o.Root? && Ends(Step(v, f, eps, c), o)
    ensures Width(c) != 0.0
    ensures || (ChordSlope(f, c.kmin, c.kmax) != 0.0
                && Abs(f(Mid(c)) / ChordSlope(f, c.kmin, c.kmax)) <= eps)
            || f(Mid(c)) * f(c.kmin) == 0.0
    ensures v == ReturnMidpoint ==> o.k == Mid(c)
  {
    StopTests(v, f, eps, c);
    assert Slope(c) == ChordSlope(f, c.kmin, c.kmax);
  }

  /** The division in the secant slope or in the step test fails exactly
      when the loop runs at least once and f vanishes at both initial
      bounds: after the first narrowing the width and the difference of
      the cached values are never 0 again. */
  lemma SolveZeroDivision(v: OnZeroProduct, f: real -> real, ikmin: real, ikmax: real, eps: real, iter: int)
    ensures Solve(v, f, ikmin, ikmax, eps, iter).outcome.ZeroDivision?
            <==> Budget(iter) >= 1 && f(ikmin) == 0.0 && f(ikmax) == 0.0
  {
    var r := Solve(v, f, ikmin, ikmax, eps, iter);
    var b := Start(f, ikmin, ikmax);
    var n := Budget(iter);
    if n >= 1 && f(ikmin) == 0.0 && f(ikmax) == 0.0 {
      assert Step(v, f, eps, b).DivideByZero?;
    }
    if r.outcome.ZeroDivision? {
      SolveLoop(v, f, ikmin, ikmax, eps, iter);
      IterateProbes(v, f, eps, b, n);
      IterateLast(v, f, eps, b, n);
      var t := Iterate(v, f, eps, b, n);
      var j := |t.probes| - 1;
      TrailInvariant(v, f, eps, b, j);
      if j == 0 {
        if Width(b) == 0.0 {
          assert b.fkmin == b.fkmax;
        }
        SignChangeEqualValues(b);
      }
    }
  }

  /** An iteration after which the loop went on failed both stop tests:
      the estimated Newton step at its midpoint, with the chord slope of f
      over its bracket, exceeds eps, and f(midpoint) * f(lower bound) is
      not 0. */
  lemma NarrowedProbeFails(v: OnZeroProduct, f: real -> real, eps: real, b: Bracket, j: nat)
    requires Cached(f, b) && SignChange(b)
    ensures Trail(v, f, eps, b, j).Some? && Trail(v, f, eps, b, j + 1).Some? ==>
              var c := Trail(v, f, eps, b, j).value;
              && c.kmin != c.kmax
              && ChordSlope(f, c.kmin, c.kmax) != 0.0
              && Abs(f(Mid(c)) / ChordSlope(f, c.kmin, c.kmax)) > eps
              && f(Mid(c)) * f(c.kmin) != 0.0
  {
    if Trail(v, f, eps, b, j).Some? && Trail(v, f, eps, b, j + 1).Some? {
      TrailNext(v, f, eps, b, j);
      TrailInvariant(v, f, eps, b, j);
      var c := Trail(v, f, eps, b, j).value;
      StopTests(v, f, eps, c);
      assert Slope(c) == ChordSlope(f, c.kmin, c.kmax);
    }
  }

  /** Every midpoint probed before the last one, and every midpoint of a
      run that ends in the sentinel, failed both stop tests.  So a root
      returned is the first probe that passes one of them, and the sentinel
      means that no probe did. */
  lemma SolveProbesFail(v: OnZeroProduct, f: real -> real, ikmin: real, ikmax: real, eps: real, iter: int)
    ensures var r := Solve(v, f, ikmin, ikmax, eps, iter);
            var b := Start(f, ikmin, ikmax);
            forall i :: 2 <= i < |r.probes| && (i < |r.probes| - 1 || r.outcome.Sentinel?) ==>
              && Trail(v, f, eps, b, i - 2).Some?
              && var c := Trail(v, f, eps, b, i - 2).value;
                 && r.probes[i] == Mid(c)
                 && c.kmin != c.kmax
                 && ChordSlope(f, c.kmin, c.kmax) != 0.0
                 && Abs(f(r.probes[i]) / ChordSlope(f, c.kmin, c.kmax)) > eps
                 && f(r.probes[i]) * f(c.kmin) != 0.0
  {
    var r := Solve(v, f, ikmin, ikmax, eps, iter);
    var b := Start(f, ikmin, ikmax);
    if f(ikmin) * f(ikmax) <= 0.0 {
      var n := Budget(iter);
      var t := Iterate(v, f, eps, b, n);
      SolveLoop(v, f, ikmin, ikmax, eps, iter);
      IterateProbes(v, f, eps, b, n);
      IterateSentinel(v, f, eps, b, n);
      forall i | 2 <= i < |r.probes| && (i < |r.probes| - 1 || r.outcome.Sentinel?)
        ensures Trail(v, f, eps, b, i - 2).Some? && Trail(v, f, eps, b, i - 1).Some?
        ensures r.probes[i] == Mid(Trail(v, f, eps, b, i - 2).value)
      {
        assert r.probes[i] == t.probes[i - 2];
      }
      forall j: nat | j + 2 < |r.probes| && (j + 3 < |r.probes| || r.outcome.Sentinel?) {
        NarrowedProbeFails(v, f, eps, b, j);
      }
    }
  }

  /** The sentinel 0 is returned exactly when the abort test passed and
      every one of the Budget(iter) iterations narrowed the bracket; the
      last bracket then has width (ikmax - ikmin) / 2^Budget(iter). With
      iter <= 1 the loop never runs and the outcome is the abort or the
      sentinel. */
  lemma SolveSentinel(v: OnZeroProduct, f: real -> real, ikmin: real, ikmax: real, eps: real, iter: int)
    ensures var r := Solve(v, f, ikmin, ikmax, eps, iter);
            var last := Trail(v, f, eps, Start(f, ikmin, ikmax), Budget(iter));
            && (r.outcome.Sentinel? <==> f(ikmin) * f(ikmax) <= 0.0 && last.Some?)
            && (r.outcome.Sentinel? ==> Width(last.value) == (ikmax - ikmin) / Pow2(Budget(iter)))
            && (iter <= 1 ==> r.outcome.NoSignChange? || r.outcome.Sentinel?)
  {
    var b := Start(f, ikmin, ikmax);
    if f(ikmin) * f(ikmax) <= 0.0 {
      SolveLoop(v, f, ikmin, ikmax, eps, iter);
      IterateSentinel(v, f, eps, b, Budget(iter));
      if Trail(v, f, eps, b, Budget(iter)).Some? {
        TrailInvariant(v, f, eps, b, Budget(iter));
      }
    }
  }
}
