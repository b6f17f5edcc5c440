/** The run of the scale search: the lines it looks at, which of them it keeps, and when it stops. */
module QuantTrace {
  import opened QuantSums
  import opened QuantSearch

  lemma {:induction false} ExtremesAreAttained(x: seq<real>, n: nat)
    requires 0 < n <= |x|
    ensures exists i :: 0 <= i < n && x[i] == MinOf(x, n)
    ensures exists i :: 0 <= i < n && x[i] == MaxOf(x, n)
  {
    if n == 1 {
      assert x[0] == MinOf(x, n) && x[0] == MaxOf(x, n);
    } else {
      ExtremesAreAttained(x, n - 1);
      assert x[n - 1] == MinOf(x, n) || MinOf(x, n) == MinOf(x, n - 1);
      assert x[n - 1] == MaxOf(x, n) || MaxOf(x, n) == MaxOf(x, n - 1);
    }
  }

  /** The first line spans the group from its minimum, or 0, to its maximum, in fifteen steps. */
  lemma InitialSpans(rnd: real -> int, w: seq<real>, x: seq<real>)
    requires |w| == |x| > 0 && MaxOf(x, |x|) > StartMin(x)
    ensures var b := Initial(rnd, w, x);
      && 15.0 * b.scale == MaxOf(x, |x|) - b.min
      && b.min == (if MinOf(x, |x|) > 0.0 then 0.0 else MinOf(x, |x|))
      && b.levels == LevelsFor(rnd, x, b.min, 15.0 / (MaxOf(x, |x|) - b.min))
      && b.error == Error(w, x, b.levels, b.scale, b.min, |x|)
  {
    hide Error, LevelsFor;
    var d := MaxOf(x, |x|) - StartMin(x);
    InverseOf(d);
  }

  lemma InverseOf(d: real)
    requires d > 0.0
    ensures Div(15.0, d) == 15.0 / d && 15.0 / d > 0.0 && 15.0 * Div(1.0, Div(15.0, d)) == d
  {
    var i := 15.0 / d;
    assert i * d == 15.0;
    Quotient(15.0, d);
    var r := Div(1.0, i);
    Quotient(1.0, i);
    assert i * r == 1.0;
    assert 15.0 * r == (i * d) * r == d * (i * r);
  }

  /** Candidate number istep divides the range into 14, 14.1, ... 16 steps. */
  lemma StepScaleIs(istep: nat, max: real, min: real)
    requires max > min
    ensures StepScale(istep, max, min) == (14.0 + 0.1 * istep as real) / (max - min)
  {
    assert Times(RDELTA, istep as real) == 0.1 * istep as real;
  }

  /** The levels of candidate istep: the values counted from the current minimum, rounded, and cut to 0..15. */
  ghost predicate CandidateLevels(rnd: real -> int, x: seq<real>, max: real, istep: nat, min: real, l: seq<int>)
    requires max > min
  {
    && |l| == |x|
    && forall i :: 0 <= i < |x| ==>
         var r := rnd(Times((14.0 + 0.1 * istep as real) / (max - min), x[i] - min));
         l[i] == if r < 0 then 0 else if r > 15 then 15 else r
  }

  /**
   * What happens at candidate istep with levels l: there is a line to try if and only if the determinant is positive,
   * and that line, the best one for these levels, replaces the current one if and only if its error is smaller.
   */
  ghost predicate Decided(w: seq<real>, x: seq<real>, l: seq<int>, now: Best, next: Best)
    requires |w| == |x| == |l|
  {
    var n := |x|;
    if SumW(w, n) * SumL2(w, l, n) - SumL(w, l, n) * SumL(w, l, n) > 0.0 then
      exists s: real, m: real ::
        && m <= 0.0 && (forall s', m' :: m' <= 0.0 ==> Error(w, x, l, s, m, n) <= Error(w, x, l, s', m', n))
        && next == if Error(w, x, l, s, m, n) < now.error then Best(l, s, m, Error(w, x, l, s, m, n)) else now
    else next == now
  }

  lemma LevelsAreCandidate(rnd: real -> int, x: seq<real>, max: real, istep: nat, min: real)
    requires max > min
    ensures CandidateLevels(rnd, x, max, istep, min, LevelsFor(rnd, x, min, StepScale(istep, max, min)))
  {
    hide StepScale, Times;
    var k := (14.0 + 0.1 * istep as real) / (max - min);
    StepScaleIs(istep, max, min);
    var l := LevelsFor(rnd, x, min, k);
    assert forall i :: 0 <= i < |x| ==> l[i] == Clamp(rnd(Times(k, x[i] - min)));
  }

  /** The lines the search holds one after the other, from candidate istep on. */
  ghost predicate IsTrace(rnd: real -> int, w: seq<real>, x: seq<real>, max: real, istep: nat, trace: seq<Best>)
    requires |w| == |x|
  {
    && trace != [] && istep + |trace| <= 22
    && (forall i :: 0 <= i < |trace| - 1 ==> TraceStep(rnd, w, x, max, istep + i, trace[i], trace[i + 1]))
    && (istep + |trace| == 22 || max <= trace[|trace| - 1].min)
  }

  ghost predicate TraceStep(rnd: real -> int, w: seq<real>, x: seq<real>, max: real, istep: nat, now: Best, next: Best)
    requires |w| == |x|
  {
    max > now.min && exists l :: CandidateLevels(rnd, x, max, istep, now.min, l) && Decided(w, x, l, now, next)
  }

  lemma StepIsDecided(rnd: real -> int, w: seq<real>, x: seq<real>, max: real, istep: nat, now: Best)
    requires |w| == |x| && NonNegative(w) && Nearest(rnd) && max > now.min
    ensures TraceStep(rnd, w, x, max, istep, now, TryStep(rnd, w, x, max, istep, now))
  {
    hide Error, Nearest, StepScale, LevelsFollow, CandidateLevels, NonNegative;
    var l := LevelsFor(rnd, x, now.min, StepScale(istep, max, now.min));
    var next := TryStep(rnd, w, x, max, istep, now);
    LevelsAreCandidate(rnd, x, max, istep, now.min);
    StepScalePositive(istep, max, now.min);
    LevelsForFollow(rnd, x, now.min, StepScale(istep, max, now.min));
    LineIffDeterminant(w, x, l);
    if Fitted(w, x, l).Line? {
      var f := Fitted(w, x, l);
      forall s, m | m <= 0.0
        ensures f.min <= 0.0 && Error(w, x, l, f.scale, f.min, |x|) <= Error(w, x, l, s, m, |x|)
      {
        FittedIsOptimal(w, x, l, s, m);
      }
      FittedIsOptimal(w, x, l, 0.0, 0.0);
    }
    assert Decided(w, x, l, now, next);
  }

  lemma LineIffDeterminant(w: seq<real>, x: seq<real>, l: seq<int>)
    requires |w| == |x| == |l| && NonNegative(w) && forall i :: 0 <= i < |l| ==> l[i] >= 0
    ensures var n := |x|;
      Fitted(w, x, l).Line? <==> SumW(w, n) * SumL2(w, l, n) - SumL(w, l, n) * SumL(w, l, n) > 0.0
  {
    hide SumW, SumX, SumL, SumL2, SumXL, Covariance, Intercept, Div;
  }

  /** The search from candidate istep on runs through such a trace and returns its last line. */
  lemma {:induction false} SearchTraced(rnd: real -> int, w: seq<real>, x: seq<real>, max: real, istep: nat, best: Best)
    returns (trace: seq<Best>)
    requires |w| == |x| && NonNegative(w) && Nearest(rnd) && istep <= 21
    ensures IsTrace(rnd, w, x, max, istep, trace)
    ensures trace[0] == best && trace[|trace| - 1] == Search(rnd, w, x, max, istep, best)
    decreases 21 - istep
  {
    hide TryStep, TraceStep, Nearest, NonNegative;
    if istep == 21 || max <= best.min {
      trace := [best];
    } else {
      var next := TryStep(rnd, w, x, max, istep, best);
      StepIsDecided(rnd, w, x, max, istep, best);
      var rest := SearchTraced(rnd, w, x, max, istep + 1, next);
      trace := [best] + rest;
      forall i | 0 <= i < |trace| - 1 ensures TraceStep(rnd, w, x, max, istep + i, trace[i], trace[i + 1]) {
        if i > 0 {
          assert TraceStep(rnd, w, x, max, istep + 1 + (i - 1), rest[i - 1], rest[i]);
        }
      }
    }
  }

  /**
   * The whole search: a group of one value that is not positive gets scale 0 and that value as minimum; any other group
   * starts from the line that spans it and goes through all 21 candidates, unless the minimum reaches the maximum.
   */
  lemma QuantsTraced(rnd: real -> int, w: seq<real>, x: seq<real>) returns (trace: seq<Best>)
    requires |w| == |x| > 0 && NonNegative(w) && Nearest(rnd)
    ensures MaxOf(x, |x|) == StartMin(x) ==>
      var r := Quants(rnd, w, x);
      r.scale == 0.0 && r.min == MaxOf(x, |x|) && |r.levels| == |x| && forall i :: 0 <= i < |x| ==> r.levels[i] == 0
    ensures MaxOf(x, |x|) != StartMin(x) ==>
      && IsTrace(rnd, w, x, MaxOf(x, |x|), 0, trace)
      && trace[0] == Initial(rnd, w, x) && trace[|trace| - 1] == Quants(rnd, w, x)
  {
    hide Search, Initial, IsTrace;
    trace := [];
    if MaxOf(x, |x|) != StartMin(x) {
      trace := SearchTraced(rnd, w, x, MaxOf(x, |x|), 0, Initial(rnd, w, x));
    }
  }
}
