/** The scale search of the scalar Q4_K quantizer (_make_qkx2_quants in tools/qwen3_q4.py), over real numbers. */
module QuantSearch {
  import opened QuantSums

  const GROUP: nat := 32
  const NMAX: int := 15
  const RMIN: real := -1.0
  const RDELTA: real := 0.1
  const NSTEP: nat := 20

  /** _nearest_int, whatever it does on ties. */
  ghost predicate Nearest(rnd: real -> int) {
    forall v: real :: v - 0.5 <= rnd(v) as real <= v + 0.5
  }

  /** The best line found so far: levels, scale, minimum, and the error of that line. */
  datatype Best = Best(levels: seq<int>, scale: real, min: real, error: real)

  // ---------------------------------------------------------------- what the search computes

  function Clamp(l: int): int { if l < 0 then 0 else if l > NMAX then NMAX else l }

  function LevelsFor(rnd: real -> int, x: seq<real>, min: real, iscale: real): (l: seq<int>)
    ensures |l| == |x| && forall i :: 0 <= i < |x| ==> l[i] == Clamp(rnd(Times(iscale, x[i] - min)))
  {
    seq(|x|, i requires 0 <= i < |x| => Clamp(rnd(Times(iscale, x[i] - min))))
  }

  function MinOf(x: seq<real>, n: nat): (r: real)
    requires 0 < n <= |x|
    ensures forall i :: 0 <= i < n ==> r <= x[i]
  {
    if n == 1 then x[0] else if x[n - 1] < MinOf(x, n - 1) then x[n - 1] else MinOf(x, n - 1)
  }

  function MaxOf(x: seq<real>, n: nat): (r: real)
    requires 0 < n <= |x|
    ensures forall i :: 0 <= i < n ==> x[i] <= r
  {
    if n == 1 then x[0] else if x[n - 1] > MaxOf(x, n - 1) then x[n - 1] else MaxOf(x, n - 1)
  }

  /** The minimum is never positive. */
  function StartMin(x: seq<real>): real
    requires x != []
  {
    if MinOf(x, |x|) > 0.0 then 0.0 else MinOf(x, |x|)
  }

  function Initial(rnd: real -> int, w: seq<real>, x: seq<real>): Best
    requires |w| == |x| > 0 && MaxOf(x, |x|) != StartMin(x)
  {
    var min, max := StartMin(x), MaxOf(x, |x|);
    var iscale := Div(15.0, max - min);
    var l := LevelsFor(rnd, x, min, iscale);
    var scale := if iscale != 0.0 then Div(1.0, iscale) else 0.0;
    Best(l, scale, min, Error(w, x, l, scale, min, |x|))
  }

  function StepScale(istep: nat, max: real, min: real): real
    requires max > min
  {
    Div(RMIN + Times(RDELTA, istep as real) + 15.0, max - min)
  }

  /** One candidate; it replaces the best only if its error is smaller. */
  function TryStep(rnd: real -> int, w: seq<real>, x: seq<real>, max: real, istep: nat, best: Best): Best
    requires |w| == |x| && NonNegative(w) && max > best.min
  {
    var l := LevelsFor(rnd, x, best.min, StepScale(istep, max, best.min));
    match Fitted(w, x, l)
    case NoLine => best
    case Line(s, m) =>
      var e := Error(w, x, l, s, m, |x|);
      if e < best.error then Best(l, s, m, e) else best
  }

  /** The loop from step istep on; the break compares with the minimum of the best line so far. */
  function Search(rnd: real -> int, w: seq<real>, x: seq<real>, max: real, istep: nat, best: Best): Best
    requires |w| == |x| && NonNegative(w) && istep <= NSTEP + 1
    decreases NSTEP + 1 - istep
  {
    if istep == NSTEP + 1 || max <= best.min then best
    else Search(rnd, w, x, max, istep + 1, TryStep(rnd, w, x, max, istep, best))
  }

  /** The whole function; a constant group that does not reach above zero gets scale 0. */
  function Quants(rnd: real -> int, w: seq<real>, x: seq<real>): Best
    requires |w| == |x| > 0 && NonNegative(w)
  {
    var min, max := StartMin(x), MaxOf(x, |x|);
    if max == min then Best(seq(|x|, i => 0), 0.0, min, 0.0)
    else Search(rnd, w, x, max, 0, Initial(rnd, w, x))
  }

  // ---------------------------------------------------------------- invariants of the search

  ghost predicate Levels(l: seq<int>, n: nat) { |l| == n && forall i :: 0 <= i < n ==> 0 <= l[i] <= NMAX }

  /** What every best line satisfies. */
  ghost predicate Good(w: seq<real>, x: seq<real>, b: Best)
    requires |w| == |x|
  {
    && Levels(b.levels, |x|) && b.scale >= 0.0 && b.min <= 0.0
    && b.error == Error(w, x, b.levels, b.scale, b.min, |x|)
  }

  /** No line with these levels and a minimum that is not positive has a smaller error. */
  ghost predicate BestForItsLevels(w: seq<real>, x: seq<real>, b: Best)
    requires |w| == |x| == |b.levels|
  {
    forall s, m :: m <= 0.0 ==> b.error <= Error(w, x, b.levels, s, m, |x|)
  }

  /** Rounding is monotone because it is nearest. */
  lemma RoundingMonotone(rnd: real -> int, u: real, v: real)
    requires Nearest(rnd) && u <= v
    ensures rnd(u) <= rnd(v)
  {
    if u != v {
      assert rnd(v) as real >= v - 0.5 && rnd(u) as real <= u + 0.5;
    }
  }

  lemma ScaledMonotone(iscale: real, a: real, b: real)
    requires iscale >= 0.0 && a <= b
    ensures Times(iscale, a) <= Times(iscale, b)
  {
    ProductNonNegative(iscale, b - a);
  }

  lemma LevelsForFollow(rnd: real -> int, x: seq<real>, min: real, iscale: real)
    requires Nearest(rnd) && iscale >= 0.0
    ensures LevelsFollow(x, LevelsFor(rnd, x, min, iscale)) && Levels(LevelsFor(rnd, x, min, iscale), |x|)
  {
    hide Nearest, Times;
    var l := LevelsFor(rnd, x, min, iscale);
    forall i, j | 0 <= i < |x| && 0 <= j < |x| && x[i] <= x[j] ensures l[i] <= l[j] {
      ScaledMonotone(iscale, x[i] - min, x[j] - min);
      RoundingMonotone(rnd, Times(iscale, x[i] - min), Times(iscale, x[j] - min));
    }
  }

  lemma StepScalePositive(istep: nat, max: real, min: real)
    requires max > min
    ensures StepScale(istep, max, min) > 0.0
  {
    Quotient(RMIN + Times(RDELTA, istep as real) + 15.0, max - min);
  }

  lemma InitialIsGood(rnd: real -> int, w: seq<real>, x: seq<real>)
    requires |w| == |x| > 0 && Nearest(rnd) && MaxOf(x, |x|) != StartMin(x)
    ensures Good(w, x, Initial(rnd, w, x))
    ensures MaxOf(x, |x|) > StartMin(x)
  {
    hide Error, Times, Div, Nearest;
    var min, max := StartMin(x), MaxOf(x, |x|);
    assert MinOf(x, |x|) <= x[0] <= max;
    Quotient(15.0, max - min);
    Quotient(1.0, Div(15.0, max - min));
    LevelsForFollow(rnd, x, min, Div(15.0, max - min));
  }

  /**
   * One step keeps the best line good, never increases its error, and beats the candidate it looked at; a line it
   * accepts is the best for its levels.
   */
  lemma StepKeepsGood(rnd: real -> int, w: seq<real>, x: seq<real>, max: real, istep: nat, best: Best)
    requires |w| == |x| && NonNegative(w) && Nearest(rnd) && max > best.min && Good(w, x, best)
    ensures var next := TryStep(rnd, w, x, max, istep, best);
      && Good(w, x, next) && next.error <= best.error
      && (next == best || BestForItsLevels(w, x, next))
    ensures var l := LevelsFor(rnd, x, best.min, StepScale(istep, max, best.min)); var f := Fitted(w, x, l);
      f.Line? ==>
        && f.min <= 0.0 && f.scale >= 0.0
        && TryStep(rnd, w, x, max, istep, best).error <= Error(w, x, l, f.scale, f.min, |x|)
  {
    hide Error, Fitted, Nearest, StepScale, LevelsFollow;
    var l := LevelsFor(rnd, x, best.min, StepScale(istep, max, best.min));
    StepScalePositive(istep, max, best.min);
    LevelsForFollow(rnd, x, best.min, StepScale(istep, max, best.min));
    FittedScaleNonNegative(w, x, l);
    if Fitted(w, x, l).Line? {
      forall s, m | m <= 0.0
        ensures Fitted(w, x, l).min <= 0.0
             && Error(w, x, l, Fitted(w, x, l).scale, Fitted(w, x, l).min, |x|) <= Error(w, x, l, s, m, |x|)
      {
        FittedIsOptimal(w, x, l, s, m);
      }
      FittedIsOptimal(w, x, l, 0.0, 0.0);
    }
  }

  lemma {:induction false} SearchKeepsGood(rnd: real -> int, w: seq<real>, x: seq<real>, max: real, istep: nat,
                                           best: Best)
    requires |w| == |x| && NonNegative(w) && Nearest(rnd) && istep <= NSTEP + 1 && Good(w, x, best)
    ensures var r := Search(rnd, w, x, max, istep, best);
      Good(w, x, r) && r.error <= best.error && (r == best || BestForItsLevels(w, x, r))
    decreases NSTEP + 1 - istep
  {
    hide TryStep, Error, BestForItsLevels, Nearest, NonNegative, Levels;
    if istep <= NSTEP && max > best.min {
      StepKeepsGood(rnd, w, x, max, istep, best);
      SearchKeepsGood(rnd, w, x, max, istep + 1, TryStep(rnd, w, x, max, istep, best));
    }
  }

  /**
   * For every group and every non-negative weighting: the scale is not negative, the minimum not positive, the levels
   * fit four bits, and the error of the returned line is at most that of the plain min-max line; a line that replaced
   * the min-max line has the least error of all lines for its levels with a minimum that is not positive.
   */
  lemma QuantsAreGood(rnd: real -> int, w: seq<real>, x: seq<real>)
    requires |w| == |x| > 0 && NonNegative(w) && Nearest(rnd)
    ensures var r := Quants(rnd, w, x);
      && Levels(r.levels, |x|) && r.scale >= 0.0 && r.min <= 0.0
      && (MaxOf(x, |x|) != StartMin(x) ==>
            && Good(w, x, r)
            && r.error <= Initial(rnd, w, x).error
            && (r == Initial(rnd, w, x) || BestForItsLevels(w, x, r)))
  {
    hide Search, Initial, Error, BestForItsLevels, Nearest;
    if MaxOf(x, |x|) != StartMin(x) {
      InitialIsGood(rnd, w, x);
      SearchKeepsGood(rnd, w, x, MaxOf(x, |x|), 0, Initial(rnd, w, x));
    }
  }

  // ---------------------------------------------------------------- the loops

  /** The first loop: extremes and the weighted sums over the values. */
  method Extremes(x: seq<real>, w: seq<real>) returns (min: real, max: real, sumW: real, sumX: real)
    requires |w| == |x| > 0
    ensures min == MinOf(x, |x|) && max == MaxOf(x, |x|) && sumW == SumW(w, |x|) && sumX == SumX(w, x, |x|)
  {
    min, max := x[0], x[0];
    sumW := w[0];
    sumX := Times(sumW, x[0]);
    assert SumW(w, 1) == SumW(w, 0) + w[0] && SumX(w, x, 1) == SumX(w, x, 0) + Times(w[0], x[0]);
    for i := 1 to |x|
      invariant min == MinOf(x, i) && max == MaxOf(x, i) && sumW == SumW(w, i) && sumX == SumX(w, x, i)
    {
      if x[i] < min {
        min := x[i];
      }
      if x[i] > max {
        max := x[i];
      }
      sumW := sumW + w[i];
      sumX := sumX + Times(w[i], x[i]);
    }
  }

  /** The error loop. */
  method ComputeError(w: seq<real>, x: seq<real>, l: array<int>, s: real, m: real) returns (e: real)
    requires |w| == |x| == l.Length
    ensures e == Error(w, x, l[..], s, m, |x|)
  {
    e := 0.0;
    for i := 0 to |x|
      invariant e == Error(w, x, l[..], s, m, i)
    {
      var diff := Times(s, l[i] as real) + m - x[i];
      e := e + Times(w[i], Times(diff, diff));
    }
  }

  /** The candidate loop: levels and the sums over them. */
  method TryLevels(rnd: real -> int, w: seq<real>, x: seq<real>, min: real, iscale: real, aux: array<int>)
    returns (sumL: real, sumL2: real, sumXL: real)
    requires |w| == |x| == aux.Length
    modifies aux
    ensures aux[..] == LevelsFor(rnd, x, min, iscale)
    ensures sumL == SumL(w, aux[..], |x|) && sumL2 == SumL2(w, aux[..], |x|) && sumXL == SumXL(w, x, aux[..], |x|)
  {
    hide Times;
    sumL, sumL2, sumXL := 0.0, 0.0, 0.0;
    ghost var all := LevelsFor(rnd, x, min, iscale);
    for i := 0 to |x|
      invariant forall k :: 0 <= k < i ==> aux[k] == all[k]
      invariant sumL == SumL(w, all, i) && sumL2 == SumL2(w, all, i) && sumXL == SumXL(w, x, all, i)
    {
      var l := rnd(Times(iscale, x[i] - min));
      l := if l > NMAX then NMAX else l;
      l := if l < 0 then 0 else l;
      aux[i] := l;
      sumL := sumL + Times(w[i], l as real);
      sumL2 := sumL2 + Times(Times(w[i], l as real), l as real);
      sumXL := sumXL + Times(Times(w[i], l as real), x[i]);
    }
    assert aux[..] == all;
  }

  method CopyLevels(src: array<int>, dst: array<int>)
    requires src != dst && src.Length == dst.Length
    modifies dst
    ensures dst[..] == src[..]
  {
    for i := 0 to src.Length
      invariant dst[..i] == src[..i]
    {
      dst[i] := src[i];
    }
    assert dst[..] == dst[..dst.Length] && src[..] == src[..src.Length];
  }

  /** One round of the search: error, scale and minimum of the best line move together with its levels. */
  method SearchStep(rnd: real -> int, w: seq<real>, x: seq<real>, sumW: real, sumX: real, max: real, istep: nat,
                    levels: array<int>, aux: array<int>, scale: real, min: real, error: real)
    returns (scale1: real, min1: real, error1: real)
    requires |w| == |x| == levels.Length == aux.Length && levels != aux && NonNegative(w) && max > min
    requires sumW == SumW(w, |x|) && sumX == SumX(w, x, |x|)
    modifies levels, aux
    ensures Best(levels[..], scale1, min1, error1)
      == TryStep(rnd, w, x, max, istep, Best(old(levels[..]), scale, min, error))
  {
    hide Times, Div, Error, SumW, SumX, SumL, SumL2, SumXL, LevelsFor;
    scale1, min1, error1 := scale, min, error;
    var sumL, sumL2, sumXL := TryLevels(rnd, w, x, min, StepScale(istep, max, min), aux);
    ghost var l := aux[..];
    assert forall i :: 0 <= i < |l| ==> l[i] >= 0;
    SumsNonNegative(w, l, |x|);
    var d := sumW * sumL2 - sumL * sumL;
    assert d == Determinant(sumW, sumL, sumL2);
    assert sumW * sumXL - sumX * sumL == Covariance(sumW, sumX, sumL, sumXL);
    assert sumL2 * sumX - sumL * sumXL == Intercept(sumX, sumL, sumL2, sumXL);
    if d > 0.0 {
      DeterminantMeansWeight(sumW, sumL, sumL2);
      var thisScale := Div(sumW * sumXL - sumX * sumL, d);
      var thisMin := Div(sumL2 * sumX - sumL * sumXL, d);
      if thisMin > 0.0 {
        thisMin := 0.0;
        thisScale := Div(sumXL, sumL2);
      }
      assert Fitted(w, x, l) == Line(thisScale, thisMin);
      var e := ComputeError(w, x, aux, thisScale, thisMin);
      if e < error {
        CopyLevels(aux, levels);
        scale1, min1, error1 := thisScale, thisMin, e;
      }
    }
  }

  /** _make_qkx2_quants; theMin is the negated minimum. */
  method MakeQkx2Quants(rnd: real -> int, x: seq<real>, w: seq<real>)
    returns (levels: array<int>, theMin: real, scale: real)
    requires |x| == |w| == GROUP && NonNegative(w)
    ensures fresh(levels)
    ensures var r := Quants(rnd, w, x); levels[..] == r.levels && theMin == -r.min && scale == r.scale
  {
    hide Times, Div, Error, SumW, SumX, TryStep, LevelsFor, MinOf, MaxOf, NonNegative;
    var n := GROUP;
    levels := new int[n](_ => 0);
    var aux := new int[n](_ => 0);
    var min, max, sumW, sumX := Extremes(x, w);
    if min > 0.0 {
      min := 0.0;
    }
    if max == min {
      assert levels[..] == seq(|x|, i => 0);
      return levels, -min, 0.0;
    }
    var iscale := Div(15.0, max - min);
    scale := if iscale != 0.0 then Div(1.0, iscale) else 0.0;
    var l0, l1, l2 := TryLevels(rnd, w, x, min, iscale, levels);
    var error := ComputeError(w, x, levels, scale, min);
    ghost var all := Quants(rnd, w, x);
    var istep := 0;
    while istep < NSTEP + 1
      invariant istep <= NSTEP + 1 && all == Search(rnd, w, x, max, istep, Best(levels[..], scale, min, error))
    {
      if max <= min {
        break;
      }
      scale, min, error := SearchStep(rnd, w, x, sumW, sumX, max, istep, levels, aux, scale, min, error);
      istep := istep + 1;
    }
    theMin := -min;
  }
}
