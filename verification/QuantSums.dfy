/** Weighted sums over a group of values and its levels, and the least-squares facts the quantizer's search rests on. */
module QuantSums {

  // Products and quotients have names so that the inductive proofs can treat them as opaque terms.

  function Times(a: real, b: real): real { a * b }

  function Div(a: real, d: real): real
    requires d != 0.0
  {
    a / d
  }

  function SumW(w: seq<real>, n: nat): real
    requires n <= |w|
  {
    if n == 0 then 0.0 else SumW(w, n - 1) + w[n - 1]
  }

  function SumX(w: seq<real>, x: seq<real>, n: nat): real
    requires n <= |w| == |x|
  {
    if n == 0 then 0.0 else SumX(w, x, n - 1) + Times(w[n - 1], x[n - 1])
  }

  function SumL(w: seq<real>, l: seq<int>, n: nat): real
    requires n <= |w| == |l|
  {
    if n == 0 then 0.0 else SumL(w, l, n - 1) + Times(w[n - 1], l[n - 1] as real)
  }

  function SumL2(w: seq<real>, l: seq<int>, n: nat): real
    requires n <= |w| == |l|
  {
    if n == 0 then 0.0 else SumL2(w, l, n - 1) + Times(Times(w[n - 1], l[n - 1] as real), l[n - 1] as real)
  }

  function SumXL(w: seq<real>, x: seq<real>, l: seq<int>, n: nat): real
    requires n <= |w| == |x| == |l|
  {
    if n == 0 then 0.0 else SumXL(w, x, l, n - 1) + Times(Times(w[n - 1], l[n - 1] as real), x[n - 1])
  }

  function SumX2(w: seq<real>, x: seq<real>, n: nat): real
    requires n <= |w| == |x|
  {
    if n == 0 then 0.0 else SumX2(w, x, n - 1) + Times(w[n - 1], Times(x[n - 1], x[n - 1]))
  }

  /** The weighted squared error of representing each value by s * level + m. */
  function Error(w: seq<real>, x: seq<real>, l: seq<int>, s: real, m: real, n: nat): real
    requires n <= |w| == |x| == |l|
  {
    if n == 0 then 0.0
    else
      var diff := Times(s, l[n - 1] as real) + m - x[n - 1];
      Error(w, x, l, s, m, n - 1) + Times(w[n - 1], Times(diff, diff))
  }

  ghost predicate NonNegative(w: seq<real>) { forall i :: 0 <= i < |w| ==> w[i] >= 0.0 }

  /** Larger values have levels that are not smaller. */
  ghost predicate LevelsFollow(x: seq<real>, l: seq<int>)
    requires |x| == |l|
  {
    forall i, j :: 0 <= i < |x| && 0 <= j < |x| && x[i] <= x[j] ==> l[i] <= l[j]
  }

  // ---------------------------------------------------------------- arithmetic

  lemma ProductNonNegative(a: real, b: real)
    requires (a >= 0.0 && b >= 0.0) || (a <= 0.0 && b <= 0.0)
    ensures a * b >= 0.0 && Times(a, b) >= 0.0
  {
  }

  lemma ProductNegative(a: real, b: real)
    requires a > 0.0 && b < 0.0
    ensures a * b < 0.0
  {
  }

  /** The sign of a factor next to a positive one. */
  lemma OtherFactor(a: real, b: real)
    requires a > 0.0
    ensures (a * b > 0.0 <==> b > 0.0) && (a * b >= 0.0 <==> b >= 0.0)
  {
    if b < 0.0 {
      ProductNegative(a, b);
    } else {
      ProductNonNegative(a, b);
    }
  }

  lemma Quotient(a: real, d: real)
    requires d > 0.0
    ensures d * Div(a, d) == a && (Div(a, d) > 0.0 <==> a > 0.0) && (Div(a, d) >= 0.0 <==> a >= 0.0)
  {
    var q := Div(a, d);
    assert d * q == a;
    OtherFactor(d, q);
  }

  // ---------------------------------------------------------------- the error as a quadratic form

  /** The quadratic part: s^2 a + 2 s m b + m^2 c. */
  function Form(s: real, m: real, a: real, b: real, c: real): real { s * s * a + 2.0 * s * m * b + m * m * c }

  /** The whole: the quadratic part, less twice the linear part, plus the constant. */
  function Whole(s: real, m: real, a: real, b: real, c: real, p: real, q: real, r: real): real {
    Form(s, m, a, b, c) - 2.0 * (s * p + m * q) + r
  }

  lemma WholeStep(s: real, m: real, a: real, b: real, c: real, p: real, q: real, r: real, w: real, l: real, x: real,
                  a1: real, b1: real, c1: real, p1: real, q1: real, r1: real, diff: real, e: real)
    requires diff == Times(s, l) + m - x && e == Times(w, Times(diff, diff))
    requires a1 == a + Times(Times(w, l), l) && b1 == b + Times(w, l) && c1 == c + w
    requires p1 == p + Times(Times(w, l), x) && q1 == q + Times(w, x) && r1 == r + Times(w, Times(x, x))
    ensures Whole(s, m, a1, b1, c1, p1, q1, r1) == Whole(s, m, a, b, c, p, q, r) + e
  {
  }

  lemma FormStep(s: real, m: real, a: real, b: real, c: real, w: real, l: real, a1: real, b1: real, c1: real)
    requires a1 == a + Times(Times(w, l), l) && b1 == b + Times(w, l) && c1 == c + w
    ensures Form(s, m, a1, b1, c1) == Form(s, m, a, b, c) + Times(w, Times(Times(s, l) + m, Times(s, l) + m))
  {
  }

  ghost function WholeOf(w: seq<real>, x: seq<real>, l: seq<int>, s: real, m: real, n: nat): real
    requires n <= |w| == |x| == |l|
  {
    Whole(s, m, SumL2(w, l, n), SumL(w, l, n), SumW(w, n), SumXL(w, x, l, n), SumX(w, x, n), SumX2(w, x, n))
  }

  lemma {:induction false} ErrorExpands(w: seq<real>, x: seq<real>, l: seq<int>, s: real, m: real, n: nat)
    requires n <= |w| == |x| == |l|
    ensures Error(w, x, l, s, m, n) == WholeOf(w, x, l, s, m, n)
  {
    hide Whole, Times;
    if n == 0 {
      WholeOfZeros(s, m);
    } else {
      ErrorExpands(w, x, l, s, m, n - 1);
      var diff := Times(s, l[n - 1] as real) + m - x[n - 1];
      WholeStep(s, m, SumL2(w, l, n - 1), SumL(w, l, n - 1), SumW(w, n - 1), SumXL(w, x, l, n - 1), SumX(w, x, n - 1),
                SumX2(w, x, n - 1), w[n - 1], l[n - 1] as real, x[n - 1],
                SumL2(w, l, n), SumL(w, l, n), SumW(w, n), SumXL(w, x, l, n), SumX(w, x, n), SumX2(w, x, n), diff,
                Times(w[n - 1], Times(diff, diff)));
    }
  }

  lemma WholeOfZeros(s: real, m: real)
    ensures Whole(s, m, 0.0, 0.0, 0.0, 0.0, 0.0, 0.0) == 0.0 && Form(s, m, 0.0, 0.0, 0.0) == 0.0
  {
  }

  /** A weighted sum of squares is not negative. */
  lemma {:induction false} FormNonNegative(w: seq<real>, l: seq<int>, s: real, m: real, n: nat)
    requires n <= |w| == |l| && NonNegative(w)
    ensures Form(s, m, SumL2(w, l, n), SumL(w, l, n), SumW(w, n)) >= 0.0
  {
    hide Form, Times;
    if n == 0 {
      WholeOfZeros(s, m);
    } else {
      FormNonNegative(w, l, s, m, n - 1);
      var k := l[n - 1] as real;
      FormStep(s, m, SumL2(w, l, n - 1), SumL(w, l, n - 1), SumW(w, n - 1), w[n - 1], k,
               SumL2(w, l, n), SumL(w, l, n), SumW(w, n));
      WeightedSquare(w[n - 1], Times(s, k) + m);
    }
  }

  lemma WeightedSquare(u: real, v: real)
    requires u >= 0.0
    ensures Times(u, Times(v, v)) >= 0.0
  {
    ProductNonNegative(v, v);
    ProductNonNegative(u, v * v);
  }

  lemma {:induction false} SumsNonNegative(w: seq<real>, l: seq<int>, n: nat)
    requires n <= |w| == |l| && NonNegative(w) && forall i :: 0 <= i < |l| ==> l[i] >= 0
    ensures SumW(w, n) >= 0.0 && SumL(w, l, n) >= 0.0 && SumL2(w, l, n) >= 0.0
  {
    if n > 0 {
      SumsNonNegative(w, l, n - 1);
      var u, k := w[n - 1], l[n - 1] as real;
      ProductNonNegative(u, k);
      ProductNonNegative(Times(u, k), k);
    }
  }

  // ---------------------------------------------------------------- covariance

  function Cross(w: real, x: real, l: real, xl: real, v: real, k: real): real { xl - x * k - v * l + w * v * k }

  function Covariance(w: real, x: real, l: real, xl: real): real { w * xl - x * l }

  lemma CrossStep(w: real, x: real, l: real, xl: real, v: real, k: real, u: real, y: real, j: real,
                  w1: real, x1: real, l1: real, xl1: real, e: real)
    requires e == Times(u, Times(y - v, j - k))
    requires w1 == w + u && x1 == x + Times(u, y) && l1 == l + Times(u, j) && xl1 == xl + Times(Times(u, j), y)
    ensures Cross(w1, x1, l1, xl1, v, k) == Cross(w, x, l, xl, v, k) + e
  {
  }

  lemma CovarianceStep(w: real, x: real, l: real, xl: real, u: real, y: real, k: real,
                       w1: real, x1: real, l1: real, xl1: real)
    requires w1 == w + u && x1 == x + Times(u, y) && l1 == l + Times(u, k) && xl1 == xl + Times(Times(u, k), y)
    ensures Covariance(w1, x1, l1, xl1) == Covariance(w, x, l, xl) + Times(u, Cross(w, x, l, xl, y, k))
  {
  }

  /** One value and level against all values before it. */
  lemma {:induction false} CrossNonNegative(w: seq<real>, x: seq<real>, l: seq<int>, v: real, k: int, n: nat)
    requires n <= |w| == |x| == |l| && NonNegative(w)
    requires forall i :: 0 <= i < n ==> (x[i] <= v ==> l[i] <= k) && (x[i] >= v ==> l[i] >= k)
    ensures Cross(SumW(w, n), SumX(w, x, n), SumL(w, l, n), SumXL(w, x, l, n), v, k as real) >= 0.0
  {
    hide Cross, Times;
    if n == 0 {
      CrossOfZeros(v, k as real);
    } else {
      CrossNonNegative(w, x, l, v, k, n - 1);
      var y, j := x[n - 1], l[n - 1] as real;
      ProductNonNegative(y - v, j - k as real);
      ProductNonNegative(w[n - 1], Times(y - v, j - k as real));
      CrossStep(SumW(w, n - 1), SumX(w, x, n - 1), SumL(w, l, n - 1), SumXL(w, x, l, n - 1), v, k as real, w[n - 1], y,
                j, SumW(w, n), SumX(w, x, n), SumL(w, l, n), SumXL(w, x, l, n),
                Times(w[n - 1], Times(y - v, j - k as real)));
    }
  }

  lemma CrossOfZeros(v: real, k: real)
    ensures Cross(0.0, 0.0, 0.0, 0.0, v, k) == 0.0 && Covariance(0.0, 0.0, 0.0, 0.0) == 0.0
  {
  }

  /** Chebyshev: where levels follow values, the weighted covariance is not negative. */
  lemma {:induction false} CovarianceNonNegative(w: seq<real>, x: seq<real>, l: seq<int>, n: nat)
    requires n <= |w| == |x| == |l| && NonNegative(w) && LevelsFollow(x, l)
    ensures Covariance(SumW(w, n), SumX(w, x, n), SumL(w, l, n), SumXL(w, x, l, n)) >= 0.0
  {
    hide Cross, Covariance, Times;
    if n == 0 {
      CrossOfZeros(0.0, 0.0);
    } else {
      CovarianceNonNegative(w, x, l, n - 1);
      var w1, x1, l1, xl := SumW(w, n - 1), SumX(w, x, n - 1), SumL(w, l, n - 1), SumXL(w, x, l, n - 1);
      var y, k := x[n - 1], l[n - 1];
      CrossNonNegative(w, x, l, y, k, n - 1);
      ProductNonNegative(w[n - 1], Cross(w1, x1, l1, xl, y, k as real));
      CovarianceStep(w1, x1, l1, xl, w[n - 1], y, k as real, SumW(w, n), SumX(w, x, n), SumL(w, l, n),
                     SumXL(w, x, l, n));
    }
  }

  // ---------------------------------------------------------------- the fit

  datatype Line = NoLine | Line(scale: real, min: real)

  function Determinant(sw: real, sl: real, sl2: real): real { sw * sl2 - sl * sl }

  function Intercept(sx: real, sl: real, sl2: real, sxl: real): real { sl2 * sx - sl * sxl }

  /** With a determinant, weights and squared levels do not vanish. */
  lemma DeterminantMeansWeight(sw: real, sl: real, sl2: real)
    requires sw >= 0.0 && sl2 >= 0.0 && Determinant(sw, sl, sl2) > 0.0
    ensures sw > 0.0 && sl2 > 0.0
  {
    ProductNonNegative(sl, sl);
    assert sw * sl2 > 0.0;
  }

  /** The line from the sums: none without a positive determinant, and the minimum may not become positive. */
  function LineOf(sw: real, sx: real, sl: real, sl2: real, sxl: real): Line
    requires sw >= 0.0 && sl2 >= 0.0
  {
    var d := Determinant(sw, sl, sl2);
    if d <= 0.0 then NoLine
    else
      var scale, min := Div(Covariance(sw, sx, sl, sxl), d), Div(Intercept(sx, sl, sl2, sxl), d);
      if min > 0.0 then
        DeterminantMeansWeight(sw, sl, sl2);
        Line(Div(sxl, sl2), 0.0)
      else Line(scale, min)
  }

  /** The line through the levels of a group. */
  function Fitted(w: seq<real>, x: seq<real>, l: seq<int>): Line
    requires |w| == |x| == |l| && NonNegative(w) && forall i :: 0 <= i < |l| ==> l[i] >= 0
  {
    var n := |x|;
    SumsNonNegative(w, l, n);
    LineOf(SumW(w, n), SumX(w, x, n), SumL(w, l, n), SumL2(w, l, n), SumXL(w, x, l, n))
  }

  lemma NormalEquations(sw: real, sl: real, sl2: real, sx: real, sxl: real, d: real, s: real, m: real)
    requires d == Determinant(sw, sl, sl2) && d > 0.0
    requires d * s == Covariance(sw, sx, sl, sxl) && d * m == Intercept(sx, sl, sl2, sxl)
    ensures sl2 * s + sl * m == sxl && sl * s + sw * m == sx
  {
    var e := sl2 * s + sl * m - sxl;
    assert d * (sl2 * s + sl * m) == sl2 * (d * s) + sl * (d * m);
    assert d * e == 0.0;
    OtherFactor(d, e);
    OtherFactor(d, -e);
    var f := sl * s + sw * m - sx;
    assert d * (sl * s + sw * m) == sl * (d * s) + sw * (d * m);
    assert d * f == 0.0;
    OtherFactor(d, f);
    OtherFactor(d, -f);
  }

  /** First normal equation, sign of the minimum, and complementary slackness of the second. */
  lemma LineSolves(sw: real, sx: real, sl: real, sl2: real, sxl: real)
    requires sw >= 0.0 && sl2 >= 0.0 && LineOf(sw, sx, sl, sl2, sxl).Line?
    ensures var Line(s, m) := LineOf(sw, sx, sl, sl2, sxl);
      && sl2 * s + sl * m == sxl && m <= 0.0
      && (sl * s + sw * m == sx || (m == 0.0 && sl * s + sw * m <= sx))
  {
    hide Div, Determinant, Intercept, Covariance;
    var Line(s, m) := LineOf(sw, sx, sl, sl2, sxl);
    var d := Determinant(sw, sl, sl2);
    Quotient(Intercept(sx, sl, sl2, sxl), d);
    if Intercept(sx, sl, sl2, sxl) > 0.0 {
      DeterminantMeansWeight(sw, sl, sl2);
      Quotient(sxl, sl2);
      ClampedSlack(sx, sl, sl2, sxl, s);
    } else {
      Quotient(Covariance(sw, sx, sl, sxl), d);
      NormalEquations(sw, sl, sl2, sx, sxl, d, s, m);
    }
  }

  lemma ClampedSlack(sx: real, sl: real, sl2: real, sxl: real, s: real)
    requires sl2 > 0.0 && sl2 * s == sxl && Intercept(sx, sl, sl2, sxl) > 0.0
    ensures sl * s <= sx
  {
    assert sl2 * (sx - sl * s) == sl2 * sx - sl * (sl2 * s);
    OtherFactor(sl2, sx - sl * s);
  }

  /** How much worse another line is than one that solves the first normal equation. */
  lemma Worse(a: real, b: real, c: real, p: real, q: real, r: real, s: real, m: real, s0: real, m0: real, slack: real,
              t: real)
    requires a * s0 + b * m0 == p && slack == b * s0 + c * m0 - q && t == (m - m0) * slack
    ensures Whole(s, m, a, b, c, p, q, r) - Whole(s0, m0, a, b, c, p, q, r) == Form(s - s0, m - m0, a, b, c) + 2.0 * t
  {
  }

  lemma SlackHelps(m: real, m0: real, slack: real)
    requires m <= 0.0 && (slack == 0.0 || (m0 == 0.0 && slack <= 0.0))
    ensures (m - m0) * slack >= 0.0
  {
    if slack != 0.0 {
      ProductNonNegative(m - m0, slack);
    }
  }

  /** The fit is the best line for these levels among all with a minimum that is not positive, clamped or not. */
  lemma FittedIsOptimal(w: seq<real>, x: seq<real>, l: seq<int>, s: real, m: real)
    requires |w| == |x| == |l| && NonNegative(w) && (forall i :: 0 <= i < |l| ==> l[i] >= 0)
    requires Fitted(w, x, l).Line? && m <= 0.0
    ensures var f := Fitted(w, x, l);
      f.min <= 0.0 && Error(w, x, l, f.scale, f.min, |x|) <= Error(w, x, l, s, m, |x|)
  {
    hide LineOf, Form, Whole, SumW, SumX, SumL, SumL2, SumXL, SumX2, Error;
    var n, f := |x|, Fitted(w, x, l);
    var sw, sx, sl, sl2, sxl := SumW(w, n), SumX(w, x, n), SumL(w, l, n), SumL2(w, l, n), SumXL(w, x, l, n);
    SumsNonNegative(w, l, n);
    LineSolves(sw, sx, sl, sl2, sxl);
    ErrorExpands(w, x, l, s, m, n);
    ErrorExpands(w, x, l, f.scale, f.min, n);
    var slack := sl * f.scale + sw * f.min - sx;
    Worse(sl2, sl, sw, sxl, sx, SumX2(w, x, n), s, m, f.scale, f.min, slack, (m - f.min) * slack);
    FormNonNegative(w, l, s - f.scale, m - f.min, n);
    SlackHelps(m, f.min, slack);
  }

  /** Where levels follow values, the fitted scale is not negative, clamped or not. */
  lemma FittedScaleNonNegative(w: seq<real>, x: seq<real>, l: seq<int>)
    requires |w| == |x| == |l| && NonNegative(w) && LevelsFollow(x, l) && forall i :: 0 <= i < |l| ==> l[i] >= 0
    ensures Fitted(w, x, l).Line? ==> Fitted(w, x, l).scale >= 0.0
  {
    hide LineOf, SumW, SumX, SumL, SumL2, SumXL;
    var n := |x|;
    CovarianceNonNegative(w, x, l, n);
    SumsNonNegative(w, l, n);
    ScaleOfLine(SumW(w, n), SumX(w, x, n), SumL(w, l, n), SumL2(w, l, n), SumXL(w, x, l, n));
  }

  lemma ScaleOfLine(sw: real, sx: real, sl: real, sl2: real, sxl: real)
    requires sw >= 0.0 && sl >= 0.0 && sl2 >= 0.0 && Covariance(sw, sx, sl, sxl) >= 0.0
    ensures LineOf(sw, sx, sl, sl2, sxl).Line? ==> LineOf(sw, sx, sl, sl2, sxl).scale >= 0.0
  {
    hide Div, Determinant, Intercept, Covariance;
    var d, cov, m := Determinant(sw, sl, sl2), Covariance(sw, sx, sl, sxl), Intercept(sx, sl, sl2, sxl);
    if d > 0.0 {
      DeterminantMeansWeight(sw, sl, sl2);
      Quotient(cov, d);
      Quotient(m, d);
      Quotient(sxl, sl2);
      if m > 0.0 {
        ClampedNumerator(sw, sx, sl, sl2, sxl);
        assert LineOf(sw, sx, sl, sl2, sxl) == Line(Div(sxl, sl2), 0.0);
      } else {
        assert LineOf(sw, sx, sl, sl2, sxl) == Line(Div(cov, d), Div(m, d));
      }
    }
  }

  /** If the unconstrained minimum is positive, the numerator of the clamped scale is not negative. */
  lemma ClampedNumerator(sw: real, sx: real, sl: real, sl2: real, sxl: real)
    requires sw > 0.0 && sl >= 0.0 && Determinant(sw, sl, sl2) > 0.0
    requires Covariance(sw, sx, sl, sxl) >= 0.0 && Intercept(sx, sl, sl2, sxl) > 0.0
    ensures sxl >= 0.0
  {
    var d, m, cov := Determinant(sw, sl, sl2), Intercept(sx, sl, sl2, sxl), Covariance(sw, sx, sl, sxl);
    OtherFactor(sw, m);
    ProductNonNegative(sl, cov);
    assert d * sx == sw * m + sl * cov;
    OtherFactor(d, sx);
    ProductNonNegative(sx, sl);
    OtherFactor(sw, sxl);
  }
}
