/**
 * What the quantizer chooses for a block, in plain numbers: the two maxima, the six-bit quantities, the decoded
 * values.
 */
module Q4Choice {
  import opened QuantSums
  import opened QuantSearch
  import opened Q4Block
  import opened Q4Quantize

  /** The scale of group j, and the negated minimum: what the search found. */
  ghost function GroupScale(c: Numerics, x: seq<real>, j: nat): real
    requires Sound(c) && |x| == QK_K && j < GROUPS
  {
    GroupQuants(c, x, j).scale
  }

  ghost function GroupMin(c: Numerics, x: seq<real>, j: nat): real
    requires Sound(c) && |x| == QK_K && j < GROUPS
  {
    -GroupQuants(c, x, j).min
  }

  lemma GroupsNonNegative(c: Numerics, x: seq<real>, j: nat)
    requires Sound(c) && |x| == QK_K && j < GROUPS
    ensures GroupScale(c, x, j) >= 0.0 && GroupMin(c, x, j) >= 0.0
  {
    hide GroupQuants, Sound;
    var r := GroupQuants(c, x, j);
    assert GroupResult(c, x, j, r.levels, -r.min, r.scale);
    GroupResultInRange(c, x, j, r.levels, -r.min, r.scale);
  }

  /** What the search of group j works on: 32 elements, each weighted by their root mean square plus its own size. */
  lemma GroupSearched(c: Numerics, x: seq<real>, j: nat)
    requires Sound(c) && |x| == QK_K && j < GROUPS
    ensures var g := x[32 * j..32 * j + 32]; var w := Weights(c, g);
      && GroupQuants(c, x, j) == Quants(c.nearest, w, g)
      && forall i :: 0 <= i < 32 ==> w[i] == c.root(SumSquares(g, 32) / 32.0) + if g[i] < 0.0 then -g[i] else g[i]
  {
    hide Quants, SumSquares;
    var g := x[32 * j..32 * j + 32];
    assert g == GroupOf(x, j);
    assert Div(SumSquares(g, 32), 32.0) == SumSquares(g, 32) / 32.0;
  }

  /** The sum of squares, element by element. */
  lemma SumSquaresStep(g: seq<real>, n: nat)
    requires n < |g|
    ensures SumSquares(g, 0) == 0.0 && SumSquares(g, n + 1) == SumSquares(g, n) + g[n] * g[n]
  {
  }

  // ---------------------------------------------------------------- the maxima

  lemma {:induction false} MaxScaleIsMax(c: Numerics, x: seq<real>, n: nat)
    requires Sound(c) && |x| == QK_K && n <= GROUPS
    ensures forall j :: 0 <= j < n ==> GroupScale(c, x, j) <= MaxScale(c, x, n)
    ensures MaxScale(c, x, n) == 0.0 || exists j :: 0 <= j < n && GroupScale(c, x, j) == MaxScale(c, x, n)
  {
    hide GroupQuants, Sound;
    if n > 0 {
      MaxScaleIsMax(c, x, n - 1);
      assert GroupScale(c, x, n - 1) <= MaxScale(c, x, n);
    }
  }

  lemma {:induction false} MaxMinIsMax(c: Numerics, x: seq<real>, n: nat)
    requires Sound(c) && |x| == QK_K && n <= GROUPS
    ensures forall j :: 0 <= j < n ==> GroupMin(c, x, j) <= MaxMin(c, x, n)
    ensures MaxMin(c, x, n) == 0.0 || exists j :: 0 <= j < n && GroupMin(c, x, j) == MaxMin(c, x, n)
  {
    hide GroupQuants, Sound;
    if n > 0 {
      MaxMinIsMax(c, x, n - 1);
      assert GroupMin(c, x, n - 1) <= MaxMin(c, x, n);
    }
  }

  // ---------------------------------------------------------------- six bits

  /**
   * l is v in units of max / 63, to within half a unit; the maximum itself is 63, and 0 is 0 where the maximum is 0.
   */
  ghost predicate Close(l: int, v: real, max: real) {
    && -max / 2.0 <= 63.0 * v - l as real * max <= max / 2.0
    && (v == max && max > 0.0 ==> l == 63) && (max == 0.0 ==> l == 0)
  }

  lemma SixBitsAreClose(round: real -> int, max: real, v: real)
    requires Nearest(round) && 0.0 <= v <= max
    ensures Close(SixBits(round, Inverse(max), v), v, max)
  {
    hide Times, Div, Nearest;
    var inv := Inverse(max);
    var u := Times(inv, v);
    RoundedIsClose(round, u);
    if max > 0.0 {
      Quotient(63.0, max);
      assert u == inv * v && max * inv == 63.0 by { ProductIs(inv, v); }
      assert max * u == 63.0 * v by { Regroup(max, inv, v); }
      BelowTop(max, u, v);
      ScaledGap(max, u, round(u) as real);
    } else {
      assert v == 0.0 && inv == 0.0;
      assert u == 0.0 by { ProductIs(0.0, 0.0); }
    }
  }

  lemma RoundedIsClose(round: real -> int, u: real)
    requires Nearest(round)
    ensures u - 0.5 <= round(u) as real <= u + 0.5
  {
  }

  lemma ProductIs(a: real, b: real)
    ensures Times(a, b) == a * b
  {
  }

  lemma Regroup(max: real, inv: real, v: real)
    requires max * inv == 63.0
    ensures max * (inv * v) == 63.0 * v
  {
    assert max * (inv * v) == (max * inv) * v;
  }

  lemma BelowTop(max: real, u: real, v: real)
    requires max > 0.0 && v <= max && max * u == 63.0 * v
    ensures u <= 63.0 && (v == max ==> u == 63.0)
  {
    assert max * (u - 63.0) == max * u - max * 63.0 && max * (63.0 - u) == max * 63.0 - max * u;
    if u > 63.0 {
      ProductPositive(max, u - 63.0);
    }
    if v == max && u < 63.0 {
      ProductPositive(max, 63.0 - u);
    }
  }

  lemma ProductPositive(a: real, b: real)
    requires a > 0.0 && b > 0.0
    ensures a * b > 0.0
  {
  }

  lemma ScaledGap(max: real, u: real, l: real)
    requires max > 0.0 && u - 0.5 <= l <= u + 0.5
    ensures -max / 2.0 <= max * u - l * max <= max / 2.0
  {
    ProductNonNegative(max, u + 0.5 - l);
    ProductNonNegative(max, l - (u - 0.5));
    assert max * (u + 0.5 - l) == max * u - l * max + max / 2.0;
    assert max * (l - (u - 0.5)) == l * max - max * u + max / 2.0;
  }

  // ---------------------------------------------------------------- a whole block

  /**
   * The block stores the largest scale s and the largest negated minimum m of its groups, both divided by 63, as half
   * floats; every group's scale and minimum in units of these, to within half a unit; and some group attains 63.
   */
  lemma BlockScales(c: Numerics, x: seq<real>, b: Block) returns (s: real, m: real)
    requires Sound(c) && |x| == QK_K && Sized(b) && IsQuantized(c, x, b)
    ensures s >= 0.0 && m >= 0.0
    ensures forall j :: 0 <= j < GROUPS ==> GroupQuants(c, x, j).scale <= s && -GroupQuants(c, x, j).min <= m
    ensures s == 0.0 || exists j :: 0 <= j < GROUPS && GroupQuants(c, x, j).scale == s
    ensures m == 0.0 || exists j :: 0 <= j < GROUPS && -GroupQuants(c, x, j).min == m
    ensures b.d == c.toHalf(s / 63.0) && b.dmin == c.toHalf(m / 63.0)
    ensures forall j :: 0 <= j < GROUPS ==>
      var (ls, lm) := ScaleMin(j, b.scales);
      Close(ls as int, GroupQuants(c, x, j).scale, s) && Close(lm as int, -GroupQuants(c, x, j).min, m)
    ensures if s > 0.0 then exists j :: 0 <= j < GROUPS && ScaleMin(j, b.scales).0 == 63
            else forall j :: 0 <= j < GROUPS ==> ScaleMin(j, b.scales).0 == 0
    ensures if m > 0.0 then exists j :: 0 <= j < GROUPS && ScaleMin(j, b.scales).1 == 63
            else forall j :: 0 <= j < GROUPS ==> ScaleMin(j, b.scales).1 == 0
  {
    hide GroupQuants, Sound, MaxScale, MaxMin, ScaleMin, Quantized, Holds, Close, Div, GroupScale, GroupMin;
    s, m := MaxScale(c, x, GROUPS), MaxMin(c, x, GROUPS);
    MaxScaleIsMax(c, x, GROUPS);
    MaxMinIsMax(c, x, GROUPS);
    var p := PlainOf(c, x, b);
    forall j | 0 <= j < GROUPS
      ensures var (ls, lm) := ScaleMin(j, b.scales);
        && Close(ls as int, GroupScale(c, x, j), s) && Close(lm as int, GroupMin(c, x, j), m)
        && GroupScale(c, x, j) == GroupQuants(c, x, j).scale && GroupMin(c, x, j) == -GroupQuants(c, x, j).min
    {
      GroupIsPacked(c, x, b, p, j);
      GroupValues(c, x, j);
    }
    if s > 0.0 {
      var j :| 0 <= j < GROUPS && GroupScale(c, x, j) == s;
      CloseTop(ScaleMin(j, b.scales).0, s);
    }
    if m > 0.0 {
      var j :| 0 <= j < GROUPS && GroupMin(c, x, j) == m;
      CloseTop(ScaleMin(j, b.scales).1, m);
    }
    forall j | 0 <= j < GROUPS
      ensures (s == 0.0 ==> ScaleMin(j, b.scales).0 == 0) && (m == 0.0 ==> ScaleMin(j, b.scales).1 == 0)
    {
      CloseZero(ScaleMin(j, b.scales).0, GroupScale(c, x, j), s);
      CloseZero(ScaleMin(j, b.scales).1, GroupMin(c, x, j), m);
    }
  }

  lemma CloseTop(l: bv8, max: real)
    requires Close(l as int, max, max) && max > 0.0
    ensures l == 63
  {
  }

  lemma CloseZero(l: bv8, v: real, max: real)
    requires Close(l as int, v, max)
    ensures max == 0.0 ==> l == 0
  {
  }

  lemma GroupValues(c: Numerics, x: seq<real>, j: nat)
    requires Sound(c) && |x| == QK_K && j < GROUPS
    ensures GroupScale(c, x, j) == GroupQuants(c, x, j).scale && GroupMin(c, x, j) == -GroupQuants(c, x, j).min
  {
  }

  lemma DivIs(v: real)
    ensures Div(v, 63.0) == v / 63.0
  {
  }

  /** The integers behind a quantized block. */
  lemma PlainOf(c: Numerics, x: seq<real>, b: Block) returns (p: Plain)
    requires Sound(c) && |x| == QK_K && IsQuantized(c, x, b)
    ensures PlainOk(p) && Holds(b, p) && Quantized(c, x, b, p)
    ensures b.d == c.toHalf(MaxScale(c, x, GROUPS) / 63.0) && b.dmin == c.toHalf(MaxMin(c, x, GROUPS) / 63.0)
  {
    hide GroupQuants, ScalesChosen, ElementChosen, PackedUpTo, PackedByte, MaxScale, MaxMin, Sound, Div;
    DivIs(MaxScale(c, x, GROUPS));
    DivIs(MaxMin(c, x, GROUPS));
    p :| Holds(b, p) && Quantized(c, x, b, p);
  }

  lemma ChosenOf(c: Numerics, x: seq<real>, b: Block, p: Plain, j: nat)
    requires Sound(c) && |x| == QK_K && PlainOk(p) && Holds(b, p) && Quantized(c, x, b, p) && j < GROUPS
    ensures ScaleMin(j, b.scales) == (p.ls[j], p.lm[j])
    ensures p.ls[j] as int == SixBits(c.round, Inverse(MaxScale(c, x, GROUPS)), GroupScale(c, x, j))
    ensures p.lm[j] as int == SixBits(c.round, Inverse(MaxMin(c, x, GROUPS)), GroupMin(c, x, j))
  {
    hide GroupQuants, SixBits, Inverse, Nearest, MaxScale, MaxMin, ScaleMin, ElementChosen, PackedUpTo, Div;
    UnpacksScales(b.scales, p.ls, p.lm, j);
    assert ScalesChosen(c, x, p, j);
  }

  lemma GroupIsPacked(c: Numerics, x: seq<real>, b: Block, p: Plain, j: nat)
    requires Sound(c) && |x| == QK_K && Sized(b) && PlainOk(p) && Holds(b, p) && Quantized(c, x, b, p) && j < GROUPS
    ensures var (ls, lm) := ScaleMin(j, b.scales);
      && Close(ls as int, GroupScale(c, x, j), MaxScale(c, x, GROUPS))
      && Close(lm as int, GroupMin(c, x, j), MaxMin(c, x, GROUPS))
  {
    hide SixBits, Inverse, MaxScale, MaxMin, ScaleMin, Quantized, Holds, Close, GroupScale, GroupMin, Nearest;
    SoundParts(c);
    ChosenOf(c, x, b, p, j);
    MaxScaleIsMax(c, x, GROUPS);
    MaxMinIsMax(c, x, GROUPS);
    GroupsNonNegative(c, x, j);
    SixBitsAreClose(c.round, MaxScale(c, x, GROUPS), GroupScale(c, x, j));
    SixBitsAreClose(c.round, MaxMin(c, x, GROUPS), GroupMin(c, x, j));
  }

  // ---------------------------------------------------------------- decoded values

  /** In a group whose step is 0 every element decodes to the group's packed minimum. */
  lemma FlatGroupDecodes(c: Numerics, b: Block, e: nat)
    requires Sized(b) && e < QK_K && Times(c.fromHalf(b.d), ScaleMin(e / 32, b.scales).0 as int as real) == 0.0
    ensures Q4Value(c.fromHalf, b, e) == -Times(c.fromHalf(b.dmin), ScaleMin(e / 32, b.scales).1 as int as real)
  {
    hide ScaleMin, Level, Times;
    ZeroTimes(Level(b.qs, e) as int as real);
  }

  lemma ZeroTimes(q: real)
    ensures Times(0.0, q) == 0.0 && Times(q, 0.0) == 0.0
  {
  }

  lemma {:induction false} ConstantExtremes(x: seq<real>, n: nat, v: real)
    requires 0 < n <= |x| && forall i :: 0 <= i < n ==> x[i] == v
    ensures MinOf(x, n) == v && MaxOf(x, n) == v
  {
    if n > 1 {
      ConstantExtremes(x, n - 1, v);
    }
  }

  /** A block of one negative value has step 0 everywhere, and every element decodes to that value up to rounding. */
  lemma ConstantBlockDecodes(c: Numerics, x: seq<real>, b: Block, v: real, e: nat)
    requires Sound(c) && |x| == QK_K && Sized(b) && IsQuantized(c, x, b) && e < QK_K
    requires v < 0.0 && forall i :: 0 <= i < QK_K ==> x[i] == v
    ensures b.dmin == c.toHalf(-v / 63.0) && Q4Value(c.fromHalf, b, e) == -Times(c.fromHalf(c.toHalf(-v / 63.0)), 63.0)
  {
    hide ScaleMin, Sound, IsQuantized, GroupQuants, Q4Value, Times, Close;
    forall j | 0 <= j < GROUPS ensures GroupQuants(c, x, j).scale == 0.0 && GroupQuants(c, x, j).min == v {
      ConstantGroup(c, x, v, j);
    }
    var s, m := BlockScales(c, x, b);
    assert s == 0.0 && m == -v;
    var (ls, lm) := ScaleMin(e / 32, b.scales);
    CloseTop(lm, m);
    ZeroTimes(c.fromHalf(b.d));
    FlatGroupDecodes(c, b, e);
  }

  lemma ConstantGroup(c: Numerics, x: seq<real>, v: real, j: nat)
    requires Sound(c) && |x| == QK_K && j < GROUPS && v < 0.0 && forall i :: 0 <= i < QK_K ==> x[i] == v
    ensures GroupQuants(c, x, j).scale == 0.0 && GroupQuants(c, x, j).min == v
  {
    hide Search, Initial, Weights, Sound;
    ConstantExtremes(GroupOf(x, j), GROUP, v);
  }

  // ---------------------------------------------------------------- the layout of a block

  /** The twelve bytes of scales: six low bits each of the first four pairs under the top bits of the other four. */
  lemma ScaleLayout(out: seq<bv8>, ls: seq<bv8>, lm: seq<bv8>, k: nat)
    requires |out| == 12 && |ls| == |lm| == 8 && PackedUpTo(out, ls, lm, 8) && k < 4
    ensures out[k] == ls[k] | ((ls[k + 4] >> 4) << 6)
    ensures out[k + 4] == lm[k] | ((lm[k + 4] >> 4) << 6)
    ensures out[k + 8] == (ls[k + 4] & 0x0f) | ((lm[k + 4] & 0x0f) << 4)
  {
    assert PackedAt(out, ls, lm, GROUPS, k);
  }

  /** Each 32 bytes hold 64 levels: the first 32 in the low halves, the others in the high halves. */
  lemma LevelLayout(levels: seq<bv8>, c: nat, l: nat)
    requires |levels| == 256 && c < 4 && l < 32
    ensures PackedByte(levels, 32 * c + l) == levels[64 * c + l] | (levels[64 * c + l + 32] << 4)
  {
    assert (32 * c + l) / 32 == c && (32 * c + l) % 32 == l;
  }

  /** Both decoders: the scale times the level, minus the minimum, in units of the block's two half floats. */
  lemma DecodedValue(half: bv16 -> real, b: Block, e: nat)
    requires Sized(b) && e < 256
    ensures var (scale, minimum) := ScaleMin(e / 32, b.scales);
      Q4Value(half, b, e)
        == Times(Times(half(b.d), scale as int as real), Level(b.qs, e) as int as real)
           - Times(half(b.dmin), minimum as int as real)
  {
    hide Times, ScaleMin, Level;
  }

  lemma LevelBits(q: seq<bv8>, c: nat, l: nat)
    requires |q| == 128 && c < 4 && l < 32
    ensures Level(q, 64 * c + l) == q[32 * c + l] & 0x0f && Level(q, 64 * c + 32 + l) == q[32 * c + l] >> 4
  {
    assert (64 * c + l) / 32 == 2 * c && (64 * c + l) % 32 == l;
    assert (64 * c + 32 + l) / 32 == 2 * c + 1 && (64 * c + 32 + l) % 32 == l;
  }
}
