/** Quantizing a block and a row to Q4_K (tools/qwen3_q4.py), and what decoding them returns. */
module Q4Quantize {
  import opened QuantSums
  import opened QuantSearch
  import opened Q4Block

  /**
   * The numeric primitives: the two roundings, the square root, and the conversions to and from half precision.
   */
  datatype Numerics = Numerics(nearest: real -> int, round: real -> int, root: real -> real,
                               toHalf: real -> bv16, fromHalf: bv16 -> real)

  ghost predicate Sound(c: Numerics) {
    && Nearest(c.nearest) && Nearest(c.round)
    && (forall v :: v >= 0.0 ==> c.root(v) >= 0.0)
    && (forall v :: v >= 0.0 ==> c.fromHalf(c.toHalf(v)) >= 0.0)
  }

  // ---------------------------------------------------------------- groups

  function GroupOf(x: seq<real>, j: nat): (g: seq<real>)
    requires |x| == QK_K && j < GROUPS
    ensures |g| == GROUP
  {
    x[32 * j..32 * j + 32]
  }

  function Abs(v: real): real { if v < 0.0 then -v else v }

  function SumSquares(g: seq<real>, n: nat): (s: real)
    requires n <= |g|
    ensures s >= 0.0
  {
    if n == 0 then 0.0
    else
      ProductNonNegative(g[n - 1], g[n - 1]);
      SumSquares(g, n - 1) + Times(g[n - 1], g[n - 1])
  }

  function Weights(c: Numerics, g: seq<real>): (w: seq<real>)
    ensures |w| == |g|
  {
    seq(|g|, i requires 0 <= i < |g| => c.root(Div(SumSquares(g, |g|), 32.0)) + Abs(g[i]))
  }

  lemma WeightsNonNegative(c: Numerics, g: seq<real>)
    requires Sound(c)
    ensures NonNegative(Weights(c, g))
  {
    hide Div, SumSquares;
    Quotient(SumSquares(g, |g|), 32.0);
  }

  /** The search result of group j. */
  ghost function GroupQuants(c: Numerics, x: seq<real>, j: nat): Best
    requires Sound(c) && |x| == QK_K && j < GROUPS
  {
    var g := GroupOf(x, j);
    WeightsNonNegative(c, g);
    Quants(c.nearest, Weights(c, g), g)
  }

  ghost predicate GroupResult(c: Numerics, x: seq<real>, j: nat, levels: seq<int>, m: real, s: real)
    requires Sound(c) && |x| == QK_K && j < GROUPS
  {
    var r := GroupQuants(c, x, j);
    levels == r.levels && m == -r.min && s == r.scale
  }

  /** The running maxima of quantize_q4_k_block over the first n groups. */
  ghost function MaxScale(c: Numerics, x: seq<real>, n: nat): (r: real)
    requires Sound(c) && |x| == QK_K && n <= GROUPS
    ensures r >= 0.0
  {
    if n == 0 then 0.0
    else
      var rest, s := MaxScale(c, x, n - 1), GroupQuants(c, x, n - 1).scale;
      if s > rest then s else rest
  }

  ghost function MaxMin(c: Numerics, x: seq<real>, n: nat): (r: real)
    requires Sound(c) && |x| == QK_K && n <= GROUPS
    ensures r >= 0.0
  {
    if n == 0 then 0.0
    else
      var rest, m := MaxMin(c, x, n - 1), -GroupQuants(c, x, n - 1).min;
      if m > rest then m else rest
  }

  /**
   * Throughout the search the scale stays at least 0 and the minimum at most 0, so both packed quantities are not
   * negative.
   */
  lemma GroupResultInRange(c: Numerics, x: seq<real>, j: nat, levels: seq<int>, m: real, s: real)
    requires Sound(c) && |x| == QK_K && j < GROUPS && GroupResult(c, x, j, levels, m, s)
    ensures Levels(levels, GROUP) && m >= 0.0 && s >= 0.0
  {
    hide Quants, Nearest;
    var g := GroupOf(x, j);
    WeightsNonNegative(c, g);
    assert Nearest(c.nearest) by { SoundParts(c); }
    QuantsAreGood(c.nearest, Weights(c, g), g);
  }

  lemma SoundParts(c: Numerics)
    requires Sound(c)
    ensures Nearest(c.nearest) && Nearest(c.round)
  {
  }

  method ComputeWeights(c: Numerics, g: seq<real>) returns (w: seq<real>)
    requires |g| == GROUP
    ensures w == Weights(c, g)
  {
    hide Times, Div;
    var sum := 0.0;
    for i := 0 to |g|
      invariant sum == SumSquares(g, i)
    {
      sum := sum + Times(g[i], g[i]);
    }
    var av := c.root(Div(sum, 32.0));
    w := seq(|g|, i requires 0 <= i < |g| => av + Abs(g[i]));
  }

  // ---------------------------------------------------------------- six-bit scales

  /** min(63, round(inv * v)): there is no clamp from below. */
  function SixBits(round: real -> int, inv: real, v: real): int {
    var l := round(Times(inv, v));
    if 63 < l then 63 else l
  }

  function Inverse(max: real): real { if max > 0.0 then Div(63.0, max) else 0.0 }

  /** The packed quantity fits six bits because the search keeps its argument from being negative. */
  lemma SixBitsFit(round: real -> int, max: real, v: real)
    requires Nearest(round) && v >= 0.0
    ensures 0 <= SixBits(round, Inverse(max), v) <= 63
  {
    hide Times, Div;
    if max > 0.0 {
      Quotient(63.0, max);
    }
    ProductNonNegative(Inverse(max), v);
    var u := Times(Inverse(max), v);
    assert u - 0.5 <= round(u) as real;
  }

  /** And a negative argument would really be packed as a negative number. */
  lemma NegativeWouldNotFit(round: real -> int, inv: real, v: real)
    requires Nearest(round) && Times(inv, v) < -0.5
    ensures SixBits(round, inv, v) < 0
  {
    var u := Times(inv, v);
    assert round(u) as real <= u + 0.5;
  }

  // ---------------------------------------------------------------- final levels

  /** The level an element gets in the end. */
  function FinalLevel(nearest: real -> int, v: real, dd: real, dm: real, searched: int): int {
    if dd == 0.0 then searched else Clamp(nearest(Div(v + dm, dd)))
  }

  function Distance(a: real, b: real): real { Abs(a - b) }

  /** Rounding and clamping gives the nearest of the sixteen levels. */
  lemma ClampedIsNearest(nearest: real -> int, t: real, k: int)
    requires Nearest(nearest) && 0 <= k <= NMAX
    ensures Distance(Clamp(nearest(t)) as real, t) <= Distance(k as real, t)
  {
    var r := nearest(t);
    assert t - 0.5 <= r as real <= t + 0.5;
  }

  /** Scaled back: among the sixteen values of the group none is closer to the element. */
  lemma FinalLevelIsNearest(nearest: real -> int, v: real, dd: real, dm: real, searched: int, k: int)
    requires Nearest(nearest) && dd > 0.0 && 0 <= k <= NMAX
    ensures var q := FinalLevel(nearest, v, dd, dm, searched);
      Distance(Times(dd, q as real) - dm, v) <= Distance(Times(dd, k as real) - dm, v)
  {
    hide Nearest;
    var t := Div(v + dm, dd);
    ClampedIsNearest(nearest, t, k);
    Quotient(v + dm, dd);
    ScaledDistance(dd, Clamp(nearest(t)) as real, t, v + dm);
    ScaledDistance(dd, k as real, t, v + dm);
    ProductMonotone(dd, Distance(Clamp(nearest(t)) as real, t), Distance(k as real, t));
    Shifted(Times(dd, Clamp(nearest(t)) as real), dm, v);
    Shifted(Times(dd, k as real), dm, v);
  }

  lemma ScaledDistance(dd: real, q: real, t: real, u: real)
    requires dd > 0.0 && dd * t == u
    ensures Distance(Times(dd, q), u) == Times(dd, Distance(q, t))
  {
    var e := q - t;
    assert Times(dd, q) - u == dd * e;
    if e < 0.0 {
      ProductNegative(dd, e);
      assert dd * -e == -(dd * e);
    } else {
      ProductNonNegative(dd, e);
    }
  }

  lemma ProductMonotone(dd: real, a: real, b: real)
    requires dd > 0.0 && a <= b
    ensures Times(dd, a) <= Times(dd, b)
  {
    ProductNonNegative(dd, b - a);
  }

  lemma Shifted(u: real, dm: real, v: real)
    ensures Distance(u - dm, v) == Distance(u, v + dm)
  {
  }

  // ---------------------------------------------------------------- a quantized block

  /** The integers behind a block, before packing. */
  datatype Plain = Plain(ls: seq<bv8>, lm: seq<bv8>, levels: seq<bv8>)

  ghost predicate PlainOk(p: Plain) { SixBit(p.ls) && SixBit(p.lm) && FourBit(p.levels) }

  /** The block holds exactly these integers, packed. */
  ghost predicate Holds(b: Block, p: Plain) {
    && Sized(b) && PlainOk(p)
    && PackedUpTo(b.scales, p.ls, p.lm, GROUPS)
    && forall k :: 0 <= k < 128 ==> b.qs[k] == PackedByte(p.levels, k)
  }

  function Step(c: Numerics, b: Block, ls: bv8): real { Times(c.fromHalf(b.d), ls as int as real) }

  function Offset(c: Numerics, b: Block, lm: bv8): real { Times(c.fromHalf(b.dmin), lm as int as real) }

  /**
   * The integers are the ones the quantizer chooses: scales and minima of the search in units of 1/63 of their maxima,
   * and for each element its nearest level, or the level of the search where the step is 0.
   */
  ghost predicate Quantized(c: Numerics, x: seq<real>, b: Block, p: Plain)
    requires Sound(c) && |x| == QK_K && PlainOk(p)
  {
    && b.d == c.toHalf(Div(MaxScale(c, x, GROUPS), 63.0)) && b.dmin == c.toHalf(Div(MaxMin(c, x, GROUPS), 63.0))
    && (forall j :: 0 <= j < GROUPS ==> ScalesChosen(c, x, p, j))
    && (forall e :: 0 <= e < QK_K ==> ElementChosen(c, x, b, p, e))
  }

  ghost predicate ScalesChosen(c: Numerics, x: seq<real>, p: Plain, j: nat)
    requires Sound(c) && |x| == QK_K && PlainOk(p) && j < GROUPS
  {
    var r := GroupQuants(c, x, j);
    && p.ls[j] as int == SixBits(c.round, Inverse(MaxScale(c, x, GROUPS)), r.scale)
    && p.lm[j] as int == SixBits(c.round, Inverse(MaxMin(c, x, GROUPS)), -r.min)
  }

  ghost predicate ElementChosen(c: Numerics, x: seq<real>, b: Block, p: Plain, e: nat)
    requires Sound(c) && |x| == QK_K && PlainOk(p) && e < QK_K
  {
    var l := GroupQuants(c, x, e / 32).levels;
    && |l| == GROUP
    && p.levels[e] as int == FinalLevel(c.nearest, x[e], Step(c, b, p.ls[e / 32]), Offset(c, b, p.lm[e / 32]),
                                        l[e % 32])
  }

  /** The block holds, packed, what the quantizer chooses for x. */
  ghost predicate IsQuantized(c: Numerics, x: seq<real>, b: Block)
    requires Sound(c) && |x| == QK_K
  {
    exists p :: Holds(b, p) && Quantized(c, x, b, p)
  }

  /** The step of group j, as decoding sees it. */
  function GroupStep(c: Numerics, b: Block, j: nat): real
    requires Sized(b) && j < GROUPS
  {
    Step(c, b, ScaleMin(j, b.scales).0)
  }

  /** What decoding the block makes of element e: its packed scale, minimum and level, recombined. */
  lemma DecodesPlain(c: Numerics, b: Block, p: Plain, e: nat)
    requires Holds(b, p) && e < QK_K
    ensures Q4Value(c.fromHalf, b, e)
      == Times(Step(c, b, p.ls[e / 32]), p.levels[e] as int as real) - Offset(c, b, p.lm[e / 32])
  {
    hide Times, ScaleMin, Level, PackedUpTo;
    UnpacksScales(b.scales, p.ls, p.lm, e / 32);
    UnpacksLevels(b.qs, p.levels, e);
  }

  /**
   * The decoded value of every element of a group with a positive step is the nearest of the sixteen values the group
   * can represent.
   */
  lemma DecodedIsNearest(c: Numerics, x: seq<real>, b: Block, e: nat, q: bv8)
    requires Sound(c) && |x| == QK_K && Sized(b) && IsQuantized(c, x, b) && e < QK_K && q < 16
    requires GroupStep(c, b, e / 32) > 0.0
    ensures Distance(Q4Value(c.fromHalf, b, e), x[e]) <= Distance(Value(c.fromHalf, b, e / 32, q), x[e])
  {
    hide Times, ScaleMin, Level, PackedUpTo, Nearest, Distance, Div, FinalLevel, GroupQuants, ScalesChosen;
    SoundParts(c);
    var p :| Holds(b, p) && Quantized(c, x, b, p);
    DecodesPlain(c, b, p, e);
    UnpacksScales(b.scales, p.ls, p.lm, e / 32);
    assert ElementChosen(c, x, b, p, e);
    FinalLevelIsNearest(c.nearest, x[e], Step(c, b, p.ls[e / 32]), Offset(c, b, p.lm[e / 32]),
                        GroupQuants(c, x, e / 32).levels[e % 32], q as int);
  }

  // ---------------------------------------------------------------- quantize_q4_k_block

  /** The group loop: search every group, and track the largest scale and minimum. */
  method SearchGroups(c: Numerics, x: seq<real>)
    returns (levels: seq<int>, mins: seq<real>, scales: seq<real>, maxScale: real, maxMin: real)
    requires Sound(c) && |x| == QK_K
    ensures |levels| == QK_K && |mins| == GROUPS && |scales| == GROUPS
    ensures forall e :: 0 <= e < QK_K ==> 0 <= levels[e] <= NMAX
    ensures forall j :: 0 <= j < GROUPS ==> mins[j] >= 0.0 && scales[j] >= 0.0
    ensures maxScale == MaxScale(c, x, GROUPS) && maxMin == MaxMin(c, x, GROUPS)
    ensures forall j :: 0 <= j < GROUPS ==> GroupResult(c, x, j, levels[32 * j..32 * j + 32], mins[j], scales[j])
  {
    hide GroupQuants, Sound, Nearest;
    levels, mins, scales, maxScale, maxMin := [], [], [], 0.0, 0.0;
    for j := 0 to GROUPS
      invariant |levels| == 32 * j && |mins| == j && |scales| == j
      invariant maxScale == MaxScale(c, x, j) && maxMin == MaxMin(c, x, j)
      invariant forall e :: 0 <= e < 32 * j ==> 0 <= levels[e] <= NMAX
      invariant forall k :: 0 <= k < j ==> mins[k] >= 0.0 && scales[k] >= 0.0
      invariant forall k :: 0 <= k < j ==> GroupResult(c, x, k, levels[32 * k..32 * k + 32], mins[k], scales[k])
    {
      var l, m, s := SearchGroup(c, x, j);
      ghost var before := levels;
      levels := levels + l;
      mins, scales := mins + [m], scales + [s];
      if s > maxScale {
        maxScale := s;
      }
      if m > maxMin {
        maxMin := m;
      }
      assert levels[32 * j..32 * j + 32] == l;
      forall k | 0 <= k < j ensures levels[32 * k..32 * k + 32] == before[32 * k..32 * k + 32] {
      }
    }
  }

  method SearchGroup(c: Numerics, x: seq<real>, j: nat) returns (levels: seq<int>, m: real, s: real)
    requires Sound(c) && |x| == QK_K && j < GROUPS
    ensures GroupResult(c, x, j, levels, m, s) && Levels(levels, GROUP) && m >= 0.0 && s >= 0.0
  {
    hide Quants, Weights, SumSquares, Sound, Nearest;
    var g := GroupOf(x, j);
    var w := ComputeWeights(c, g);
    WeightsNonNegative(c, g);
    var a;
    a, m, s := MakeQkx2Quants(c.nearest, g, w);
    levels := a[..];
    GroupResultInRange(c, x, j, levels, m, s);
  }

  /** The scale loop: six bits for every scale and minimum. */
  method ToSixBits(round: real -> int, v: seq<real>, max: real) returns (l: seq<bv8>)
    requires Nearest(round) && |v| == GROUPS && forall j :: 0 <= j < GROUPS ==> v[j] >= 0.0
    ensures SixBit(l) && forall j :: 0 <= j < GROUPS ==> l[j] as int == SixBits(round, Inverse(max), v[j])
  {
    hide Nearest, SixBits, Inverse;
    var inv := Inverse(max);
    l := [];
    for j := 0 to GROUPS
      invariant |l| == j && forall k :: 0 <= k < j ==> l[k] < 64 && l[k] as int == SixBits(round, inv, v[k])
    {
      SixBitsFit(round, max, v[j]);
      var n := SixBits(round, inv, v[j]);
      ByteOfSix(n);
      l := l + [n as bv8];
    }
  }

  lemma ByteOfSix(n: int)
    requires 0 <= n < 64
    ensures n as bv8 < 64 && (n as bv8) as int == n && (n < 16 ==> n as bv8 < 16)
  {
  }

  /** Levels of one element, as the last level loop of quantize_q4_k_block sets them. */
  method FinalLevels(c: Numerics, x: seq<real>, searched: seq<int>, d: real, dmin: real, ls: seq<bv8>, lm: seq<bv8>)
    returns (levels: seq<bv8>)
    requires |x| == |searched| == QK_K && SixBit(ls) && SixBit(lm)
    requires forall e :: 0 <= e < QK_K ==> 0 <= searched[e] <= NMAX
    ensures FourBit(levels)
    ensures forall e :: 0 <= e < QK_K ==> levels[e] as int == FinalLevel(c.nearest, x[e],
      Times(d, ls[e / 32] as int as real), Times(dmin, lm[e / 32] as int as real), searched[e])
  {
    hide Times, FinalLevel;
    levels := [];
    for e := 0 to QK_K
      invariant |levels| == e && forall k :: 0 <= k < e ==> levels[k] < 16
      invariant forall k :: 0 <= k < e ==> levels[k] as int == FinalLevel(c.nearest, x[k],
        Times(d, ls[k / 32] as int as real), Times(dmin, lm[k / 32] as int as real), searched[k])
    {
      var l := FinalLevel(c.nearest, x[e], Times(d, ls[e / 32] as int as real), Times(dmin, lm[e / 32] as int as real),
                          searched[e]);
      FinalLevelInRange(c.nearest, x[e], Times(d, ls[e / 32] as int as real), Times(dmin, lm[e / 32] as int as real),
                        searched[e]);
      ByteOfSix(l);
      levels := levels + [l as bv8];
    }
  }

  lemma FinalLevelInRange(nearest: real -> int, v: real, dd: real, dm: real, searched: int)
    requires 0 <= searched <= NMAX
    ensures 0 <= FinalLevel(nearest, v, dd, dm, searched) <= NMAX
  {
  }

  /** quantize_q4_k_block */
  method QuantizeBlock(c: Numerics, x: seq<real>) returns (b: Block)
    requires Sound(c) && |x| == QK_K
    ensures Sized(b) && IsQuantized(c, x, b)
    ensures c.fromHalf(b.d) >= 0.0 && c.fromHalf(b.dmin) >= 0.0
  {
    hide Times, Div, Nearest, PackedUpTo, PackedByte, GroupQuants, SixBits, FinalLevel, Inverse;
    SoundParts(c);
    var searched, mins, scales, maxScale, maxMin := SearchGroups(c, x);
    var ls := ToSixBits(c.round, scales, maxScale);
    var lm := ToSixBits(c.round, mins, maxMin);
    var packed := PackScales(ls, lm);
    var scaleBytes := packed[..];
    Quotient(maxScale, 63.0);
    Quotient(maxMin, 63.0);
    var d, dmin := c.toHalf(Div(maxScale, 63.0)), c.toHalf(Div(maxMin, 63.0));
    var levels := FinalLevels(c, x, searched, c.fromHalf(d), c.fromHalf(dmin), ls, lm);
    var q := PackLevels(levels);
    b := Block(d, dmin, scaleBytes, q[..]);
    ghost var p := Plain(ls, lm, levels);
    forall j | 0 <= j < GROUPS ensures ScalesChosen(c, x, p, j) {
      assert GroupResult(c, x, j, searched[32 * j..32 * j + 32], mins[j], scales[j]);
    }
    forall e | 0 <= e < QK_K ensures ElementChosen(c, x, b, p, e) {
      var j := e / 32;
      assert GroupResult(c, x, j, searched[32 * j..32 * j + 32], mins[j], scales[j]);
      assert searched[32 * j..32 * j + 32][e % 32] == searched[e];
    }
    assert Holds(b, p) && Quantized(c, x, b, p);
  }

  // ---------------------------------------------------------------- rows

  /** quantize_q4_k_row */
  method QuantizeRow(c: Numerics, row: seq<real>) returns (blocks: seq<Block>)
    requires Sound(c) && |row| % QK_K == 0
    ensures |blocks| == |row| / QK_K
    ensures forall i :: 0 <= i < |blocks| ==>
      Sized(blocks[i]) && IsQuantized(c, row[i * QK_K..(i + 1) * QK_K], blocks[i])
  {
    hide Sound, IsQuantized;
    blocks := [];
    for i := 0 to |row| / QK_K
      invariant |blocks| == i
      invariant forall k :: 0 <= k < i ==> Sized(blocks[k]) && IsQuantized(c, row[k * QK_K..(k + 1) * QK_K], blocks[k])
    {
      var b := QuantizeBlock(c, row[i * QK_K..(i + 1) * QK_K]);
      blocks := blocks + [b];
    }
  }

  /** y is the decoding of b, and each of its values is the nearest to x that its group can represent. */
  ghost predicate NearestValues(c: Numerics, b: Block, x: seq<real>, y: seq<real>)
    requires |x| == |y| == QK_K && Sized(b)
  {
    forall e, q: bv8 :: 0 <= e < QK_K && q < 16 && GroupStep(c, b, e / 32) > 0.0 ==>
      Distance(y[e], x[e]) <= Distance(Value(c.fromHalf, b, e / 32, q), x[e])
  }

  lemma DecodedValuesAreNearest(c: Numerics, b: Block, x: seq<real>, y: seq<real>)
    requires Sound(c) && |x| == |y| == QK_K && Sized(b) && IsQuantized(c, x, b)
    requires forall e :: 0 <= e < QK_K ==> y[e] == Q4Value(c.fromHalf, b, e)
    ensures NearestValues(c, b, x, y)
  {
    hide Sound, IsQuantized, GroupStep, Q4Value, Value, Distance;
    forall e, q: bv8 | 0 <= e < QK_K && q < 16 && GroupStep(c, b, e / 32) > 0.0
      ensures Distance(y[e], x[e]) <= Distance(Value(c.fromHalf, b, e / 32, q), x[e])
    {
      DecodedIsNearest(c, x, b, e, q);
    }
  }

  lemma BlockOfRow(half: bv16 -> real, blocks: seq<Block>, out: seq<real>, i: nat)
    requires i < |blocks| && |out| == |blocks| * QK_K && forall k :: 0 <= k < |blocks| ==> Sized(blocks[k])
    requires forall index :: 0 <= index < |out| ==> out[index] == KernelValue(half, blocks, index)
    ensures var y := out[i * QK_K..(i + 1) * QK_K];
      |y| == QK_K && forall e :: 0 <= e < QK_K ==> y[e] == Q4Value(half, blocks[i], e)
  {
    hide Q4Value;
    forall e | 0 <= e < QK_K ensures out[i * QK_K + e] == Q4Value(half, blocks[i], e) {
      assert (i * QK_K + e) / QK_K == i && (i * QK_K + e) % QK_K == e;
    }
  }

  /**
   * Quantize a row and decode it again: every element with a positive step comes back as its nearest representable
   * value.
   */
  method QuantizeAndDecode(c: Numerics, row: seq<real>, out: array<real>) returns (blocks: seq<Block>)
    requires Sound(c) && |row| % QK_K == 0 && |row| > 0 && out.Length == |row|
    modifies out
    ensures |blocks| == |row| / QK_K
    ensures forall i :: 0 <= i < |blocks| ==>
      && Sized(blocks[i]) && IsQuantized(c, row[i * QK_K..(i + 1) * QK_K], blocks[i])
      && NearestValues(c, blocks[i], row[i * QK_K..(i + 1) * QK_K], out[i * QK_K..(i + 1) * QK_K])
  {
    hide Sound, IsQuantized, NearestValues, KernelValue;
    blocks := QuantizeRow(c, row);
    var ok := DequantizeRow(c.fromHalf, Q4K, blocks, out);
    forall i | 0 <= i < |blocks|
      ensures NearestValues(c, blocks[i], row[i * QK_K..(i + 1) * QK_K], out[i * QK_K..(i + 1) * QK_K])
    {
      BlockOfRow(c.fromHalf, blocks, out[..], i);
      assert out[..][i * QK_K..(i + 1) * QK_K] == out[i * QK_K..(i + 1) * QK_K];
      DecodedValuesAreNearest(c, blocks[i], row[i * QK_K..(i + 1) * QK_K], out[i * QK_K..(i + 1) * QK_K]);
    }
  }
}
