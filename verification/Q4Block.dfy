/**
 * The Q4_K block: packing of 6-bit scales and 4-bit levels (tools/qwen3_q4.py), the streaming decoder
 * (src/q3_quant.c) and the per-element decoder (cuda/q3_cuda_primitives.cu).
 */
module Q4Block {
  import opened QuantSums

  const QK_K: nat := 256
  const GROUPS: nat := 8

  /** d and dmin are the bits of half-precision numbers. */
  datatype Block = Block(d: bv16, dmin: bv16, scales: seq<bv8>, qs: seq<bv8>)

  ghost predicate Sized(b: Block) { |b.scales| == 12 && |b.qs| == 128 }

  // ---------------------------------------------------------------- reading a block

  /** The scale and the minimum of group j, in six bits each. */
  function ScaleMin(j: nat, scales: seq<bv8>): (bv8, bv8)
    requires j < GROUPS && |scales| == 12
  {
    if j < 4 then (scales[j] & 63, scales[j + 4] & 63)
    else ((scales[j + 4] & 0xf) | ((scales[j - 4] >> 6) << 4), (scales[j + 4] >> 4) | ((scales[j] >> 6) << 4))
  }

  /** The four-bit level of an element. */
  function Level(qs: seq<bv8>, e: nat): bv8
    requires e < QK_K && |qs| == 128
  {
    var group, l := e / 32, e % 32;
    var packed := qs[group / 2 * 32 + l];
    if group % 2 != 0 then packed >> 4 else packed & 0xf
  }

  /** What level q stands for in group j. */
  function Value(half: bv16 -> real, b: Block, j: nat, q: bv8): real
    requires Sized(b) && j < GROUPS
  {
    var (scale, minimum) := ScaleMin(j, b.scales);
    Times(Times(half(b.d), scale as int as real), q as int as real) - Times(half(b.dmin), minimum as int as real)
  }

  /** q4_value */
  function Q4Value(half: bv16 -> real, b: Block, e: nat): real
    requires Sized(b) && e < QK_K
  {
    Value(half, b, e / 32, Level(b.qs, e))
  }

  /** What thread `index` of dequant_q4_k_kernel writes. */
  function KernelValue(half: bv16 -> real, blocks: seq<Block>, index: nat): real
    requires index < |blocks| * QK_K && forall i :: 0 <= i < |blocks| ==> Sized(blocks[i])
  {
    Q4Value(half, blocks[index / QK_K], index % QK_K)
  }

  // ---------------------------------------------------------------- the streaming decoder

  function Nibble(qs: seq<bv8>, at: nat, high: bool): bv8
    requires at < |qs|
  {
    if high then qs[at] >> 4 else qs[at] & 0xf
  }

  /** Half of the inner work of dequant_q4: 32 elements from one nibble, with precomputed products. */
  method DequantHalf(b: Block, qBase: nat, high: bool, d1: real, m1: real, out: array<real>, pos: nat)
    requires Sized(b) && qBase + 32 <= 128 && pos + 32 <= out.Length
    modifies out
    ensures forall i :: 0 <= i < out.Length && !(pos <= i < pos + 32) ==> out[i] == old(out[i])
    ensures forall i :: pos <= i < pos + 32 ==>
      out[i] == Times(d1, Nibble(b.qs, qBase + i - pos, high) as int as real) - m1
  {
    hide Times;
    for l := 0 to 32
      invariant forall i :: 0 <= i < out.Length && !(pos <= i < pos + l) ==> out[i] == old(out[i])
      invariant forall i :: pos <= i < pos + l ==>
        out[i] == Times(d1, Nibble(b.qs, qBase + i - pos, high) as int as real) - m1
    {
      out[pos + l] := Times(d1, (if high then b.qs[qBase + l] >> 4 else b.qs[qBase + l] & 0xf) as int as real) - m1;
    }
  }

  /** The stretch of `out` that holds group j of the block. */
  ghost predicate GroupDecoded(half: bv16 -> real, b: Block, out: seq<real>, base: nat, j: nat)
    requires Sized(b) && j < GROUPS && base + QK_K <= |out|
  {
    forall i :: base + 32 * j <= i < base + 32 * j + 32 ==> out[i] == Q4Value(half, b, i - base)
  }

  /** Group j comes from the half j % 2 of the bytes 32 * (j / 2) on. */
  lemma HalfIsGroup(half: bv16 -> real, b: Block, out: seq<real>, base: nat, j: nat, d1: real, m1: real)
    requires Sized(b) && j < GROUPS && base + QK_K <= |out|
    requires var (scale, minimum) := ScaleMin(j, b.scales);
      d1 == Times(half(b.d), scale as int as real) && m1 == Times(half(b.dmin), minimum as int as real)
    requires forall i :: base + 32 * j <= i < base + 32 * j + 32 ==>
      out[i] == Times(d1, Nibble(b.qs, j / 2 * 32 + i - (base + 32 * j), j % 2 != 0) as int as real) - m1
    ensures GroupDecoded(half, b, out, base, j)
  {
    hide Times, ScaleMin;
    forall i | base + 32 * j <= i < base + 32 * j + 32 ensures out[i] == Q4Value(half, b, i - base) {
      assert (i - base) / 32 == j && (i - base) % 32 == i - (base + 32 * j);
    }
  }

  /** One pass of the outer loop: two groups from the same 32 bytes. */
  method DequantPair(half: bv16 -> real, b: Block, j: nat, out: array<real>, base: nat)
    requires Sized(b) && j % 2 == 0 && j + 1 < GROUPS && base + QK_K <= out.Length
    modifies out
    ensures forall i :: 0 <= i < out.Length && !(base + 32 * j <= i < base + 32 * j + 64) ==> out[i] == old(out[i])
    ensures GroupDecoded(half, b, out[..], base, j) && GroupDecoded(half, b, out[..], base, j + 1)
  {
    hide Times, ScaleMin, Q4Value, Nibble;
    var (s1, n1) := ScaleMin(j, b.scales);
    var d1, m1 := Times(half(b.d), s1 as int as real), Times(half(b.dmin), n1 as int as real);
    var (s2, n2) := ScaleMin(j + 1, b.scales);
    var d2, m2 := Times(half(b.d), s2 as int as real), Times(half(b.dmin), n2 as int as real);
    DequantHalf(b, j / 2 * 32, false, d1, m1, out, base + 32 * j);
    HalfIsGroup(half, b, out[..], base, j, d1, m1);
    DequantHalf(b, j / 2 * 32, true, d2, m2, out, base + 32 * (j + 1));
    HalfIsGroup(half, b, out[..], base, j + 1, d2, m2);
  }

  /** dequant_q4 at out + base */
  method DequantQ4(half: bv16 -> real, b: Block, out: array<real>, base: nat)
    requires Sized(b) && base + QK_K <= out.Length
    modifies out
    ensures forall i :: 0 <= i < out.Length && !(base <= i < base + QK_K) ==> out[i] == old(out[i])
    ensures forall i :: base <= i < base + QK_K ==> out[i] == Q4Value(half, b, i - base)
  {
    hide Times, ScaleMin, Q4Value;
    var j := 0;
    while j < GROUPS
      invariant j % 2 == 0 && j <= GROUPS
      invariant forall i :: 0 <= i < out.Length && !(base <= i < base + 32 * j) ==> out[i] == old(out[i])
      invariant forall i :: base <= i < base + 32 * j ==> out[i] == Q4Value(half, b, i - base)
    {
      DequantPair(half, b, j, out, base);
      assert forall i :: base + 32 * j <= i < base + 32 * j + 64 ==> out[..][i] == out[i];
      j := j + 2;
    }
  }

  /** The type argument of a row; Q6_K is not part of this model. */
  datatype RowType = Q4K | Unsupported

  /** q3_quant_dequantize_row on Q4_K blocks; false for the argument errors and for unsupported types. */
  method DequantizeRow(half: bv16 -> real, rowType: RowType, blocks: seq<Block>, out: array<real>) returns (ok: bool)
    requires forall i :: 0 <= i < |blocks| ==> Sized(blocks[i])
    modifies out
    ensures ok <==> rowType == Q4K && |blocks| != 0 && out.Length == |blocks| * QK_K
    ensures ok ==> forall index :: 0 <= index < out.Length ==> out[index] == KernelValue(half, blocks, index)
    ensures !ok ==> out[..] == old(out[..])
  {
    hide Q4Value;
    if |blocks| == 0 || out.Length != |blocks| * QK_K || rowType != Q4K {
      return false;
    }
    for i := 0 to |blocks|
      invariant forall index :: 0 <= index < i * QK_K ==> out[index] == KernelValue(half, blocks, index)
    {
      DequantQ4(half, blocks[i], out, i * QK_K);
      forall index | i * QK_K <= index < (i + 1) * QK_K ensures out[index] == KernelValue(half, blocks, index) {
        assert index / QK_K == i && index % QK_K == index - i * QK_K;
      }
    }
    return true;
  }

  // ---------------------------------------------------------------- packing scales

  ghost predicate SixBit(v: seq<bv8>) { |v| == GROUPS && forall j :: 0 <= j < GROUPS ==> v[j] < 64 }

  /** Six bits of one group under the top two bits of another. */
  function WithTop(v: bv8, u: bv8): bv8 { v | ((u >> 4) << 6) }

  /** The low nibbles of a scale and a minimum. */
  function Joined(s: bv8, m: bv8): bv8 { (s & 0x0f) | ((m & 0x0f) << 4) }

  /** Bytes k, k + 4 and k + 8 of the packed scales when the first j groups have been written. */
  ghost predicate PackedAt(out: seq<bv8>, ls: seq<bv8>, lm: seq<bv8>, j: nat, k: nat)
    requires |out| == 12 && |ls| == |lm| == GROUPS && k < 4
  {
    if k >= j then true
    else if k + 4 >= j then out[k] == ls[k] && out[k + 4] == lm[k]
    else
      && out[k] == WithTop(ls[k], ls[k + 4]) && out[k + 4] == WithTop(lm[k], lm[k + 4])
      && out[k + 8] == Joined(ls[k + 4], lm[k + 4])
  }

  ghost predicate PackedUpTo(out: seq<bv8>, ls: seq<bv8>, lm: seq<bv8>, j: nat)
    requires |out| == 12 && |ls| == |lm| == GROUPS
  {
    forall k: nat :: k < 4 ==> PackedAt(out, ls, lm, j, k)
  }

  /** The scale loop of quantize_q4_k_block. */
  method PackScales(ls: seq<bv8>, lm: seq<bv8>) returns (out: array<bv8>)
    requires |ls| == |lm| == GROUPS
    ensures fresh(out) && out.Length == 12 && PackedUpTo(out[..], ls, lm, GROUPS)
  {
    hide WithTop, Joined;
    out := new bv8[12](_ => 0);
    for j := 0 to GROUPS
      invariant PackedUpTo(out[..], ls, lm, j)
    {
      ghost var before := out[..];
      if j < 4 {
        out[j] := ls[j];
        out[j + 4] := lm[j];
      } else {
        assert PackedAt(before, ls, lm, j, j - 4);
        out[j + 4] := Joined(ls[j], lm[j]);
        out[j - 4] := WithTop(out[j - 4], ls[j]);
        out[j] := WithTop(out[j], lm[j]);
      }
      ghost var after, next := out[..], j + 1;
      forall k: nat | k < 4 ensures PackedAt(after, ls, lm, next, k) {
        assert PackedAt(before, ls, lm, j, k);
      }
    }
  }

  lemma UnpacksLow(v: bv8, u: bv8)
    requires v < 64 && u < 64
    ensures WithTop(v, u) & 63 == v && WithTop(v, u) >> 6 == u >> 4
  {
  }

  lemma UnpacksJoined(s: bv8, m: bv8, top: bv8)
    requires s < 64 && m < 64
    ensures (top >> 6 == s >> 4 ==> (Joined(s, m) & 0xf) | ((top >> 6) << 4) == s)
    ensures (top >> 6 == m >> 4 ==> (Joined(s, m) >> 4) | ((top >> 6) << 4) == m)
  {
  }

  /** Unpacking returns every six-bit scale and minimum that was packed. */
  lemma UnpacksScales(out: seq<bv8>, ls: seq<bv8>, lm: seq<bv8>, j: nat)
    requires |out| == 12 && SixBit(ls) && SixBit(lm) && PackedUpTo(out, ls, lm, GROUPS) && j < GROUPS
    ensures ScaleMin(j, out) == (ls[j], lm[j])
  {
    hide WithTop, Joined;
    var k := if j < 4 then j else j - 4;
    assert PackedAt(out, ls, lm, GROUPS, k);
    UnpacksLow(ls[k], ls[k + 4]);
    UnpacksLow(lm[k], lm[k + 4]);
    UnpacksJoined(ls[k + 4], lm[k + 4], out[k]);
    UnpacksJoined(ls[k + 4], lm[k + 4], out[k + 4]);
  }

  // ---------------------------------------------------------------- packing levels

  ghost predicate FourBit(levels: seq<bv8>) { |levels| == QK_K && forall e :: 0 <= e < QK_K ==> levels[e] < 16 }

  /** Byte k holds this element in its low half, and the element 32 further on in its high half. */
  function LowElement(k: nat): (e: nat)
    requires k < 128
    ensures e + 32 < QK_K
  {
    k / 32 * 64 + k % 32
  }

  function PackedByte(levels: seq<bv8>, k: nat): bv8
    requires |levels| == QK_K && k < 128
  {
    levels[LowElement(k)] | (levels[LowElement(k) + 32] << 4)
  }

  /** The nibble loops of quantize_q4_k_block. */
  method PackLevels(levels: seq<bv8>) returns (q: array<bv8>)
    requires |levels| == QK_K
    ensures fresh(q) && q.Length == 128 && forall k :: 0 <= k < 128 ==> q[k] == PackedByte(levels, k)
  {
    q := new bv8[128](_ => 0);
    for c := 0 to 4
      invariant forall k :: 0 <= k < c * 32 ==> q[k] == PackedByte(levels, k)
    {
      var j := c * 64;
      for l := 0 to 32
        invariant forall k :: 0 <= k < c * 32 + l ==> q[k] == PackedByte(levels, k)
      {
        q[j / 64 * 32 + l] := levels[j + l] | (levels[j + l + 32] << 4);
      }
    }
  }

  lemma Nibbles(v: bv8, u: bv8)
    requires v < 16 && u < 16
    ensures (v | (u << 4)) & 0xf == v && (v | (u << 4)) >> 4 == u
  {
  }

  /** Decoding returns every level that was packed. */
  lemma UnpacksLevels(q: seq<bv8>, levels: seq<bv8>, e: nat)
    requires |q| == 128 && FourBit(levels) && e < QK_K
    requires forall k :: 0 <= k < 128 ==> q[k] == PackedByte(levels, k)
    ensures Level(q, e) == levels[e]
  {
    var group, l := e / 32, e % 32;
    var k := group / 2 * 32 + l;
    assert LowElement(k) == group / 2 * 64 + l;
    Nibbles(levels[LowElement(k)], levels[LowElement(k) + 32]);
    assert e == if group % 2 != 0 then LowElement(k) + 32 else LowElement(k);
  }
}
