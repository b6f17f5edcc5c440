/** The GGUF v3 writer (tools/qwen3_write_gguf.py): primitives, metadata items, offsets, and the whole file. */
module GgufWriter {
  import opened Wrappers
  import opened LittleEndian
  import opened GgufFormat

  const ALIGNMENT: nat := 32
  const GGML_TYPE_F32: nat := 0
  const GGML_TYPE_Q4_K: nat := 12
  const QK_K: nat := 256
  const Q4_K_BLOCK_BYTES: nat := 144

  /** One metadata item; texts are their UTF-8 bytes, a float its 32 bits. */
  datatype Meta =
    | MetaU32(key: seq<byte>, u32: nat)
    | MetaF32(key: seq<byte>, bits: nat)
    | MetaText(key: seq<byte>, text: seq<byte>)
    | MetaBool(key: seq<byte>, flag: bool)
    | MetaTexts(key: seq<byte>, texts: seq<seq<byte>>)
    | MetaInts(key: seq<byte>, ints: seq<int>)

  datatype Entry = Entry(name: seq<byte>, typ: nat, dims: seq<nat>, payload: seq<byte>)

  // ---------------------------------------------------------------- what is written

  function I32Bits(v: int): nat
    requires -0x8000_0000 <= v < 0x8000_0000
  {
    if v >= 0 then v else v + U32_MODULUS
  }

  ghost predicate I32s(vs: seq<int>) { forall i :: 0 <= i < |vs| ==> -0x8000_0000 <= vs[i] < 0x8000_0000 }

  function EncodeInts(vs: seq<int>): (r: seq<byte>)
    requires I32s(vs)
    ensures |r| == 4 * |vs|
  {
    if vs == [] then [] else EncodeInts(vs[..|vs| - 1]) + LE(I32Bits(vs[|vs| - 1]), 4)
  }

  /** What struct.pack and the u64 length prefix accept. */
  ghost predicate MetaOk(m: Meta) {
    && |m.key| <= U64_MAX
    && match m
       case MetaU32(_, v) => v < U32_MODULUS
       case MetaF32(_, v) => v < U32_MODULUS
       case MetaText(_, t) => |t| <= U64_MAX
       case MetaBool(_, _) => true
       case MetaTexts(_, ts) => |ts| <= U64_MAX && forall i :: 0 <= i < |ts| ==> |ts[i]| <= U64_MAX
       case MetaInts(_, vs) => |vs| <= U64_MAX / 4 && I32s(vs)
  }

  ghost function MetaValue(m: Meta): (v: Value)
    requires MetaOk(m)
    ensures Storable(v, 0)
  {
    match m
    case MetaU32(_, v) => Scalar(T_UINT32, LE(v, 4))
    case MetaF32(_, v) => Scalar(T_FLOAT32, LE(v, 4))
    case MetaText(_, t) => Text(t)
    case MetaBool(_, flag) => Scalar(T_BOOL, [if flag then 1 else 0])
    case MetaTexts(_, ts) => ValueArray(T_STRING, TextValues(ts))
    case MetaInts(_, vs) => ScalarArray(T_INT32, |vs|, EncodeInts(vs))
  }

  function TextValues(ts: seq<seq<byte>>): (r: seq<Value>)
    ensures |r| == |ts| && forall i :: 0 <= i < |ts| ==> r[i] == Text(ts[i])
  {
    seq(|ts|, i requires 0 <= i < |ts| => Text(ts[i]))
  }

  function EncodeKey(name: seq<byte>, typ: nat): seq<byte> { EncodeText(name) + LE(typ, 4) }

  ghost function EncodeMeta(m: Meta): seq<byte>
    requires MetaOk(m)
  {
    EncodeKey(m.key, TypeOf(MetaValue(m))) + EncodeValue(MetaValue(m))
  }

  ghost function EncodeMetas(ms: seq<Meta>): seq<byte>
    requires forall i :: 0 <= i < |ms| ==> MetaOk(ms[i])
  {
    if ms == [] then [] else EncodeMeta(ms[0]) + EncodeMetas(ms[1..])
  }

  function EncodeDims(dims: seq<nat>): (r: seq<byte>)
    ensures |r| == 8 * |dims|
  {
    if dims == [] then [] else LE(dims[0], 8) + EncodeDims(dims[1..])
  }

  function EncodeEntryHead(e: Entry): seq<byte> { EncodeText(e.name) + LE(|e.dims|, 4) }

  function EncodeEntryTail(e: Entry, off: nat): seq<byte> { LE(e.typ, 4) + LE(off, 8) }

  function EncodeEntry(e: Entry, off: nat): seq<byte> {
    EncodeEntryHead(e) + EncodeDims(e.dims) + EncodeEntryTail(e, off)
  }

  function AlignedOffset(offset: nat): (r: nat)
    ensures offset <= r < offset + ALIGNMENT && r % ALIGNMENT == 0
  {
    if offset % ALIGNMENT != 0 then offset + (ALIGNMENT - offset % ALIGNMENT) else offset
  }

  /** The offsets the entries get when the data so far ends at `offset`. */
  function Offsets(es: seq<Entry>, offset: nat): (r: seq<nat>)
    ensures |r| == |es|
    decreases |es|
  {
    if es == [] then []
    else
      var off := AlignedOffset(offset);
      [off] + Offsets(es[1..], off + |es[0].payload|)
  }

  function EncodeEntries(es: seq<Entry>, offs: seq<nat>): seq<byte>
    requires |es| == |offs|
  {
    if es == [] then [] else EncodeEntry(es[0], offs[0]) + EncodeEntries(es[1..], offs[1..])
  }

  function Zeros(n: nat): (r: seq<byte>)
    ensures |r| == n
  {
    seq(n, i => 0 as byte)
  }

  /** The tensor data from position cur on: every payload at its aligned offset, zeros in between. */
  function Data(es: seq<Entry>, cur: nat): seq<byte>
    decreases |es|
  {
    if es == [] then []
    else
      var off := AlignedOffset(cur);
      Zeros(off - cur) + es[0].payload + Data(es[1..], off + |es[0].payload|)
  }

  function Preamble(nTensors: nat, nKv: nat): seq<byte> {
    LE(MAGIC, 4) + LE(VERSION, 4) + LE(nTensors, 8) + LE(nKv, 8)
  }

  ghost function Header(ms: seq<Meta>, es: seq<Entry>): seq<byte>
    requires forall i :: 0 <= i < |ms| ==> MetaOk(ms[i])
  {
    Preamble(|es|, |ms|) + EncodeMetas(ms) + EncodeEntries(es, Offsets(es, 0))
  }

  ghost function FileBytes(ms: seq<Meta>, es: seq<Entry>): seq<byte>
    requires forall i :: 0 <= i < |ms| ==> MetaOk(ms[i])
  {
    var header := Header(ms, es);
    header + Zeros(AlignedOffset(|header|) - |header|) + Data(es, 0)
  }

  // ---------------------------------------------------------------- the writer

  class Writer {
    var buf: seq<byte>

    constructor ()
      ensures buf == []
    {
      buf := [];
    }

    method U32(v: nat)
      requires v < U32_MODULUS
      modifies this
      ensures buf == old(buf) + LE(v, 4)
    {
      buf := buf + LE(v, 4);
    }

    method I32(v: int)
      requires -0x8000_0000 <= v < 0x8000_0000
      modifies this
      ensures buf == old(buf) + LE(I32Bits(v), 4)
    {
      buf := buf + LE(I32Bits(v), 4);
    }

    method U64(v: nat)
      requires v <= U64_MAX
      modifies this
      ensures buf == old(buf) + LE(v, 8)
    {
      buf := buf + LE(v, 8);
    }

    method String(s: seq<byte>)
      requires |s| <= U64_MAX
      modifies this
      ensures buf == old(buf) + EncodeText(s)
    {
      U64(|s|);
      buf := buf + s;
      Assoc(old(buf), LE(|s|, 8), s);
    }

    method Key(name: seq<byte>, typ: nat)
      requires |name| <= U64_MAX && typ < U32_MODULUS
      modifies this
      ensures buf == old(buf) + EncodeKey(name, typ)
    {
      String(name);
      U32(typ);
      Assoc(old(buf), EncodeText(name), LE(typ, 4));
    }

    /** The value part of add_u32, add_f32, add_str, add_bool, add_str_array and add_i32_array. */
    method PutValue(m: Meta)
      requires MetaOk(m)
      modifies this
      ensures buf == old(buf) + EncodeValue(MetaValue(m))
    {
      match m
      case MetaU32(_, v) =>
        U32(v);
      case MetaF32(_, v) =>
        U32(v);
      case MetaText(_, t) =>
        String(t);
      case MetaBool(_, flag) =>
        buf := buf + [if flag then 1 else 0];
      case MetaTexts(_, ts) =>
        ArrayHeader(T_STRING, |ts|);
        Strings(ts);
        Assoc(old(buf), LE(T_STRING, 4) + LE(|ts|, 8), EncodeValues(TextValues(ts)));
      case MetaInts(_, vs) =>
        ArrayHeader(T_INT32, |vs|);
        Ints(vs);
        Assoc(old(buf), LE(T_INT32, 4) + LE(|vs|, 8), EncodeInts(vs));
    }

    method ArrayHeader(itemType: nat, count: nat)
      requires itemType < U32_MODULUS && count <= U64_MAX
      modifies this
      ensures buf == old(buf) + (LE(itemType, 4) + LE(count, 8))
    {
      U32(itemType);
      U64(count);
      Assoc(old(buf), LE(itemType, 4), LE(count, 8));
    }

    /** add_*: key and type, then the value. */
    method Add(m: Meta)
      requires MetaOk(m)
      modifies this
      ensures buf == old(buf) + EncodeMeta(m)
    {
      Key(m.key, match m
        case MetaU32(_, _) => T_UINT32
        case MetaF32(_, _) => T_FLOAT32
        case MetaText(_, _) => T_STRING
        case MetaBool(_, _) => T_BOOL
        case MetaTexts(_, _) => T_ARRAY
        case MetaInts(_, _) => T_ARRAY);
      PutValue(m);
      Assoc(old(buf), EncodeKey(m.key, TypeOf(MetaValue(m))), EncodeValue(MetaValue(m)));
    }

    method Strings(ts: seq<seq<byte>>)
      requires forall i :: 0 <= i < |ts| ==> |ts[i]| <= U64_MAX
      modifies this
      ensures buf == old(buf) + EncodeValues(TextValues(ts))
    {
      ghost var vs := TextValues(ts);
      assert vs[0..] == vs;
      var i := 0;
      while i < |ts|
        invariant 0 <= i <= |ts|
        invariant buf + EncodeValues(vs[i..]) == old(buf) + EncodeValues(vs)
      {
        assert vs[i..][1..] == vs[i + 1..];
        ghost var before := buf;
        String(ts[i]);
        Assoc(before, EncodeValue(vs[i]), EncodeValues(vs[i + 1..]));
        i := i + 1;
      }
      assert buf + [] == buf;
    }

    method Ints(vs: seq<int>)
      requires I32s(vs)
      modifies this
      ensures buf == old(buf) + EncodeInts(vs)
    {
      for i := 0 to |vs|
        invariant buf == old(buf) + EncodeInts(vs[..i])
      {
        assert vs[..i + 1][..i] == vs[..i];
        I32(vs[i]);
      }
      assert vs[..|vs|] == vs;
    }

    method Dims(dims: seq<nat>)
      requires forall i :: 0 <= i < |dims| ==> dims[i] <= U64_MAX
      modifies this
      ensures buf == old(buf) + EncodeDims(dims)
    {
      assert dims[0..] == dims;
      var i := 0;
      while i < |dims|
        invariant 0 <= i <= |dims|
        invariant buf + EncodeDims(dims[i..]) == old(buf) + EncodeDims(dims)
      {
        assert dims[i..][1..] == dims[i + 1..];
        ghost var before := buf;
        U64(dims[i]);
        Assoc(before, LE(dims[i], 8), EncodeDims(dims[i + 1..]));
        i := i + 1;
      }
      assert buf + [] == buf;
    }

    method TensorInfo(e: Entry, off: nat)
      requires |e.name| <= U64_MAX && |e.dims| < U32_MODULUS && e.typ < U32_MODULUS && off <= U64_MAX
      requires forall i :: 0 <= i < |e.dims| ==> e.dims[i] <= U64_MAX
      modifies this
      ensures buf == old(buf) + EncodeEntry(e, off)
    {
      String(e.name);
      U32(|e.dims|);
      Assoc(old(buf), EncodeText(e.name), LE(|e.dims|, 4));
      Dims(e.dims);
      Assoc(old(buf), EncodeEntryHead(e), EncodeDims(e.dims));
      ghost var before := buf;
      U32(e.typ);
      U64(off);
      Assoc(before, LE(e.typ, 4), LE(off, 8));
      Assoc(old(buf), EncodeEntryHead(e) + EncodeDims(e.dims), EncodeEntryTail(e, off));
    }
  }

  /** The running-offset loop of main. */
  method AssignOffsets(es: seq<Entry>) returns (offs: seq<nat>, total: nat)
    ensures offs == Offsets(es, 0) && total == |Data(es, 0)|
  {
    offs, total := [], 0;
    assert es[0..] == es;
    var i := 0;
    while i < |es|
      invariant 0 <= i <= |es|
      invariant offs + Offsets(es[i..], total) == Offsets(es, 0)
      invariant total + |Data(es[i..], total)| == |Data(es, 0)|
    {
      assert es[i..][1..] == es[i + 1..];
      ghost var cur := total;
      if total % ALIGNMENT != 0 {
        total := total + (ALIGNMENT - total % ALIGNMENT);
      }
      assert total == AlignedOffset(cur);
      Assoc(offs, [total], Offsets(es[i + 1..], total + |es[i].payload|));
      offs := offs + [total];
      total := total + |es[i].payload|;
      i := i + 1;
    }
    assert offs + [] == offs;
  }

  /** What main hands to the primitives. */
  ghost predicate Writable(ms: seq<Meta>, es: seq<Entry>) {
    && |ms| <= U64_MAX && |es| <= U64_MAX
    && (forall i :: 0 <= i < |ms| ==> MetaOk(ms[i]))
    && (forall i :: 0 <= i < |es| ==> EntryOk(es[i]))
    && (forall i :: 0 <= i < |es| ==> Offsets(es, 0)[i] <= U64_MAX)
  }

  ghost predicate EntryOk(e: Entry) {
    && |e.name| <= U64_MAX
    && (|| (e.typ == GGML_TYPE_F32 && |e.dims| == 1 && e.dims[0] <= U64_MAX && |e.payload| == e.dims[0] * 4)
        || (e.typ == GGML_TYPE_Q4_K && |e.dims| == 2 && e.dims[0] <= U64_MAX && e.dims[1] <= U64_MAX
            && e.dims[0] % QK_K == 0 && |e.payload| == e.dims[1] * (e.dims[0] / QK_K) * Q4_K_BLOCK_BYTES))
  }

  method WriteMetas(w: Writer, ms: seq<Meta>)
    requires forall i :: 0 <= i < |ms| ==> MetaOk(ms[i])
    modifies w
    ensures w.buf == old(w.buf) + EncodeMetas(ms)
  {
    assert ms[0..] == ms;
    var i := 0;
    while i < |ms|
      invariant 0 <= i <= |ms|
      invariant w.buf + EncodeMetas(ms[i..]) == old(w.buf) + EncodeMetas(ms)
    {
      assert ms[i..][1..] == ms[i + 1..];
      ghost var before := w.buf;
      w.Add(ms[i]);
      Assoc(before, EncodeMeta(ms[i]), EncodeMetas(ms[i + 1..]));
      i := i + 1;
    }
    assert w.buf + [] == w.buf;
  }

  method WriteEntries(w: Writer, es: seq<Entry>, offs: seq<nat>)
    requires |es| == |offs| && forall i :: 0 <= i < |es| ==> EntryOk(es[i]) && offs[i] <= U64_MAX
    modifies w
    ensures w.buf == old(w.buf) + EncodeEntries(es, offs)
  {
    assert es[0..] == es && offs[0..] == offs;
    var i := 0;
    while i < |es|
      invariant 0 <= i <= |es|
      invariant w.buf + EncodeEntries(es[i..], offs[i..]) == old(w.buf) + EncodeEntries(es, offs)
    {
      assert es[i..][1..] == es[i + 1..] && offs[i..][1..] == offs[i + 1..];
      ghost var before := w.buf;
      w.TensorInfo(es[i], offs[i]);
      Assoc(before, EncodeEntry(es[i], offs[i]), EncodeEntries(es[i + 1..], offs[i + 1..]));
      i := i + 1;
    }
    assert w.buf + [] == w.buf;
  }

  /** The payload loop: pad up to the entry's offset, then its bytes. */
  method WriteData(es: seq<Entry>, offs: seq<nat>) returns (fh: seq<byte>)
    requires offs == Offsets(es, 0)
    ensures fh == Data(es, 0)
  {
    fh := [];
    var cur: nat := 0;
    assert es[0..] == es;
    var i := 0;
    while i < |es|
      invariant 0 <= i <= |es|
      invariant offs[i..] == Offsets(es[i..], cur)
      invariant fh + Data(es[i..], cur) == Data(es, 0)
    {
      assert es[i..][1..] == es[i + 1..] && offs[i..][1..] == offs[i + 1..];
      ghost var before, start := fh, cur;
      assert offs[i] == offs[i..][0] == AlignedOffset(cur);
      assert Zeros(0) == [];
      if offs[i] > cur {
        fh := fh + Zeros(offs[i] - cur);
        cur := offs[i];
      }
      assert fh == before + Zeros(AlignedOffset(start) - start);
      fh := fh + es[i].payload;
      cur := cur + |es[i].payload|;
      Assoc(before, Zeros(AlignedOffset(start) - start), es[i].payload);
      Assoc(before, Zeros(AlignedOffset(start) - start) + es[i].payload, Data(es[i + 1..], cur));
      i := i + 1;
    }
    assert fh + [] == fh;
  }

  method WriteHeader(ms: seq<Meta>, es: seq<Entry>, offs: seq<nat>) returns (buf: seq<byte>)
    requires Writable(ms, es) && offs == Offsets(es, 0)
    ensures buf == Header(ms, es)
  {
    var w := new Writer();
    w.U32(MAGIC);
    w.U32(VERSION);
    w.U64(|es|);
    var meta := new Writer();
    WriteMetas(meta, ms);
    w.U64(|ms|);
    assert w.buf == Preamble(|es|, |ms|);
    assert meta.buf == EncodeMetas(ms);
    w.buf := w.buf + meta.buf;
    WriteEntries(w, es, offs);
    buf := w.buf;
  }

  /** main, from the entry list and the metadata to the bytes of the file. */
  method WriteFile(ms: seq<Meta>, es: seq<Entry>) returns (fh: seq<byte>)
    requires Writable(ms, es)
    ensures fh == FileBytes(ms, es)
  {
    var offs, total := AssignOffsets(es);
    var buf := WriteHeader(ms, es, offs);
    ghost var header := buf;
    assert Zeros(0) == [];
    if |buf| % ALIGNMENT != 0 {
      buf := buf + Zeros(ALIGNMENT - |buf| % ALIGNMENT);
    }
    assert buf == header + Zeros(AlignedOffset(|header|) - |header|);
    var data := WriteData(es, offs);
    fh := buf + data;
  }
}
