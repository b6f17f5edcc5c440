/** Reading back what the writer emits: same keys, values, names, shapes and types, and every payload in its place. */
module GgufRoundTrip {
  import opened Wrappers
  import opened LittleEndian
  import opened GgufFormat
  import opened Subseq
  import R = GgufReader
  import opened GgufWriter

  ghost predicate MetasOk(ms: seq<Meta>) { forall i :: 0 <= i < |ms| ==> MetaOk(ms[i]) }

  /** No item moves the alignment away from the writer's: a "general.alignment" of 0 is ignored by the reader. */
  ghost predicate KeepsAlignment(m: Meta) {
    m.key == R.ALIGNMENT_KEY && m.MetaU32? ==> m.u32 in {0, ALIGNMENT}
  }

  // ---------------------------------------------------------------- metadata

  /** The reader's table for items encoded from pos on. */
  ghost function KvTable(ms: seq<Meta>, pos: nat): (r: seq<R.Kv>)
    requires MetasOk(ms)
    ensures |r| == |ms|
    decreases |ms|
  {
    if ms == [] then []
    else
      var m := ms[0];
      [R.Kv(m.key, TypeOf(MetaValue(m)), pos + |EncodeKey(m.key, 0)|)] + KvTable(ms[1..], pos + |EncodeMeta(m)|)
  }

  lemma ReadsKv(b: seq<byte>, pos: nat, m: Meta)
    requires MetaOk(m) && At(b, pos, EncodeMeta(m)) && KeepsAlignment(m)
    ensures var kv := R.Kv(m.key, TypeOf(MetaValue(m)), pos + |EncodeKey(m.key, 0)|);
      && R.ParseKv(b, pos) == Success((kv, pos + |EncodeMeta(m)|))
      && At(b, kv.valuePos, EncodeValue(MetaValue(m)))
      && R.NextAlignment(b, kv, ALIGNMENT) == ALIGNMENT
  {
    hide At, LE, SkipValue;
    var v := MetaValue(m);
    var key := EncodeKey(m.key, TypeOf(v));
    AtSplit(b, pos, key, EncodeValue(v));
    AtSplit(b, pos, EncodeText(m.key), LE(TypeOf(v), 4));
    ReadTextAt(b, pos, m.key);
    Pow256Values();
    ReadIntAt(b, pos + |EncodeText(m.key)|, TypeOf(v), 4);
    SkipEncoded(b, pos + |key|, v, 0);
    if m.MetaU32? {
      ReadIntAt(b, pos + |key|, m.u32, 4);
    }
  }

  lemma {:induction false} ReadsKvs(b: seq<byte>, pos: nat, ms: seq<Meta>)
    requires MetasOk(ms) && At(b, pos, EncodeMetas(ms)) && forall i :: 0 <= i < |ms| ==> KeepsAlignment(ms[i])
    ensures R.ParseKvs(b, pos, |ms|, ALIGNMENT) == Success((KvTable(ms, pos), (pos + |EncodeMetas(ms)|, ALIGNMENT)))
    decreases |ms|
  {
    hide EncodeMeta, MetaValue, EncodeKey, R.ParseKv, R.NextAlignment, At, EncodeValue, MetaOk, KeepsAlignment, TypeOf;
    if ms != [] {
      var kv, next := R.Kv(ms[0].key, TypeOf(MetaValue(ms[0])), pos + |EncodeKey(ms[0].key, 0)|),
        pos + |EncodeMeta(ms[0])|;
      assert R.ParseKv(b, pos) == Success((kv, next)) && R.NextAlignment(b, kv, ALIGNMENT) == ALIGNMENT by {
        AtSplit(b, pos, EncodeMeta(ms[0]), EncodeMetas(ms[1..]));
        ReadsKv(b, pos, ms[0]);
      }
      assert R.ParseKvs(b, next, |ms| - 1, ALIGNMENT)
          == Success((KvTable(ms[1..], next), (next + |EncodeMetas(ms[1..])|, ALIGNMENT))) by {
        AtSplit(b, pos, EncodeMeta(ms[0]), EncodeMetas(ms[1..]));
        ReadsKvs(b, next, ms[1..]);
      }
    }
  }

  /** Table entry i is the entry of item i, and its value stands where the table says. */
  lemma {:induction false} KvTableAt(b: seq<byte>, pos: nat, ms: seq<Meta>, i: nat)
    requires MetasOk(ms) && At(b, pos, EncodeMetas(ms)) && i < |ms|
    ensures var kv := KvTable(ms, pos)[i];
      && kv.key == ms[i].key && kv.typ == TypeOf(MetaValue(ms[i])) && At(b, kv.valuePos, EncodeValue(MetaValue(ms[i])))
    decreases |ms|
  {
    hide MetaValue, EncodeValue, TypeOf, At, MetaOk, LE;
    AtSplit(b, pos, EncodeMeta(ms[0]), EncodeMetas(ms[1..]));
    if i == 0 {
      AtSplit(b, pos, EncodeKey(ms[0].key, TypeOf(MetaValue(ms[0]))), EncodeValue(MetaValue(ms[0])));
    } else {
      KvTableAt(b, pos + |EncodeMeta(ms[0])|, ms[1..], i - 1);
    }
  }

  /** Every item takes at least 13 bytes, so the reader's count check passes. */
  lemma {:induction false} MetasTakeBytes(ms: seq<Meta>)
    requires MetasOk(ms)
    ensures |EncodeMetas(ms)| >= 12 * |ms|
    decreases |ms|
  {
    if ms != [] {
      MetasTakeBytes(ms[1..]);
    }
  }

  // ---------------------------------------------------------------- tensor table

  function Product(dims: seq<nat>, acc: nat): nat {
    if dims == [] then acc else Product(dims[1..], acc * dims[0])
  }

  /** The element count of a writable entry, within one block of 2^64. */
  ghost predicate CountFits(e: Entry)
    requires EntryOk(e)
  {
    Product(e.dims, 1) + QK_K <= U64_MODULUS
  }

  /** What the reader makes of one entry, before the data position is known. */
  function TableEntry(e: Entry, off: nat): R.Tensor {
    R.Tensor(e.name, R.NameBuf(e.name), e.dims, e.typ, off, 0, Product(e.dims, 1), |e.payload|)
  }

  function TensorTable(es: seq<Entry>, offs: seq<nat>): (r: seq<R.Tensor>)
    requires |es| == |offs|
    ensures |r| == |es| && forall i :: 0 <= i < |es| ==> r[i] == TableEntry(es[i], offs[i])
  {
    seq(|es|, i requires 0 <= i < |es| => TableEntry(es[i], offs[i]))
  }

  lemma MulMonotone(a: nat, b: nat, d: nat)
    requires a <= b
    ensures a * d <= b * d
  {
  }

  lemma NextElementsFits(elements: nat, d: nat)
    requires elements <= U64_MAX && elements * d <= U64_MAX
    ensures R.NextElements(elements, d) == Some(elements * d)
  {
    if d != 0 {
      assert (U64_MAX / d + 1) * d > U64_MAX;
      if U64_MAX / d + 1 <= elements {
        MulMonotone(U64_MAX / d + 1, elements, d);
      }
    }
  }

  lemma ReadsDims(b: seq<byte>, pos: nat, e: Entry)
    requires EntryOk(e) && CountFits(e) && At(b, pos, EncodeDims(e.dims))
    ensures R.ParseDims(b, pos, |e.dims|, 1)
      == Success((e.dims, (pos + |EncodeDims(e.dims)|, Product(e.dims, 1))))
  {
    hide At, LE, ReadInt, R.NextElements, TypeBytes;
    var dims := e.dims;
    Pow256Values();
    AtSplit(b, pos, LE(dims[0], 8), EncodeDims(dims[1..]));
    ReadIntAt(b, pos, dims[0], 8);
    NextElementsFits(1, dims[0]);
    if |dims| == 1 {
      assert dims[1..] == [] && [dims[0]] + [] == dims;
      assert Product(dims, 1) == Product(dims[1..], 1 * dims[0]) == dims[0];
    } else {
      assert dims[1..][0] == dims[1] && dims[1..][1..] == [];
      AtSplit(b, pos + 8, LE(dims[1], 8), EncodeDims(dims[1..][1..]));
      ReadIntAt(b, pos + 8, dims[1], 8);
      assert Product(dims, 1) == Product(dims[1..], 1 * dims[0]) == Product(dims[1..][1..], dims[0] * dims[1]);
      NextElementsFits(dims[0], dims[1]);
      assert [dims[0]] + ([dims[1]] + []) == dims;
      assert R.ParseDims(b, pos + 16, 0, dims[0] * dims[1]) == Success(([], (pos + 16, dims[0] * dims[1])));
      assert R.ParseDims(b, pos + 8, 1, dims[0]) == Success(([dims[1]] + [], (pos + 16, dims[0] * dims[1])));
    }
  }

  /** The reader computes the byte count the writer checked its payload against. */
  lemma PayloadBytes(e: Entry)
    requires EntryOk(e) && CountFits(e) && |e.payload| <= U64_MAX
    ensures TypeBytes(e.typ, Product(e.dims, 1)) == Some(|e.payload|)
  {
    if e.typ == GGML_TYPE_F32 {
      assert e.dims[1..] == [];
      assert Product(e.dims, 1) == Product(e.dims[1..], 1 * e.dims[0]) == e.dims[0];
    } else {
      var cols, rows := e.dims[0], e.dims[1];
      assert e.dims[1..][0] == rows && e.dims[1..][1..] == [];
      assert Product(e.dims, 1) == Product(e.dims[1..], 1 * cols) == Product(e.dims[1..][1..], cols * rows)
        == cols * rows;
      BlocksOfRows(cols / QK_K, rows);
      assert cols == QK_K * (cols / QK_K);
    }
  }

  lemma BlocksOfRows(blocksPerRow: nat, rows: nat)
    requires QK_K * blocksPerRow * rows + QK_K <= U64_MODULUS
    ensures (QK_K * blocksPerRow * rows + QK_K - 1) % U64_MODULUS / QK_K == rows * blocksPerRow
  {
    var n := rows * blocksPerRow;
    assert QK_K * blocksPerRow * rows == QK_K * n;
  }

  lemma ReadsTensor(b: seq<byte>, pos: nat, e: Entry, off: nat)
    requires EntryOk(e) && CountFits(e) && |e.payload| <= U64_MAX && off <= U64_MAX
    requires At(b, pos, EncodeEntry(e, off))
    ensures R.ParseTensor(b, pos) == Success((TableEntry(e, off), pos + |EncodeEntry(e, off)|))
  {
    hide At, LE, R.ParseDims, Product, TypeBytes, R.NameBuf, EncodeDims;
    var head := EncodeEntryHead(e);
    AtSplit(b, pos, head + EncodeDims(e.dims), EncodeEntryTail(e, off));
    AtSplit(b, pos, head, EncodeDims(e.dims));
    AtSplit(b, pos, EncodeText(e.name), LE(|e.dims|, 4));
    ReadTextAt(b, pos, e.name);
    Pow256Values();
    ReadIntAt(b, pos + |EncodeText(e.name)|, |e.dims|, 4);
    ReadsDims(b, pos + |head|, e);
    var q := pos + |head| + |EncodeDims(e.dims)|;
    AtSplit(b, q, LE(e.typ, 4), LE(off, 8));
    ReadIntAt(b, q, e.typ, 4);
    ReadIntAt(b, q + 4, off, 8);
    PayloadBytes(e);
  }

  ghost predicate EntriesOk(es: seq<Entry>) {
    forall i :: 0 <= i < |es| ==> EntryOk(es[i]) && CountFits(es[i]) && |es[i].payload| <= U64_MAX
  }

  lemma {:induction false} ReadsTensors(b: seq<byte>, pos: nat, es: seq<Entry>, offs: seq<nat>)
    requires |es| == |offs| && EntriesOk(es) && forall i :: 0 <= i < |offs| ==> offs[i] <= U64_MAX
    requires At(b, pos, EncodeEntries(es, offs))
    ensures R.ParseTensors(b, pos, |es|) == Success((TensorTable(es, offs), pos + |EncodeEntries(es, offs)|))
    decreases |es|
  {
    hide EncodeEntry, R.ParseTensor, Product, TableEntry;
    if es == [] {
      assert TensorTable(es, offs) == [];
    } else {
      var t, next := TableEntry(es[0], offs[0]), pos + |EncodeEntry(es[0], offs[0])|;
      assert R.ParseTensor(b, pos) == Success((t, next)) by {
        AtSplit(b, pos, EncodeEntry(es[0], offs[0]), EncodeEntries(es[1..], offs[1..]));
        ReadsTensor(b, pos, es[0], offs[0]);
      }
      assert R.ParseTensors(b, next, |es| - 1)
          == Success((TensorTable(es[1..], offs[1..]), next + |EncodeEntries(es[1..], offs[1..])|)) by {
        AtSplit(b, pos, EncodeEntry(es[0], offs[0]), EncodeEntries(es[1..], offs[1..]));
        ReadsTensors(b, next, es[1..], offs[1..]);
      }
      assert R.ParseTensors(b, pos, |es|) == R.Prepend([t], R.ParseTensors(b, next, |es| - 1));
      assert TensorTable(es, offs) == [t] + TensorTable(es[1..], offs[1..]);
    }
  }

  lemma {:induction false} EntriesTakeBytes(es: seq<Entry>, offs: seq<nat>)
    requires |es| == |offs|
    ensures |EncodeEntries(es, offs)| >= |es|
    decreases |es|
  {
    if es != [] {
      EntriesTakeBytes(es[1..], offs[1..]);
    }
  }

  // ---------------------------------------------------------------- payloads

  lemma DataSplit(es: seq<Entry>, cur: nat)
    requires es != []
    ensures var off := AlignedOffset(cur); var next := off + |es[0].payload|;
      && At(Data(es, cur), off - cur, es[0].payload)
      && next - cur <= |Data(es, cur)| && Data(es, cur)[next - cur..] == Data(es[1..], next)
  {
    var off := AlignedOffset(cur);
    var next := off + |es[0].payload|;
    assert Data(es, cur) == Zeros(off - cur) + es[0].payload + Data(es[1..], next);
    AtSlice(Data(es, cur), off - cur, es[0].payload);
  }

  /** Entry i's payload stands at its offset in the data section. */
  lemma {:induction false} PayloadInData(es: seq<Entry>, cur: nat, i: nat)
    requires i < |es|
    ensures cur <= Offsets(es, cur)[i] && At(Data(es, cur), Offsets(es, cur)[i] - cur, es[i].payload)
    ensures Offsets(es, cur)[i] % ALIGNMENT == 0
    decreases |es|
  {
    hide At, Data, AlignedOffset;
    DataSplit(es, cur);
    if i > 0 {
      var next := AlignedOffset(cur) + |es[0].payload|;
      PayloadInData(es[1..], next, i - 1);
      AtSuffix(Data(es, cur), next - cur, Data(es[1..], next), Offsets(es[1..], next)[i - 1] - next, es[i].payload);
    }
  }

  lemma AtSuffix(whole: seq<byte>, skip: nat, rest: seq<byte>, pos: nat, x: seq<byte>)
    requires skip <= |whole| && whole[skip..] == rest && At(rest, pos, x)
    ensures At(whole, skip + pos, x)
  {
    SliceOfSlice(whole, skip, |whole|, pos, pos + |x|);
    AtSlice(rest, pos, x);
    AtSlice(whole, skip + pos, x);
  }

  /** Placing the written table succeeds, at the offsets the writer chose. */
  function Placed(t: R.Tensor, dataPos: nat): R.Tensor { t.(absOffset := dataPos + t.relOffset) }

  function PlacedTable(ts: seq<R.Tensor>, dataPos: nat): (r: seq<R.Tensor>)
    ensures |r| == |ts| && forall i :: 0 <= i < |ts| ==> r[i] == Placed(ts[i], dataPos)
  {
    seq(|ts|, i requires 0 <= i < |ts| => Placed(ts[i], dataPos))
  }

  lemma {:induction false} PlacesTensors(ts: seq<R.Tensor>, dataPos: nat, size: nat, max: nat)
    requires size <= U64_MAX
    requires forall i :: 0 <= i < |ts| ==> dataPos + ts[i].relOffset + ts[i].bytes <= size
    ensures R.PlaceTensors(ts, dataPos, size, max).Success?
    ensures R.PlaceTensors(ts, dataPos, size, max).value.0 == PlacedTable(ts, dataPos)
    decreases |ts|
  {
    if ts == [] {
      assert PlacedTable(ts, dataPos) == [];
    } else {
      PlacesTensors(ts[1..], dataPos, size, if ts[0].bytes > max then ts[0].bytes else max);
      assert PlacedTable(ts, dataPos) == [Placed(ts[0], dataPos)] + PlacedTable(ts[1..], dataPos);
    }
  }

  lemma {:induction false} OffsetsAscend(es: seq<Entry>, cur: nat, i: nat)
    requires i + 1 < |es|
    ensures Offsets(es, cur)[i] + |es[i].payload| <= Offsets(es, cur)[i + 1]
    decreases i
  {
    var next := AlignedOffset(cur) + |es[0].payload|;
    if i == 0 {
      assert Offsets(es, cur)[1] == Offsets(es[1..], next)[0];
    } else {
      OffsetsAscend(es[1..], next, i - 1);
    }
  }

  lemma {:induction false} OffsetsOrdered(es: seq<Entry>, i: nat, j: nat)
    requires i < j < |es|
    ensures Offsets(es, 0)[i] + |es[i].payload| <= Offsets(es, 0)[j]
    decreases j
  {
    OffsetsAscend(es, 0, j - 1);
    if i < j - 1 {
      OffsetsOrdered(es, i, j - 1);
    }
  }

  /** The data end with the last payload. */
  lemma {:induction false} DataEnds(es: seq<Entry>, cur: nat)
    requires es != []
    ensures cur + |Data(es, cur)| == Offsets(es, cur)[|es| - 1] + |es[|es| - 1].payload|
    decreases |es|
  {
    hide AlignedOffset;
    DataSplit(es, cur);
    if |es| > 1 {
      var next := AlignedOffset(cur) + |es[0].payload|;
      DataEnds(es[1..], next);
      assert Offsets(es, cur)[|es| - 1] == Offsets(es[1..], next)[|es| - 2];
    } else {
      assert Data(es[1..], AlignedOffset(cur) + |es[0].payload|) == [];
    }
  }

  // ---------------------------------------------------------------- the whole file

  ghost predicate RoundTrippable(ms: seq<Meta>, es: seq<Entry>) {
    && Writable(ms, es) && EntriesOk(es)
    && (forall i :: 0 <= i < |ms| ==> KeepsAlignment(ms[i]))
    && |FileBytes(ms, es)| <= U64_MAX
  }

  ghost function DataPos(ms: seq<Meta>, es: seq<Entry>): nat
    requires MetasOk(ms)
  {
    AlignedOffset(|Header(ms, es)|)
  }

  lemma FileSections(ms: seq<Meta>, es: seq<Entry>)
    requires MetasOk(ms)
    ensures var b := FileBytes(ms, es); var offs := Offsets(es, 0);
      && At(b, 0, Preamble(|es|, |ms|)) && At(b, 24, EncodeMetas(ms))
      && At(b, 24 + |EncodeMetas(ms)|, EncodeEntries(es, offs))
      && |Header(ms, es)| == 24 + |EncodeMetas(ms)| + |EncodeEntries(es, offs)|
      && |b| == DataPos(ms, es) + |Data(es, 0)| && b[DataPos(ms, es)..] == Data(es, 0)
  {
    hide At, Offsets, EncodeMetas, EncodeEntries, Data, AlignedOffset, LE;
    var b, offs := FileBytes(ms, es), Offsets(es, 0);
    var header := Header(ms, es);
    assert b[0..|header|] == header;
    AtSlice(b, 0, header);
    AtSplit(b, 0, Preamble(|es|, |ms|) + EncodeMetas(ms), EncodeEntries(es, offs));
    AtSplit(b, 0, Preamble(|es|, |ms|), EncodeMetas(ms));
  }

  lemma PreambleReads(b: seq<byte>, nTensors: nat, nKv: nat)
    requires nTensors <= U64_MAX && nKv <= U64_MAX && At(b, 0, Preamble(nTensors, nKv))
    ensures ReadInt(b, 0, 4) == Success(MAGIC) && ReadInt(b, 4, 4) == Success(VERSION)
    ensures ReadInt(b, 8, 8) == Success(nTensors) && ReadInt(b, 16, 8) == Success(nKv)
  {
    Pow256Values();
    AtSplit(b, 0, LE(MAGIC, 4) + LE(VERSION, 4) + LE(nTensors, 8), LE(nKv, 8));
    AtSplit(b, 0, LE(MAGIC, 4) + LE(VERSION, 4), LE(nTensors, 8));
    AtSplit(b, 0, LE(MAGIC, 4), LE(VERSION, 4));
    ReadIntAt(b, 0, MAGIC, 4);
    ReadIntAt(b, 4, VERSION, 4);
    ReadIntAt(b, 8, nTensors, 8);
    ReadIntAt(b, 16, nKv, 8);
  }

  /** Reader and writer agree on where the data section begins. */
  lemma DataPositionsAgree(n: nat)
    requires AlignedOffset(n) <= U64_MAX
    ensures R.AlignUp(n, ALIGNMENT) == AlignedOffset(n)
  {
  }

  ghost function ReadBack(ms: seq<Meta>, es: seq<Entry>, max: nat): R.Parsed
    requires MetasOk(ms)
  {
    R.Parsed(KvTable(ms, 24), ALIGNMENT, PlacedTable(TensorTable(es, Offsets(es, 0)), DataPos(ms, es)),
             DataPos(ms, es), max)
  }

  lemma WrittenTensorsFit(ms: seq<Meta>, es: seq<Entry>, i: nat)
    requires RoundTrippable(ms, es) && i < |es|
    ensures DataPos(ms, es) + Offsets(es, 0)[i] + |es[i].payload| <= |FileBytes(ms, es)|
    ensures At(FileBytes(ms, es), DataPos(ms, es) + Offsets(es, 0)[i], es[i].payload)
  {
    hide Header, FileBytes, Data, Offsets, EncodeMetas, DataPos, MetaOk, EntryOk;
    FileSections(ms, es);
    PayloadInData(es, 0, i);
    AtSuffix(FileBytes(ms, es), DataPos(ms, es), Data(es, 0), Offsets(es, 0)[i], es[i].payload);
  }

  /** Opening a written file succeeds and yields exactly the written tables. */
  lemma OpenWritten(ms: seq<Meta>, es: seq<Entry>)
    requires RoundTrippable(ms, es)
    ensures exists max :: R.OpenFile(FileBytes(ms, es)) == Success(ReadBack(ms, es, max))
  {
    hide Header, FileBytes, Data, Offsets, EncodeMetas, EncodeEntries, KvTable, TensorTable, R.ParseKvs, R.ParseTensors,
      R.PlaceTensors, R.AlignUp, MetaOk, EntryOk, CountFits, KeepsAlignment, At, Preamble, PlacedTable, ReadInt,
      AlignedOffset, Product;
    var b, offs := FileBytes(ms, es), Offsets(es, 0);
    FileSections(ms, es);
    PreambleReads(b, |es|, |ms|);
    MetasTakeBytes(ms);
    EntriesTakeBytes(es, offs);
    ReadsKvs(b, 24, ms);
    var p := 24 + |EncodeMetas(ms)|;
    ReadsTensors(b, p, es, offs);
    DataPositionsAgree(|Header(ms, es)|);
    var table := TensorTable(es, offs);
    forall i | 0 <= i < |table| ensures DataPos(ms, es) + table[i].relOffset + table[i].bytes <= |b| {
      WrittenTensorsFit(ms, es, i);
    }
    PlacesTensors(table, DataPos(ms, es), |b|, 0);
    var max := R.PlaceTensors(table, DataPos(ms, es), |b|, 0).value.1;
    assert R.OpenFile(b) == Success(ReadBack(ms, es, max));
  }

  /**
   * The round trip: for every metadata list and entry list the writer accepts, the reader finds each key with its
   * type and the encoded value at the recorded position, and each tensor with its name, shape, type and payload at
   * a 32-byte offset from an aligned data position.
   */
  lemma RoundTrip(ms: seq<Meta>, es: seq<Entry>)
    requires RoundTrippable(ms, es)
    ensures var b := FileBytes(ms, es);
      && R.OpenFile(b).Success?
      && var m := R.OpenFile(b).value;
         && |m.kv| == |ms| && |m.tensors| == |es| && m.alignment == ALIGNMENT && m.tensorDataPos % ALIGNMENT == 0
         && (forall i :: 0 <= i < |ms| ==>
               && m.kv[i].key == ms[i].key && m.kv[i].typ == TypeOf(MetaValue(ms[i]))
               && At(b, m.kv[i].valuePos, EncodeValue(MetaValue(ms[i]))))
         && (forall i :: 0 <= i < |es| ==>
               && m.tensors[i].name == es[i].name && m.tensors[i].dims == es[i].dims && m.tensors[i].typ == es[i].typ
               && m.tensors[i].bytes == |es[i].payload|
               && m.tensors[i].absOffset % ALIGNMENT == 0
               && At(b, m.tensors[i].absOffset, es[i].payload))
  {
    hide Header, FileBytes, Data, Offsets, EncodeMetas, EncodeEntries, KvTable, TensorTable, R.OpenFile, MetaOk,
      EntryOk,
      CountFits, KeepsAlignment, At, Product, EncodeValue, MetaValue, TypeOf, Preamble;
    OpenWritten(ms, es);
    var b := FileBytes(ms, es);
    var max :| R.OpenFile(b) == Success(ReadBack(ms, es, max));
    var m := ReadBack(ms, es, max);
    assert At(b, 24, EncodeMetas(ms)) by {
      FileSections(ms, es);
    }
    forall i | 0 <= i < |ms|
      ensures m.kv[i].key == ms[i].key && m.kv[i].typ == TypeOf(MetaValue(ms[i]))
           && At(b, m.kv[i].valuePos, EncodeValue(MetaValue(ms[i])))
    {
      KvTableAt(b, 24, ms, i);
    }
    forall i | 0 <= i < |es|
      ensures m.tensors[i].absOffset % ALIGNMENT == 0 && At(b, m.tensors[i].absOffset, es[i].payload)
    {
      WrittenTensorsFit(ms, es, i);
      PayloadInData(es, 0, i);
      assert m.tensors[i].absOffset == DataPos(ms, es) + Offsets(es, 0)[i];
    }
  }
}
