/** What an opened GGUF file promises about its tensors, its alignment and its first bytes, and when opening fails. */
module GgufBounds {
  import opened Wrappers
  import opened LittleEndian
  import opened GgufFormat
  import opened Subseq
  import opened GgufWriter
  import opened GgufRoundTrip
  import R = GgufReader

  // ---------------------------------------------------------------- bounds

  /** Offset and payload of a tensor stay within 64 bits and, where it has a payload, within the file. */
  ghost predicate Inside(t: R.Tensor, dataPos: nat, size: nat) {
    dataPos + t.relOffset <= U64_MAX && (t.bytes != 0 ==> dataPos + t.relOffset + t.bytes <= size)
  }

  lemma PlaceOne(t: R.Tensor, dataPos: nat, size: nat)
    ensures R.PlaceTensor(t, dataPos, size).Success? <==> Inside(t, dataPos, size)
    ensures R.PlaceTensor(t, dataPos, size).Success? ==>
      R.PlaceTensor(t, dataPos, size).value == t.(absOffset := dataPos + t.relOffset)
  {
  }

  ghost predicate AllInside(ts: seq<R.Tensor>, dataPos: nat, size: nat) {
    forall i :: 0 <= i < |ts| ==> Inside(ts[i], dataPos, size)
  }

  lemma {:induction false} PlacesIfInside(ts: seq<R.Tensor>, dataPos: nat, size: nat, max: nat)
    ensures R.PlaceTensors(ts, dataPos, size, max).Success? <==> AllInside(ts, dataPos, size)
    decreases |ts|
  {
    hide Inside, R.PlaceTensor;
    if ts != [] {
      PlaceOne(ts[0], dataPos, size);
      assert forall i :: 0 < i < |ts| ==> ts[i] == ts[1..][i - 1];
      assert AllInside(ts, dataPos, size) <==> Inside(ts[0], dataPos, size) && AllInside(ts[1..], dataPos, size) by {
        if Inside(ts[0], dataPos, size) && AllInside(ts[1..], dataPos, size) {
          forall i | 0 <= i < |ts| ensures Inside(ts[i], dataPos, size) {
            if i > 0 {
              assert Inside(ts[1..][i - 1], dataPos, size);
            }
          }
        }
        if AllInside(ts, dataPos, size) {
          forall i | 0 <= i < |ts[1..]| ensures Inside(ts[1..][i], dataPos, size) {
            assert Inside(ts[i + 1], dataPos, size);
          }
        }
      }
      PlacesIfInside(ts[1..], dataPos, size, if ts[0].bytes > max then ts[0].bytes else max);
    }
  }

  /** Placing sets the absolute offsets and finds the largest size. */
  lemma {:induction false} PlacedTensors(ts: seq<R.Tensor>, dataPos: nat, size: nat, max: nat)
    requires R.PlaceTensors(ts, dataPos, size, max).Success?
    ensures var (placed, largest) := R.PlaceTensors(ts, dataPos, size, max).value;
      && |placed| == |ts|
      && (forall i :: 0 <= i < |ts| ==> placed[i] == ts[i].(absOffset := dataPos + ts[i].relOffset))
      && largest >= max && (forall i :: 0 <= i < |ts| ==> ts[i].bytes <= largest)
      && (largest == max || exists i :: 0 <= i < |ts| && ts[i].bytes == largest)
    decreases |ts|
  {
    hide Inside, R.PlaceTensor;
    if ts != [] {
      PlaceOne(ts[0], dataPos, size);
      var next := if ts[0].bytes > max then ts[0].bytes else max;
      PlacedTensors(ts[1..], dataPos, size, next);
      var (placed, largest) := R.PlaceTensors(ts, dataPos, size, max).value;
      var rest := R.PlaceTensors(ts[1..], dataPos, size, next).value.0;
      assert placed == [ts[0].(absOffset := dataPos + ts[0].relOffset)] + rest;
      forall i | 0 <= i < |ts|
        ensures placed[i] == ts[i].(absOffset := dataPos + ts[i].relOffset) && ts[i].bytes <= largest
      {
        if i > 0 {
          assert ts[i] == ts[1..][i - 1] && placed[i] == rest[i - 1];
        }
      }
      if largest != next {
        var i :| 0 <= i < |ts[1..]| && ts[1..][i].bytes == largest;
        assert ts[i + 1].bytes == largest;
      } else if largest != max {
        assert ts[0].bytes == largest;
      }
    }
  }

  /** The first tensor that is not inside decides the error. */
  lemma {:induction false} PlaceError(ts: seq<R.Tensor>, dataPos: nat, size: nat, max: nat, k: nat)
    requires k < |ts| && !Inside(ts[k], dataPos, size) && forall i :: 0 <= i < k ==> Inside(ts[i], dataPos, size)
    ensures R.PlaceTensors(ts, dataPos, size, max)
      == Failure(if dataPos + ts[k].relOffset > U64_MAX then OffsetOverflow else OutsideFile)
    decreases k
  {
    if k > 0 {
      assert Inside(ts[0], dataPos, size);
      PlaceError(ts[1..], dataPos, size, if ts[0].bytes > max then ts[0].bytes else max, k - 1);
    }
  }

  // ---------------------------------------------------------------- the whole file

  /** What stands in front of the placing of the tensors. */
  ghost predicate TableParsed(b: seq<byte>, ts: seq<R.Tensor>, dataPos: nat) {
    && |b| >= 32 && ReadInt(b, 0, 4) == Success(MAGIC) && ReadInt(b, 4, 4) == Success(VERSION)
    && ReadInt(b, 8, 8).Success? && ReadInt(b, 16, 8).Success?
    && var nTensors, nKv := ReadInt(b, 8, 8).value, ReadInt(b, 16, 8).value;
    && nKv <= |b| - 24 && R.ParseKvs(b, 24, nKv, 32).Success?
    && var (p, alignment) := R.ParseKvs(b, 24, nKv, 32).value.1;
    && nTensors <= |b| - p && R.ParseTensors(b, p, nTensors).Success?
    && ts == R.ParseTensors(b, p, nTensors).value.0
    && dataPos == R.AlignUp(R.ParseTensors(b, p, nTensors).value.1, alignment)
  }

  /** Once the tensor table has parsed, opening succeeds if and only if every tensor lies inside the file. */
  lemma OpensIffInside(b: seq<byte>, ts: seq<R.Tensor>, dataPos: nat)
    requires TableParsed(b, ts, dataPos)
    ensures R.OpenFile(b).Success? <==>
      forall i :: 0 <= i < |ts| ==>
        && dataPos + ts[i].relOffset <= U64_MAX
        && (ts[i].bytes != 0 ==> dataPos + ts[i].relOffset + ts[i].bytes <= |b|)
  {
    hide R.ParseKvs, R.ParseTensors, R.PlaceTensors, R.AlignUp, ReadInt;
    PlacesIfInside(ts, dataPos, |b|, 0);
  }

  /** A file that opens has a table that parsed. */
  lemma OpenedTable(b: seq<byte>) returns (ts: seq<R.Tensor>)
    requires R.OpenFile(b).Success?
    ensures var m := R.OpenFile(b).value;
      && TableParsed(b, ts, m.tensorDataPos)
      && R.PlaceTensors(ts, m.tensorDataPos, |b|, 0) == Success((m.tensors, m.maxTensorBytes))
  {
    hide R.ParseKvs, R.ParseTensors, R.PlaceTensors, R.AlignUp, ReadInt;
    var nTensors, nKv := ReadInt(b, 8, 8).value, ReadInt(b, 16, 8).value;
    ts := R.ParseTensors(b, R.ParseKvs(b, 24, nKv, 32).value.1.0, nTensors).value.0;
  }

  /** In a file that opens, all tensors lie inside the file, and the largest size is one of theirs. */
  lemma OpenedTensorsInside(b: seq<byte>)
    requires R.OpenFile(b).Success?
    ensures var m := R.OpenFile(b).value;
      && (forall i :: 0 <= i < |m.tensors| ==>
            var t := m.tensors[i];
            && t.absOffset == m.tensorDataPos + t.relOffset && t.absOffset <= U64_MAX
            && (t.bytes != 0 ==> t.absOffset + t.bytes <= |b|)
            && t.bytes <= m.maxTensorBytes)
      && (m.maxTensorBytes == 0 || exists i :: 0 <= i < |m.tensors| && m.tensors[i].bytes == m.maxTensorBytes)
  {
    hide R.OpenFile, TableParsed;
    var m := R.OpenFile(b).value;
    var ts := OpenedTable(b);
    PlacesIfInside(ts, m.tensorDataPos, |b|, 0);
    PlacedTensors(ts, m.tensorDataPos, |b|, 0);
    if m.maxTensorBytes != 0 {
      var i :| 0 <= i < |ts| && ts[i].bytes == m.maxTensorBytes;
      assert m.tensors[i].bytes == m.maxTensorBytes;
    }
  }

  /** It begins with the letters GGUF and the version 3, in little-endian order. */
  lemma OpenedHeader(b: seq<byte>)
    requires R.OpenFile(b).Success?
    ensures |b| >= 32 && b[..8] == [0x47, 0x47, 0x55, 0x46, 3, 0, 0, 0]
  {
    hide R.ParseKvs, R.ParseTensors, R.PlaceTensors, R.AlignUp, LE, FromLE;
    HeaderBytes(b[0..4], b[4..8]);
    assert b[..8] == b[0..4] + b[4..8];
  }

  lemma HeaderBytes(x: seq<byte>, y: seq<byte>)
    requires |x| == 4 && |y| == 4 && FromLE(x) == MAGIC && FromLE(y) == VERSION
    ensures x == [0x47, 0x47, 0x55, 0x46] && y == [3, 0, 0, 0]
  {
    hide LE, FromLE;
    LEOfFromLE(x);
    LEOfFromLE(y);
    FourBytes(MAGIC);
    FourBytes(VERSION);
  }

  /** The bytes of a 32-bit integer. */
  lemma FourBytes(v: nat)
    requires v < U32_MODULUS
    ensures LE(v, 4) == [v % 256, v / 256 % 256, v / 0x1_0000 % 256, v / 0x100_0000 % 256]
  {
    assert LE(v, 4) == [v % 256] + LE(v / 256, 3);
    assert LE(v / 256, 3) == [v / 256 % 256] + LE(v / 256 / 256, 2);
    assert LE(v / 256 / 256, 2) == [v / 256 / 256 % 256] + LE(v / 256 / 256 / 256, 1);
    assert LE(v / 256 / 256 / 256, 1) == [v / 256 / 256 / 256 % 256] + LE(v / 256 / 256 / 256 / 256, 0);
  }

  // ---------------------------------------------------------------- alignment

  /** The entry sets the alignment: the key, a 32-bit value, and not zero. */
  ghost predicate SetsAlignment(b: seq<byte>, kv: R.Kv) {
    && kv.key == R.ALIGNMENT_KEY && kv.typ == 4
    && ReadInt(b, kv.valuePos, 4).Success? && ReadInt(b, kv.valuePos, 4).value != 0
  }

  /** The last entry that sets the alignment decides it. */
  lemma {:induction false} LastAlignmentWins(b: seq<byte>, pos: nat, n: nat, alignment: nat)
    requires alignment > 0 && R.ParseKvs(b, pos, n, alignment).Success?
    ensures var (kvs, (_, a)) := R.ParseKvs(b, pos, n, alignment).value;
      || (a == alignment && forall i :: 0 <= i < n ==> !SetsAlignment(b, kvs[i]))
      || exists i :: 0 <= i < n && SetsAlignment(b, kvs[i]) && a == ReadInt(b, kvs[i].valuePos, 4).value
           && forall k :: i < k < n ==> !SetsAlignment(b, kvs[k])
    decreases n
  {
    hide R.ParseKv, ReadInt;
    if n > 0 {
      var (kv, p) := R.ParseKv(b, pos).value;
      var next := R.NextAlignment(b, kv, alignment);
      LastAlignmentWins(b, p, n - 1, next);
      var (kvs, (_, a)) := R.ParseKvs(b, pos, n, alignment).value;
      var rest := R.ParseKvs(b, p, n - 1, next).value.0;
      assert kvs == [kv] + rest;
      assert forall i :: 0 < i < n ==> kvs[i] == rest[i - 1];
      if i :|
        && 0 <= i < n - 1 && SetsAlignment(b, rest[i]) && a == ReadInt(b, rest[i].valuePos, 4).value
        && forall k :: i < k < n - 1 ==> !SetsAlignment(b, rest[k])
      {
        assert SetsAlignment(b, kvs[i + 1]);
      } else if SetsAlignment(b, kv) {
        assert SetsAlignment(b, kvs[0]) && a == next;
      }
    }
  }

  /** The data section begins at the first multiple of the alignment behind the tables. */
  lemma DataIsAligned(end: nat, alignment: nat)
    requires alignment > 0 && end + alignment <= U64_MAX
    ensures var pos := R.AlignUp(end, alignment);
      end <= pos < end + alignment && exists k: nat :: pos == alignment * k
  {
    var k := end / alignment;
    assert end == alignment * k + end % alignment;
    if end % alignment != 0 {
      assert alignment * (k + 1) == alignment * k + alignment;
    }
  }

  // ---------------------------------------------------------------- incomplete files

  lemma AtPrefix<T>(b: seq<T>, n: nat, pos: nat, x: seq<T>)
    requires At(b, pos, x) && pos + |x| <= n <= |b|
    ensures At(b[..n], pos, x)
  {
    forall k | 0 <= k < |x| ensures SameItem(b[..n], pos, x, k) {
      assert SameItem(b, pos, x, k);
    }
  }

  /** Whatever begins with the header of a written file has its tables. */
  lemma HeaderParses(b: seq<byte>, ms: seq<Meta>, es: seq<Entry>)
    requires RoundTrippable(ms, es) && |b| >= DataPos(ms, es)
    requires At(b, 0, Preamble(|es|, |ms|)) && At(b, 24, EncodeMetas(ms))
    requires At(b, 24 + |EncodeMetas(ms)|, EncodeEntries(es, Offsets(es, 0)))
    ensures TableParsed(b, TensorTable(es, Offsets(es, 0)), DataPos(ms, es))
  {
    hide Header, FileBytes, Data, Offsets, EncodeMetas, EncodeEntries, KvTable, TensorTable, R.ParseKvs, R.ParseTensors,
      R.PlaceTensors, R.AlignUp, MetaOk, EntryOk, CountFits, KeepsAlignment, At, Preamble, PlacedTable, ReadInt,
      AlignedOffset, Product;
    var offs := Offsets(es, 0);
    FileSections(ms, es);
    PreambleReads(b, |es|, |ms|);
    MetasTakeBytes(ms);
    EntriesTakeBytes(es, offs);
    ReadsKvs(b, 24, ms);
    forall i | 0 <= i < |offs| ensures offs[i] <= U64_MAX {
      WrittenTensorsFit(ms, es, i);
    }
    ReadsTensors(b, 24 + |EncodeMetas(ms)|, es, offs);
    DataPositionsAgree(|Header(ms, es)|);
    AtLeast32(|Header(ms, es)|);
  }

  lemma AtLeast32(n: nat)
    requires n >= 24
    ensures n <= AlignedOffset(n) && AlignedOffset(n) >= 32
  {
  }

  /** An incomplete copy of a written file, one that ends inside the last payload, does not open. */
  lemma IncompleteFileFails(ms: seq<Meta>, es: seq<Entry>, n: nat)
    requires RoundTrippable(ms, es) && es != []
    requires DataPos(ms, es) + Offsets(es, 0)[|es| - 1] <= n < |FileBytes(ms, es)|
    ensures R.OpenFile(FileBytes(ms, es)[..n]) == Failure(OutsideFile)
  {
    hide Header, FileBytes, Data, Offsets, EncodeMetas, EncodeEntries, DataPos, TensorTable, R.OpenFile, MetaOk,
      EntryOk,
      CountFits, KeepsAlignment, At, Preamble, TableParsed, Product;
    var b, offs, k := FileBytes(ms, es), Offsets(es, 0), |es| - 1;
    FileSections(ms, es);
    DataEnds(es, 0);
    DataBehindHeader(ms, es);
    AtPrefix(b, n, 0, Preamble(|es|, |ms|));
    AtPrefix(b, n, 24, EncodeMetas(ms));
    AtPrefix(b, n, 24 + |EncodeMetas(ms)|, EncodeEntries(es, offs));
    HeaderParses(b[..n], ms, es);
    var ts := TensorTable(es, offs);
    WrittenTensorsFit(ms, es, k);
    forall i | 0 <= i < k ensures Inside(ts[i], DataPos(ms, es), n) {
      OffsetsOrdered(es, i, k);
    }
    PlaceError(ts, DataPos(ms, es), n, 0, k);
    PlaceFailureShows(b[..n], ts, DataPos(ms, es));
  }

  lemma DataBehindHeader(ms: seq<Meta>, es: seq<Entry>)
    requires MetasOk(ms)
    ensures |Preamble(|es|, |ms|)| == 24 && |Header(ms, es)| <= DataPos(ms, es)
  {
    hide Header;
  }

  lemma PlaceFailureShows(b: seq<byte>, ts: seq<R.Tensor>, dataPos: nat)
    requires TableParsed(b, ts, dataPos) && R.PlaceTensors(ts, dataPos, |b|, 0).Failure?
    ensures R.OpenFile(b) == Failure(R.PlaceTensors(ts, dataPos, |b|, 0).error)
  {
    hide R.ParseKvs, R.ParseTensors, R.PlaceTensors, R.AlignUp, ReadInt;
  }
}
