/** Every metadata value written is the value the reader's accessors return. */
module GgufValues {
  import opened Wrappers
  import opened LittleEndian
  import opened GgufFormat
  import opened Subseq
  import R = GgufReader
  import A = GgufAccess
  import opened GgufWriter
  import opened GgufRoundTrip

  lemma {:induction false} FirstKvAt(kvs: seq<R.Kv>, i: nat)
    requires i < |kvs| && forall j :: 0 <= j < i ==> kvs[j].key != kvs[i].key
    ensures A.FirstKv(kvs, kvs[i].key) == Some(kvs[i])
  {
    if i > 0 {
      assert forall j :: 0 <= j < i - 1 ==> kvs[1..][j] == kvs[j + 1];
      FirstKvAt(kvs[1..], i - 1);
    }
  }

  // ---------------------------------------------------------------- arrays of strings

  /** Two runs of texts at one position with the same count are the same run. */
  lemma {:induction false} TextsUnique(b: seq<byte>, pos: nat, vs: seq<Value>, ws: seq<Value>)
    requires |vs| == |ws| && At(b, pos, EncodeValues(vs)) && At(b, pos, EncodeValues(ws))
    requires forall i :: 0 <= i < |vs| ==> vs[i].Text? && |vs[i].text| <= U64_MAX
    requires forall i :: 0 <= i < |ws| ==> ws[i].Text? && |ws[i].text| <= U64_MAX
    ensures vs == ws
    decreases |vs|
  {
    if vs != [] {
      hide At, EncodeText, ReadText;
      AtSplit(b, pos, EncodeValue(vs[0]), EncodeValues(vs[1..]));
      AtSplit(b, pos, EncodeValue(ws[0]), EncodeValues(ws[1..]));
      ReadTextAt(b, pos, vs[0].text);
      ReadTextAt(b, pos, ws[0].text);
      assert vs[0] == ws[0];
      TextsUnique(b, pos + |EncodeValue(vs[0])|, vs[1..], ws[1..]);
      assert vs == [vs[0]] + vs[1..] && ws == [ws[0]] + ws[1..];
    }
  }

  /** What reading the array of strings at pos from end to end yields (GgufAccess.ReadAllStrings). */
  ghost predicate YieldsTexts(b: seq<byte>, pos: nat, ts: seq<seq<byte>>) {
    && pos <= |b| && SkipValue(b, pos, T_ARRAY, 0).Success? && ReadInt(b, pos, 4) == Success(T_STRING)
    && var v := ValueAt(b, pos, T_ARRAY, 0);
       v.ValueArray? && (forall i :: 0 <= i < |v.values| ==> v.values[i].Text?) && A.Texts(v.values) == ts
  }

  lemma TextsYield(b: seq<byte>, pos: nat, ts: seq<seq<byte>>)
    requires |ts| <= U64_MAX && forall i :: 0 <= i < |ts| ==> |ts[i]| <= U64_MAX
    requires At(b, pos, EncodeValue(ValueArray(T_STRING, TextValues(ts))))
    ensures YieldsTexts(b, pos, ts)
  {
    hide At, EncodeText, EncodeValues;
    var vs := TextValues(ts);
    SkipEncoded(b, pos, ValueArray(T_STRING, vs), 0);
    ArrayHeaderAt(b, pos, T_STRING, |vs|, EncodeValues(vs));
    assert pos <= |b| by { AtInside(b, pos, EncodeValue(ValueArray(T_STRING, vs))); }
    A.ArrayOfValues(b, pos);
    var v := ValueAt(b, pos, T_ARRAY, 0);
    TextsUnique(b, pos + 12, v.values, vs);
    assert A.Texts(vs) == ts;
  }

  // ---------------------------------------------------------------- arrays of 32-bit integers

  ghost predicate YieldsInts(b: seq<byte>, pos: nat, vs: seq<int>) {
    && pos <= |b| && SkipValue(b, pos, T_ARRAY, 0).Success? && ReadInt(b, pos, 4) == Success(T_INT32)
    && var v := ValueAt(b, pos, T_ARRAY, 0);
       && v.ScalarArray? && v.count == |vs| && |v.items| == 4 * v.count
       && forall i :: 0 <= i < |vs| ==> A.ToI32(A.RawItem(v.items, i)) == vs[i]
  }

  lemma {:induction false} IntAt(vs: seq<int>, i: nat)
    requires I32s(vs) && i < |vs|
    ensures A.ToI32(A.RawItem(EncodeInts(vs), i)) == vs[i]
  {
    var n := |vs| - 1;
    var front, last := EncodeInts(vs[..n]), LE(I32Bits(vs[n]), 4);
    if i < n {
      IntAt(vs[..n], i);
      assert EncodeInts(vs)[4 * i..4 * (i + 1)] == front[4 * i..4 * (i + 1)];
    } else {
      assert EncodeInts(vs)[4 * i..4 * (i + 1)] == last;
      ReadU32(I32Bits(vs[n]));
    }
  }

  lemma IntsYield(b: seq<byte>, pos: nat, vs: seq<int>)
    requires |vs| <= U64_MAX / 4 && I32s(vs)
    requires At(b, pos, EncodeValue(ScalarArray(T_INT32, |vs|, EncodeInts(vs))))
    ensures YieldsInts(b, pos, vs)
  {
    hide EncodeInts, I32s;
    var items := EncodeInts(vs);
    SkipEncoded(b, pos, ScalarArray(T_INT32, |vs|, items), 0);
    ArrayHeaderAt(b, pos, T_INT32, |vs|, items);
    A.ArrayOfScalars(b, pos);
    var v := ValueAt(b, pos, T_ARRAY, 0);
    AtSlice(b, pos + 12, items);
    AtSlice(b, pos + 12, v.items);
    forall i | 0 <= i < |vs| ensures A.ToI32(A.RawItem(v.items, i)) == vs[i] {
      IntAt(vs, i);
    }
  }

  // ---------------------------------------------------------------- any item

  /** The accessor for the item's type returns the item's value. */
  ghost predicate Returned(b: seq<byte>, kvs: seq<R.Kv>, m: Meta) {
    match m
    case MetaU32(key, v) => A.GetU32(b, kvs, key) == Some(v) && A.GetU64(b, kvs, key) == Some(v)
    case MetaF32(key, bits) => A.GetF32Bits(b, kvs, key) == Some(bits)
    case MetaText(key, text) => A.GetString(b, kvs, key) == Some(text)
    case MetaBool(key, flag) => A.GetBool(b, kvs, key) == Some(flag)
    case MetaTexts(key, ts) =>
      A.GetArray(b, kvs, key).Some? && A.GetArray(b, kvs, key).value.1 == |ts|
      && A.FirstKv(kvs, key).Some? && YieldsTexts(b, A.FirstKv(kvs, key).value.valuePos, ts)
    case MetaInts(key, vs) =>
      A.GetArray(b, kvs, key).Some? && A.GetArray(b, kvs, key).value.1 == |vs|
      && A.FirstKv(kvs, key).Some? && YieldsInts(b, A.FirstKv(kvs, key).value.valuePos, vs)
  }

  lemma ValueReturned(b: seq<byte>, kvs: seq<R.Kv>, m: Meta, kv: R.Kv)
    requires MetaOk(m) && A.FirstKv(kvs, m.key) == Some(kv) && kv.typ == TypeOf(MetaValue(m))
    requires At(b, kv.valuePos, EncodeValue(MetaValue(m)))
    ensures Returned(b, kvs, m)
  {
    hide At, EncodeInts, EncodeValues, LE, A.FirstKv, YieldsTexts, YieldsInts, SkipValue;
    var pos := kv.valuePos;
    Pow256Values();
    match m
    case MetaU32(_, v) => ReadIntAt(b, pos, v, 4);
    case MetaF32(_, v) => ReadIntAt(b, pos, v, 4);
    case MetaText(_, t) => ReadTextAt(b, pos, t);
    case MetaBool(_, flag) => BoolReturned(b, pos, flag);
    case MetaTexts(_, ts) =>
      ArrayHeaderAt(b, pos, T_STRING, |ts|, EncodeValues(TextValues(ts)));
      TextsYield(b, pos, ts);
    case MetaInts(_, vs) =>
      ArrayHeaderAt(b, pos, T_INT32, |vs|, EncodeInts(vs));
      IntsYield(b, pos, vs);
  }

  lemma BoolReturned(b: seq<byte>, pos: nat, flag: bool)
    requires At(b, pos, [if flag then 1 else 0])
    ensures ReadInt(b, pos, 1) == Success(if flag then 1 else 0)
  {
    var x: seq<byte> := [if flag then 1 else 0];
    AtSlice(b, pos, x);
    assert FromLE(x) == x[0] + 256 * FromLE(x[1..]) && x[1..] == [];
  }

  /** Looking up any key the writer stored returns the value of the first item stored under it. */
  lemma WrittenValuesReturned(ms: seq<Meta>, es: seq<Entry>, i: nat)
    requires RoundTrippable(ms, es) && i < |ms| && forall j :: 0 <= j < i ==> ms[j].key != ms[i].key
    ensures R.OpenFile(FileBytes(ms, es)).Success?
    ensures Returned(FileBytes(ms, es), R.OpenFile(FileBytes(ms, es)).value.kv, ms[i])
  {
    hide FileBytes, At, R.OpenFile, Returned, MetaValue, EncodeValue, MetaOk, EntryOk, CountFits, KeepsAlignment,
      A.FirstKv, TypeOf;
    var b := FileBytes(ms, es);
    RoundTrip(ms, es);
    var kvs := R.OpenFile(b).value.kv;
    assert forall j :: 0 <= j <= i ==> kvs[j].key == ms[j].key;
    FirstKvAt(kvs, i);
    ValueReturned(b, kvs, ms[i], kvs[i]);
  }
}
