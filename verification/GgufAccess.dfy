/** Metadata accessors of src/q3_gguf.c: they decode again what the parser only skipped. */
module GgufAccess {
  import opened Wrappers
  import opened LittleEndian
  import opened GgufFormat
  import opened Subseq
  import opened GgufReader

  // ---------------------------------------------------------------- lookup

  /** The first entry with the key. */
  function FirstKv(kvs: seq<Kv>, key: seq<byte>): (r: Option<Kv>)
    ensures r.Some? ==> r.value in kvs && r.value.key == key
    ensures r.None? ==> forall kv :: kv in kvs ==> kv.key != key
  {
    if kvs == [] then None
    else if kvs[0].key == key then Some(kvs[0])
    else FirstKv(kvs[1..], key)
  }

  /** q3_gguf_find_kv */
  method FindKv(kvs: seq<Kv>, key: seq<byte>) returns (r: Option<Kv>)
    ensures r == FirstKv(kvs, key)
  {
    var i := 0;
    assert kvs[0..] == kvs;
    while i < |kvs|
      invariant 0 <= i <= |kvs|
      invariant FirstKv(kvs, key) == FirstKv(kvs[i..], key)
    {
      if kvs[i].key == key {
        return Some(kvs[i]);
      }
      assert kvs[i..][1..] == kvs[i + 1..];
      i := i + 1;
    }
    return None;
  }

  // ---------------------------------------------------------------- scalar and string accessors

  function GetString(b: seq<byte>, kvs: seq<Kv>, key: seq<byte>): Option<seq<byte>> {
    match FirstKv(kvs, key)
    case None => None
    case Some(kv) =>
      if kv.typ != T_STRING then None
      else match ReadText(b, kv.valuePos) case Success((text, _)) => Some(text) case Failure(_) => None
  }

  function ReadOption(b: seq<byte>, pos: nat, n: nat): Option<nat> {
    match ReadInt(b, pos, n) case Success(v) => Some(v) case Failure(_) => None
  }

  function GetU32(b: seq<byte>, kvs: seq<Kv>, key: seq<byte>): Option<nat> {
    match FirstKv(kvs, key)
    case None => None
    case Some(kv) => if kv.typ != T_UINT32 then None else ReadOption(b, kv.valuePos, 4)
  }

  /** Accepts UINT64 and UINT32 values. */
  function GetU64(b: seq<byte>, kvs: seq<Kv>, key: seq<byte>): Option<nat> {
    match FirstKv(kvs, key)
    case None => None
    case Some(kv) =>
      if kv.typ == T_UINT64 then ReadOption(b, kv.valuePos, 8)
      else if kv.typ == T_UINT32 then ReadOption(b, kv.valuePos, 4)
      else None
  }

  function GetBool(b: seq<byte>, kvs: seq<Kv>, key: seq<byte>): Option<bool> {
    match FirstKv(kvs, key)
    case None => None
    case Some(kv) =>
      if kv.typ != T_BOOL then None
      else match ReadInt(b, kv.valuePos, 1) case Success(v) => Some(v != 0) case Failure(_) => None
  }

  /** The bits of a FLOAT32 value, or of a FLOAT64 value before its conversion. */
  function GetF32Bits(b: seq<byte>, kvs: seq<Kv>, key: seq<byte>): Option<nat> {
    match FirstKv(kvs, key)
    case None => None
    case Some(kv) =>
      if kv.typ == T_FLOAT32 then ReadOption(b, kv.valuePos, 4)
      else if kv.typ == T_FLOAT64 then ReadOption(b, kv.valuePos, 8)
      else None
  }

  /** q3_gguf_get_value: the raw bytes of any scalar. */
  function GetValue(b: seq<byte>, kvs: seq<Kv>, key: seq<byte>): Option<seq<byte>> {
    match FirstKv(kvs, key)
    case None => None
    case Some(kv) =>
      var n := ScalarSize(kv.typ);
      if n == 0 || kv.valuePos + n > |b| then None else Some(b[kv.valuePos..kv.valuePos + n])
  }

  // ---------------------------------------------------------------- every parsed entry is readable

  ghost predicate Skippable(b: seq<byte>, kv: Kv) {
    kv.valuePos <= |b| && SkipValue(b, kv.valuePos, kv.typ, 0).Success?
  }

  lemma {:induction false} ParsedKvsAreSkippable(b: seq<byte>, pos: nat, n: nat, alignment: nat)
    requires alignment > 0 && ParseKvs(b, pos, n, alignment).Success?
    ensures forall kv :: kv in ParseKvs(b, pos, n, alignment).value.0 ==> Skippable(b, kv)
    decreases n
  {
    if n > 0 {
      var (kv, p) := ParseKv(b, pos).value;
      ParsedKvsAreSkippable(b, p, n - 1, NextAlignment(b, kv, alignment));
    }
  }

  /**
   * After a successful parse an accessor whose type matches the entry never runs out of bytes: each one fails only
   * for a missing key or a different type.
   */
  lemma AccessorsNeverTruncate(b: seq<byte>, pos: nat, n: nat, alignment: nat, key: seq<byte>)
    requires alignment > 0 && ParseKvs(b, pos, n, alignment).Success?
    ensures var kvs := ParseKvs(b, pos, n, alignment).value.0;
      match FirstKv(kvs, key)
      case None => GetString(b, kvs, key).None? && GetU32(b, kvs, key).None? && GetValue(b, kvs, key).None?
      case Some(kv) =>
        && (GetString(b, kvs, key).Some? <==> kv.typ == T_STRING)
        && (GetU32(b, kvs, key).Some? <==> kv.typ == T_UINT32)
        && (GetU64(b, kvs, key).Some? <==> kv.typ in {T_UINT32, T_UINT64})
        && (GetBool(b, kvs, key).Some? <==> kv.typ == T_BOOL)
        && (GetF32Bits(b, kvs, key).Some? <==> kv.typ in {T_FLOAT32, T_FLOAT64})
        && (GetValue(b, kvs, key).Some? <==> ScalarSize(kv.typ) != 0)
        && (GetArray(b, kvs, key).Some? <==> kv.typ == T_ARRAY)
  {
    ParsedKvsAreSkippable(b, pos, n, alignment);
    var kvs := ParseKvs(b, pos, n, alignment).value.0;
    match FirstKv(kvs, key) {
      case None =>
      case Some(kv) => assert Skippable(b, kv);
    }
  }

  // ---------------------------------------------------------------- array accessors

  /** The decoded header: item type, count, and where the items start. */
  function GetArray(b: seq<byte>, kvs: seq<Kv>, key: seq<byte>): Option<(nat, nat, nat)> {
    match FirstKv(kvs, key)
    case None => None
    case Some(kv) =>
      if kv.typ != T_ARRAY then None
      else match ReadInt(b, kv.valuePos, 4)
        case Failure(_) => None
        case Success(itemType) =>
          match ReadInt(b, kv.valuePos + 4, 8)
          case Failure(_) => None
          case Success(count) => Some((itemType, count, kv.valuePos + 12))
  }

  /** The two's complement reading of a 32-bit value. */
  function ToI32(v: nat): int {
    if v < 0x8000_0000 then v else v - U32_MODULUS
  }

  /** q3_gguf_array */
  class ArrayCursor {
    const base: seq<byte>
    const itemType: nat
    const count: nat
    var pos: nat
    var index: nat

    constructor (base: seq<byte>, itemType: nat, count: nat, pos: nat)
      ensures this.base == base && this.itemType == itemType && this.count == count
      ensures this.pos == pos && index == 0
    {
      this.base, this.itemType, this.count, this.pos, this.index := base, itemType, count, pos, 0;
    }

    /** Note that the index moves even when the read that follows fails. */
    method Next(wantType: nat) returns (ok: bool)
      modifies this`index
      ensures ok <==> old(index) < count && itemType == wantType
      ensures index == old(index) + if ok then 1 else 0
    {
      if index >= count || itemType != wantType {
        return false;
      }
      index := index + 1;
      return true;
    }

    method NextString() returns (ok: bool, s: seq<byte>)
      modifies this`index, this`pos
      ensures ok <==> old(index) < count && itemType == T_STRING && ReadText(base, old(pos)).Success?
      ensures ok ==> (s, pos) == ReadText(base, old(pos)).value && index == old(index) + 1
      ensures !ok ==> pos == old(pos)
    {
      s := [];
      ok := Next(T_STRING);
      if ok {
        match ReadText(base, pos) {
          case Success((text, end)) => s, pos := text, end;
          case Failure(_) => ok := false;
        }
      }
    }

    method NextFixed(wantType: nat) returns (ok: bool, v: nat)
      modifies this`index, this`pos
      ensures ok <==> old(index) < count && itemType == wantType && ReadInt(base, old(pos), 4).Success?
      ensures ok ==> v == ReadInt(base, old(pos), 4).value && pos == old(pos) + 4 && index == old(index) + 1
      ensures !ok ==> pos == old(pos)
    {
      v := 0;
      ok := Next(wantType);
      if ok {
        match ReadInt(base, pos, 4) {
          case Success(x) => v, pos := x, pos + 4;
          case Failure(_) => ok := false;
        }
      }
    }

    /** q3_gguf_array_next_int: INT32 items, or UINT32 items reinterpreted. */
    method NextInt() returns (ok: bool, v: int)
      modifies this`index, this`pos
      ensures ok <==> old(index) < count && itemType in {T_INT32, T_UINT32} && ReadInt(base, old(pos), 4).Success?
      ensures ok ==> v == ToI32(ReadInt(base, old(pos), 4).value) && pos == old(pos) + 4 && index == old(index) + 1
      ensures !ok ==> pos == old(pos)
    {
      v := 0;
      if itemType == T_INT32 {
        var raw;
        ok, raw := NextFixed(T_INT32);
        v := ToI32(raw);
        return;
      }
      if itemType != T_UINT32 || index >= count {
        return false, 0;
      }
      match ReadInt(base, pos, 4) {
        case Success(x) =>
          pos := pos + 4;
          index := index + 1;
          return true, ToI32(x);
        case Failure(_) =>
          return false, 0;
      }
    }
  }

  /** The texts of an array of strings. */
  function Texts(vs: seq<Value>): seq<seq<byte>>
    requires forall i :: 0 <= i < |vs| ==> vs[i].Text?
  {
    seq(|vs|, i requires 0 <= i < |vs| => vs[i].text)
  }

  lemma TextsOfType(vs: seq<Value>, depth: nat)
    requires forall i :: 0 <= i < |vs| ==> TypeOf(vs[i]) == T_STRING && Storable(vs[i], depth)
    ensures forall i :: 0 <= i < |vs| ==> vs[i].Text? && |vs[i].text| <= U64_MAX
  {
  }

  /** What stands behind the header of a skippable array. */
  lemma ArrayOfValues(b: seq<byte>, valuePos: nat)
    requires valuePos <= |b| && SkipValue(b, valuePos, T_ARRAY, 0).Success?
    requires ReadInt(b, valuePos, 4) == Success(T_STRING)
    ensures var v := ValueAt(b, valuePos, T_ARRAY, 0);
      && v.ValueArray? && (forall i :: 0 <= i < |v.values| ==> v.values[i].Text? && |v.values[i].text| <= U64_MAX)
      && ReadInt(b, valuePos + 4, 8) == Success(|v.values|)
      && At(b, valuePos + 12, EncodeValues(v.values))
      && SkipValue(b, valuePos, T_ARRAY, 0).value == valuePos + 12 + |EncodeValues(v.values)|
  {
    var v := ValueAt(b, valuePos, T_ARRAY, 0);
    assert v.ValueArray?;
    TextsOfType(v.values, 1);
    ArrayHeaderAt(b, valuePos, T_STRING, |v.values|, EncodeValues(v.values));
  }

  /** The caller's loop over a whole array of strings. */
  method DrainStrings(a: ArrayCursor, ghost vs: seq<Value>) returns (ok: bool, items: seq<seq<byte>>)
    requires a.index == 0 && a.count == |vs| && a.itemType == T_STRING && At(a.base, a.pos, EncodeValues(vs))
    requires forall i :: 0 <= i < |vs| ==> vs[i].Text? && |vs[i].text| <= U64_MAX
    modifies a
    ensures ok && items == Texts(vs) && a.pos == old(a.pos) + |EncodeValues(vs)|
  {
    ghost var texts := Texts(vs);
    assert vs[0..] == vs;
    items := [];
    var i := 0;
    while i < a.count
      invariant i <= a.count && a.index == i && items == texts[..i]
      invariant At(a.base, a.pos, EncodeValues(vs[i..]))
      invariant a.pos + |EncodeValues(vs[i..])| == old(a.pos) + |EncodeValues(vs)|
    {
      assert vs[i..][1..] == vs[i + 1..];
      AtSplit(a.base, a.pos, EncodeValue(vs[i]), EncodeValues(vs[i + 1..]));
      ReadTextAt(a.base, a.pos, vs[i].text);
      var s;
      ok, s := a.NextString();
      items := items + [s];
      i := i + 1;
    }
    assert vs[i..] == [] && texts[..i] == texts;
    ok := true;
  }

  /** Reading one string after the other yields the array's texts and stops exactly where skipping the array stops. */
  method ReadAllStrings(b: seq<byte>, valuePos: nat) returns (ok: bool, items: seq<seq<byte>>, end: nat)
    requires valuePos <= |b| && SkipValue(b, valuePos, T_ARRAY, 0).Success?
    requires ReadInt(b, valuePos, 4) == Success(T_STRING)
    ensures ok && end == SkipValue(b, valuePos, T_ARRAY, 0).value
    ensures var v := ValueAt(b, valuePos, T_ARRAY, 0);
      && v.ValueArray? && (forall i :: 0 <= i < |v.values| ==> v.values[i].Text?)
      && items == Texts(v.values)
  {
    ArrayOfValues(b, valuePos);
    var a := new ArrayCursor(b, T_STRING, ReadInt(b, valuePos + 4, 8).value, valuePos + 12);
    ok, items := DrainStrings(a, ValueAt(b, valuePos, T_ARRAY, 0).values);
    end := a.pos;
  }

  /** Item i of an array of 32-bit values. */
  function RawItem(items: seq<byte>, i: nat): nat
    requires 4 * (i + 1) <= |items|
  {
    FromLE(items[4 * i..4 * (i + 1)])
  }

  lemma ArrayOfScalars(b: seq<byte>, valuePos: nat)
    requires valuePos <= |b| && SkipValue(b, valuePos, T_ARRAY, 0).Success?
    requires ReadInt(b, valuePos, 4) in {Success(T_INT32), Success(T_UINT32)}
    ensures var v := ValueAt(b, valuePos, T_ARRAY, 0);
      && v.ScalarArray? && |v.items| == 4 * v.count
      && ReadInt(b, valuePos + 4, 8) == Success(v.count)
      && At(b, valuePos + 12, v.items)
      && SkipValue(b, valuePos, T_ARRAY, 0).value == valuePos + 12 + |v.items|
  {
    var v := ValueAt(b, valuePos, T_ARRAY, 0);
    assert v.ScalarArray?;
    ArrayHeaderAt(b, valuePos, v.itemType, v.count, v.items);
  }

  method DrainInts(a: ArrayCursor, ghost raw: seq<byte>) returns (ok: bool, items: seq<int>)
    requires a.index == 0 && |raw| == 4 * a.count && a.itemType in {T_INT32, T_UINT32} && At(a.base, a.pos, raw)
    modifies a
    ensures ok && |items| == a.count && a.pos == old(a.pos) + |raw|
    ensures forall i :: 0 <= i < a.count ==> items[i] == ToI32(RawItem(raw, i))
  {
    AtSlice(a.base, a.pos, raw);
    items := [];
    var i := 0;
    while i < a.count
      invariant i <= a.count && a.index == i && |items| == i && a.pos == old(a.pos) + 4 * i
      invariant forall k :: 0 <= k < i ==> items[k] == ToI32(RawItem(raw, k))
    {
      SliceOfSlice(a.base, old(a.pos), old(a.pos) + |raw|, 4 * i, 4 * (i + 1));
      var x;
      ok, x := a.NextInt();
      items := items + [x];
      i := i + 1;
    }
    ok := true;
  }

  /** The same for an array of INT32 or UINT32 values. */
  method ReadAllInts(b: seq<byte>, valuePos: nat) returns (ok: bool, items: seq<int>, end: nat)
    requires valuePos <= |b| && SkipValue(b, valuePos, T_ARRAY, 0).Success?
    requires ReadInt(b, valuePos, 4) in {Success(T_INT32), Success(T_UINT32)}
    ensures ok && end == SkipValue(b, valuePos, T_ARRAY, 0).value
    ensures var v := ValueAt(b, valuePos, T_ARRAY, 0);
      && v.ScalarArray? && |items| == v.count && |v.items| == 4 * v.count
      && forall i :: 0 <= i < v.count ==> items[i] == ToI32(RawItem(v.items, i))
  {
    ArrayOfScalars(b, valuePos);
    var itemType, count := ReadInt(b, valuePos, 4).value, ReadInt(b, valuePos + 4, 8).value;
    var a := new ArrayCursor(b, itemType, count, valuePos + 12);
    ok, items := DrainInts(a, ValueAt(b, valuePos, T_ARRAY, 0).items);
    end := a.pos;
  }
}
