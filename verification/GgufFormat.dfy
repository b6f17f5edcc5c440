/** The GGUF v3 container: value types, block table, and the grammar of metadata values. */
module GgufFormat {
  import opened Wrappers
  import opened LittleEndian
  import opened Subseq

  const MAGIC: nat := 0x4655_4747
  const VERSION: nat := 3
  const DEFAULT_ALIGNMENT: nat := 32
  const MAX_DIMS: nat := 8
  const MAX_NAME: nat := 128
  const MAX_DEPTH: nat := 8

  const T_UINT8: nat := 0
  const T_INT8: nat := 1
  const T_UINT16: nat := 2
  const T_INT16: nat := 3
  const T_UINT32: nat := 4
  const T_INT32: nat := 5
  const T_FLOAT32: nat := 6
  const T_BOOL: nat := 7
  const T_STRING: nat := 8
  const T_ARRAY: nat := 9
  const T_UINT64: nat := 10
  const T_INT64: nat := 11
  const T_FLOAT64: nat := 12

  datatype ParseError =
    | TooSmall | NotGguf | WrongVersion | Truncated
    | MetadataCount | TooDeep | ArrayTooLarge | UnknownType
    | TensorCount | BadDimensions | ElementOverflow | OffsetOverflow | OutsideFile

  /** scalar_value_size: 0 for everything that is not a scalar. */
  function ScalarSize(typ: nat): nat {
    if typ == T_UINT8 || typ == T_INT8 || typ == T_BOOL then 1
    else if typ == T_UINT16 || typ == T_INT16 then 2
    else if typ == T_UINT32 || typ == T_INT32 || typ == T_FLOAT32 then 4
    else if typ == T_UINT64 || typ == T_INT64 || typ == T_FLOAT64 then 8
    else 0
  }

  /** The table of tensor types: elements and bytes of one block. */
  function BlockInfo(typ: nat): Option<(nat, nat)> {
    match typ
    case 0 => Some((1, 4))
    case 1 => Some((1, 2))
    case 2 => Some((32, 18))
    case 3 => Some((32, 20))
    case 6 => Some((32, 22))
    case 7 => Some((32, 24))
    case 8 => Some((32, 34))
    case 9 => Some((32, 40))
    case 10 => Some((256, 84))
    case 11 => Some((256, 110))
    case 12 => Some((256, 144))
    case 13 => Some((256, 176))
    case 14 => Some((256, 210))
    case 15 => Some((256, 292))
    case 16 => Some((256, 66))
    case 17 => Some((256, 74))
    case 18 => Some((256, 98))
    case 19 => Some((256, 110))
    case 20 => Some((256, 50))
    case 21 => Some((256, 110))
    case 22 => Some((256, 82))
    case 23 => Some((256, 136))
    case 24 => Some((1, 1))
    case 25 => Some((1, 2))
    case 26 => Some((1, 4))
    case 27 => Some((1, 8))
    case 28 => Some((1, 8))
    case 29 => Some((256, 56))
    case 30 => Some((1, 2))
    case 39 => Some((32, 17))
    case _ => None
  }

  /** q3_gguf_type_nbytes, with the 64-bit wrap of the block rounding. */
  function TypeBytes(typ: nat, elements: nat): Option<nat> {
    match BlockInfo(typ)
    case None => None
    case Some((blockElems, blockBytes)) =>
      if blockElems == 0 || blockBytes == 0 then None else
      var blocks := (elements + blockElems - 1) % U64_MODULUS / blockElems;
      if blocks > U64_MAX / blockBytes then None else Some(blocks * blockBytes)
  }

  // ---------------------------------------------------------------- metadata values

  /** A metadata value; an array of scalars is kept as its raw bytes. */
  datatype Value =
    | Scalar(typ: nat, raw: seq<byte>)
    | Text(text: seq<byte>)
    | ScalarArray(itemType: nat, count: nat, items: seq<byte>)
    | ValueArray(itemType: nat, values: seq<Value>)

  function TypeOf(v: Value): nat {
    match v
    case Scalar(typ, _) => typ
    case Text(_) => T_STRING
    case ScalarArray(_, _, _) => T_ARRAY
    case ValueArray(_, _) => T_ARRAY
  }

  /** v can be stored as a value of its type, nested `depth` arrays deep. */
  ghost predicate Storable(v: Value, depth: nat) {
    && depth <= MAX_DEPTH
    && match v
       case Scalar(typ, raw) => ScalarSize(typ) != 0 && |raw| == ScalarSize(typ)
       case Text(text) => |text| <= U64_MAX
       case ScalarArray(itemType, count, items) =>
         && itemType < U32_MODULUS && ScalarSize(itemType) != 0
         && count <= U64_MAX / ScalarSize(itemType) && |items| == count * ScalarSize(itemType)
       case ValueArray(itemType, values) =>
         && itemType < U32_MODULUS && ScalarSize(itemType) == 0 && |values| <= U64_MAX
         && forall i :: 0 <= i < |values| ==> TypeOf(values[i]) == itemType && Storable(values[i], depth + 1)
  }

  function EncodeText(text: seq<byte>): seq<byte> { LE(|text|, 8) + text }

  function EncodeValue(v: Value): seq<byte> {
    match v
    case Scalar(_, raw) => raw
    case Text(text) => EncodeText(text)
    case ScalarArray(itemType, count, items) => LE(itemType, 4) + LE(count, 8) + items
    case ValueArray(itemType, values) => LE(itemType, 4) + LE(|values|, 8) + EncodeValues(values)
  }

  function EncodeValues(vs: seq<Value>): seq<byte> {
    if vs == [] then [] else EncodeValue(vs[0]) + EncodeValues(vs[1..])
  }

  // ---------------------------------------------------------------- reading at a position

  function ReadInt(b: seq<byte>, pos: nat, n: nat): Result<nat, ParseError> {
    if pos + n <= |b| then Success(FromLE(b[pos..pos + n])) else Failure(Truncated)
  }

  function Advance(b: seq<byte>, pos: nat, n: nat): (r: Result<nat, ParseError>)
    ensures r.Success? ==> r.value <= |b|
  {
    if pos + n <= |b| then Success(pos + n) else Failure(Truncated)
  }

  /** cursor_string: the text and the position after it. */
  function ReadText(b: seq<byte>, pos: nat): (r: Result<(seq<byte>, nat), ParseError>)
    ensures r.Success? ==> r.value.1 <= |b|
  {
    var len :- ReadInt(b, pos, 8);
    var end :- Advance(b, pos + 8, len);
    Success((b[pos + 8..end], end))
  }

  /** skip_value: where the value of this type that starts at pos ends. */
  function SkipValue(b: seq<byte>, pos: nat, typ: nat, depth: nat): (r: Result<nat, ParseError>)
    requires pos <= |b| && depth <= MAX_DEPTH + 1
    ensures r.Success? ==> r.value <= |b|
    decreases MAX_DEPTH + 1 - depth, 0
  {
    if depth > MAX_DEPTH then Failure(TooDeep)
    else if ScalarSize(typ) != 0 then Advance(b, pos, ScalarSize(typ))
    else if typ == T_STRING then
      var (text, end) :- ReadText(b, pos);
      Success(end)
    else if typ == T_ARRAY then
      var itemType :- ReadInt(b, pos, 4);
      var len :- ReadInt(b, pos + 4, 8);
      var size := ScalarSize(itemType);
      if size != 0 then
        if len > U64_MAX / size then Failure(ArrayTooLarge) else Advance(b, pos + 12, len * size)
      else SkipValues(b, pos + 12, itemType, depth + 1, len)
    else Failure(UnknownType)
  }

  function SkipValues(b: seq<byte>, pos: nat, typ: nat, depth: nat, count: nat): (r: Result<nat, ParseError>)
    requires pos <= |b| && depth <= MAX_DEPTH + 1
    ensures r.Success? ==> r.value <= |b|
    decreases MAX_DEPTH + 1 - depth, count
  {
    if count == 0 then Success(pos)
    else
      var next :- SkipValue(b, pos, typ, depth);
      SkipValues(b, next, typ, depth, count - 1)
  }

  // ---------------------------------------------------------------- skipping accepts exactly the encodings

  lemma ReadIntAt(b: seq<byte>, pos: nat, v: nat, n: nat)
    requires v < Pow256(n)
    requires At(b, pos, LE(v, n))
    ensures ReadInt(b, pos, n) == Success(v)
  {
    AtSlice(b, pos, LE(v, n));
    FromLEOfLE(v, n);
  }

  lemma AtReadInt(b: seq<byte>, pos: nat, n: nat)
    requires pos + n <= |b|
    ensures ReadInt(b, pos, n).Success? && ReadInt(b, pos, n).value < Pow256(n)
    ensures At(b, pos, LE(ReadInt(b, pos, n).value, n))
  {
    LEOfFromLE(b[pos..pos + n]);
    AtSlice(b, pos, b[pos..pos + n]);
  }

  lemma ReadTextAt(b: seq<byte>, pos: nat, text: seq<byte>)
    requires |text| <= U64_MAX && At(b, pos, EncodeText(text))
    ensures ReadText(b, pos) == Success((text, pos + |EncodeText(text)|))
  {
    Pow256Values();
    AtSplit(b, pos, LE(|text|, 8), text);
    ReadIntAt(b, pos, |text|, 8);
    AtSlice(b, pos + 8, text);
  }

  lemma AtReadText(b: seq<byte>, pos: nat)
    requires ReadText(b, pos).Success?
    ensures var (text, end) := ReadText(b, pos).value;
      |text| <= U64_MAX && At(b, pos, EncodeText(text)) && end == pos + |EncodeText(text)|
  {
    Pow256Values();
    var (text, end) := ReadText(b, pos).value;
    AtReadInt(b, pos, 8);
    AtSlice(b, pos + 8, text);
    AtSplit(b, pos, LE(|text|, 8), text);
  }

  /** Skipping an encoded value lands exactly behind it, whatever follows. */
  lemma {:induction false} SkipEncoded(b: seq<byte>, pos: nat, v: Value, depth: nat)
    requires Storable(v, depth) && At(b, pos, EncodeValue(v))
    ensures SkipValue(b, pos, TypeOf(v), depth) == Success(pos + |EncodeValue(v)|)
    decreases v, 0
  {
    match v
    case Scalar(typ, raw) =>
    case Text(text) =>
      ReadTextAt(b, pos, text);
    case ScalarArray(itemType, count, items) =>
      ArrayHeaderAt(b, pos, itemType, count, items);
      SkipsScalars(b, pos, itemType, count, depth);
    case ValueArray(itemType, values) =>
      ArrayHeaderAt(b, pos, itemType, |values|, EncodeValues(values));
      SkipEncodedValues(b, pos + 12, values, itemType, depth + 1);
      SkipsItems(b, pos, itemType, |values|, depth);
  }

  lemma SkipsScalars(b: seq<byte>, pos: nat, itemType: nat, count: nat, depth: nat)
    requires pos + 12 <= |b| && depth <= MAX_DEPTH && ScalarSize(itemType) != 0
      && count <= U64_MAX / ScalarSize(itemType)
    requires ReadInt(b, pos, 4) == Success(itemType) && ReadInt(b, pos + 4, 8) == Success(count)
    ensures SkipValue(b, pos, T_ARRAY, depth) == Advance(b, pos + 12, count * ScalarSize(itemType))
  {
  }

  lemma SkipsItems(b: seq<byte>, pos: nat, itemType: nat, count: nat, depth: nat)
    requires pos + 12 <= |b| && depth <= MAX_DEPTH && ScalarSize(itemType) == 0
    requires ReadInt(b, pos, 4) == Success(itemType) && ReadInt(b, pos + 4, 8) == Success(count)
    ensures SkipValue(b, pos, T_ARRAY, depth) == SkipValues(b, pos + 12, itemType, depth + 1, count)
  {
  }

  lemma ArrayHeaderAt(b: seq<byte>, pos: nat, itemType: nat, count: nat, items: seq<byte>)
    requires itemType < U32_MODULUS && count <= U64_MAX
    requires At(b, pos, LE(itemType, 4) + LE(count, 8) + items)
    ensures ReadInt(b, pos, 4) == Success(itemType) && ReadInt(b, pos + 4, 8) == Success(count)
    ensures At(b, pos + 12, items)
  {
    Pow256Values();
    AtSplit(b, pos, LE(itemType, 4) + LE(count, 8), items);
    AtSplit(b, pos, LE(itemType, 4), LE(count, 8));
    ReadIntAt(b, pos, itemType, 4);
    ReadIntAt(b, pos + 4, count, 8);
  }

  lemma {:induction false} SkipEncodedValues(b: seq<byte>, pos: nat, vs: seq<Value>, typ: nat, depth: nat)
    requires At(b, pos, EncodeValues(vs)) && depth <= MAX_DEPTH + 1
    requires forall i :: 0 <= i < |vs| ==> TypeOf(vs[i]) == typ && Storable(vs[i], depth)
    ensures SkipValues(b, pos, typ, depth, |vs|) == Success(pos + |EncodeValues(vs)|)
    decreases vs, 1
  {
    hide At, EncodeValue, SkipValue, Storable;
    if vs != [] {
      AtSplit(b, pos, EncodeValue(vs[0]), EncodeValues(vs[1..]));
      SkipEncoded(b, pos, vs[0], depth);
      SkipEncodedValues(b, pos + |EncodeValue(vs[0])|, vs[1..], typ, depth);
    }
  }

  /** The value that a successful skip passed over. */
  ghost function ValueAt(b: seq<byte>, pos: nat, typ: nat, depth: nat): (v: Value)
    requires pos <= |b| && depth <= MAX_DEPTH + 1 && SkipValue(b, pos, typ, depth).Success?
    ensures TypeOf(v) == typ && Storable(v, depth)
    ensures At(b, pos, EncodeValue(v)) && SkipValue(b, pos, typ, depth).value == pos + |EncodeValue(v)|
    decreases MAX_DEPTH + 1 - depth, 0, 1
  {
    var end := SkipValue(b, pos, typ, depth).value;
    if ScalarSize(typ) != 0 then
      AtSlice(b, pos, b[pos..end]);
      Scalar(typ, b[pos..end])
    else if typ == T_STRING then
      AtReadText(b, pos);
      Text(ReadText(b, pos).value.0)
    else
      ArrayAt(b, pos, depth)
  }

  lemma AtArrayHeader(b: seq<byte>, pos: nat, items: seq<byte>)
    requires At(b, pos + 12, items)
    ensures var itemType, count := ReadInt(b, pos, 4).value, ReadInt(b, pos + 4, 8).value;
      itemType < U32_MODULUS && count <= U64_MAX && At(b, pos, LE(itemType, 4) + LE(count, 8) + items)
  {
    var itemType, count := ReadInt(b, pos, 4).value, ReadInt(b, pos + 4, 8).value;
    Pow256Values();
    AtReadInt(b, pos, 4);
    AtReadInt(b, pos + 4, 8);
    AtSplit(b, pos, LE(itemType, 4), LE(count, 8));
    AtSplit(b, pos, LE(itemType, 4) + LE(count, 8), items);
  }

  ghost function ArrayAt(b: seq<byte>, pos: nat, depth: nat): (v: Value)
    requires pos <= |b| && depth <= MAX_DEPTH + 1 && SkipValue(b, pos, T_ARRAY, depth).Success?
    ensures TypeOf(v) == T_ARRAY && Storable(v, depth)
    ensures At(b, pos, EncodeValue(v)) && SkipValue(b, pos, T_ARRAY, depth).value == pos + |EncodeValue(v)|
    decreases MAX_DEPTH + 1 - depth, 0, 0
  {
    var end := SkipValue(b, pos, T_ARRAY, depth).value;
    var itemType, count := ReadInt(b, pos, 4).value, ReadInt(b, pos + 4, 8).value;
    if ScalarSize(itemType) != 0 then
      SkipsScalars(b, pos, itemType, count, depth);
      AtSlice(b, pos + 12, b[pos + 12..end]);
      AtArrayHeader(b, pos, b[pos + 12..end]);
      ScalarArray(itemType, count, b[pos + 12..end])
    else
      SkipsItems(b, pos, itemType, count, depth);
      var vs := ValuesAt(b, pos + 12, itemType, depth + 1, count);
      AtArrayHeader(b, pos, EncodeValues(vs));
      ValueArray(itemType, vs)
  }

  ghost function ValuesAt(b: seq<byte>, pos: nat, typ: nat, depth: nat, count: nat): (vs: seq<Value>)
    requires pos <= |b| && depth <= MAX_DEPTH + 1 && SkipValues(b, pos, typ, depth, count).Success?
    ensures |vs| == count && forall i :: 0 <= i < |vs| ==> TypeOf(vs[i]) == typ && Storable(vs[i], depth)
    ensures At(b, pos, EncodeValues(vs)) && SkipValues(b, pos, typ, depth, count).value == pos + |EncodeValues(vs)|
    decreases MAX_DEPTH + 1 - depth, count, 2
  {
    if count == 0 then []
    else
      hide At, EncodeValue, SkipValue, Storable;
      var v := ValueAt(b, pos, typ, depth);
      var vs := ValuesAt(b, pos + |EncodeValue(v)|, typ, depth, count - 1);
      AtSplit(b, pos, EncodeValue(v), EncodeValues(vs));
      assert ([v] + vs)[1..] == vs;
      [v] + vs
  }

  /**
   * On any bytes, skipping succeeds exactly when an encoded value of the type stands there, and consumes exactly it.
   */
  lemma SkipIffEncoded(b: seq<byte>, pos: nat, typ: nat, depth: nat, end: nat)
    requires pos <= |b| && depth <= MAX_DEPTH
    ensures SkipValue(b, pos, typ, depth) == Success(end) <==>
      exists v :: TypeOf(v) == typ && Storable(v, depth) && At(b, pos, EncodeValue(v)) && end == pos + |EncodeValue(v)|
  {
    if SkipValue(b, pos, typ, depth) == Success(end) {
      var v := ValueAt(b, pos, typ, depth);
    }
    forall v | TypeOf(v) == typ && Storable(v, depth) && At(b, pos, EncodeValue(v)) && end == pos + |EncodeValue(v)|
      ensures SkipValue(b, pos, typ, depth) == Success(end)
    {
      SkipEncoded(b, pos, v, depth);
    }
  }
}
