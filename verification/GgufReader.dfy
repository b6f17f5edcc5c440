/** The GGUF v3 reader (src/q3_gguf.c): a cursor over the mapped file, the parser, and the accessors. */
module GgufReader {
  import opened Wrappers
  import opened LittleEndian
  import opened GgufFormat

  /** "general.alignment" */
  const ALIGNMENT_KEY: seq<byte> := [103, 101, 110, 101, 114, 97, 108, 46, 97, 108, 105, 103, 110, 109, 101, 110, 116]

  datatype Kv = Kv(key: seq<byte>, typ: nat, valuePos: nat)

  datatype Tensor = Tensor(name: seq<byte>, nameBuf: seq<byte>, dims: seq<nat>, typ: nat,
                           relOffset: nat, absOffset: nat, elements: nat, bytes: nat)

  datatype Parsed = Parsed(kv: seq<Kv>, alignment: nat, tensors: seq<Tensor>, tensorDataPos: nat, maxTensorBytes: nat)

  // ---------------------------------------------------------------- what the parser computes

  function AlignUp(value: nat, alignment: nat): nat
    requires alignment > 0
  {
    var rem := value % alignment;
    if rem == 0 then value else (value + alignment - rem) % U64_MODULUS
  }

  /** The alignment after one metadata entry was seen. */
  function NextAlignment(b: seq<byte>, kv: Kv, alignment: nat): nat {
    if kv.key == ALIGNMENT_KEY && kv.typ == T_UINT32 then
      match ReadInt(b, kv.valuePos, 4)
      case Success(a) => if a != 0 then a else alignment
      case Failure(_) => alignment
    else alignment
  }

  function ParseKv(b: seq<byte>, pos: nat): (r: Result<(Kv, nat), ParseError>)
    ensures r.Success? ==> r.value.1 <= |b|
  {
    var (key, p) :- ReadText(b, pos);
    var typ :- ReadInt(b, p, 4);
    var end :- SkipValue(b, p + 4, typ, 0);
    Success((Kv(key, typ, p + 4), end))
  }

  /** A table entry in front of the rest of the table. */
  function Prepend<T, R>(front: seq<T>, rest: Result<(seq<T>, R), ParseError>): (r: Result<(seq<T>, R), ParseError>)
    ensures r.Success? <==> rest.Success?
    ensures r.Success? ==> |r.value.0| == |front| + |rest.value.0| && r.value.1 == rest.value.1
  {
    match rest
    case Success((ts, r)) => Success((front + ts, r))
    case Failure(e) => Failure(e)
  }

  lemma PrependNothing<T, R>(rest: Result<(seq<T>, R), ParseError>)
    ensures Prepend([], rest) == rest
  {
    if rest.Success? {
      assert [] + rest.value.0 == rest.value.0;
    }
  }

  lemma PrependStep<T, R>(front: seq<T>, t: T, rest: Result<(seq<T>, R), ParseError>)
    ensures Prepend(front, Prepend([t], rest)) == Prepend(front + [t], rest)
  {
    match rest {
      case Success((ts, r)) => assert front + ([t] + ts) == front + [t] + ts;
      case Failure(e) =>
    }
  }

  /** The entries, with the end position and the alignment in force. */
  function ParseKvs(b: seq<byte>, pos: nat, n: nat, alignment: nat): (r: Result<(seq<Kv>, (nat, nat)), ParseError>)
    requires alignment > 0
    ensures r.Success? ==> |r.value.0| == n && (pos <= |b| ==> r.value.1.0 <= |b|) && r.value.1.1 > 0
    decreases n
  {
    if n == 0 then Success(([], (pos, alignment)))
    else
      var (kv, p) :- ParseKv(b, pos);
      Prepend([kv], ParseKvs(b, p, n - 1, NextAlignment(b, kv, alignment)))
  }

  /** The running element count times one more dimension, unless that leaves 64 bits. */
  function NextElements(elements: nat, d: nat): (r: Option<nat>)
    requires elements <= U64_MAX
    ensures r.Some? ==> r.value == elements * d && r.value <= U64_MAX
  {
    if d != 0 && elements > U64_MAX / d then None
    else
      ProductFits(elements, d);
      Some(elements * d)
  }

  lemma ProductFits(elements: nat, d: nat)
    requires elements <= U64_MAX && (d != 0 ==> elements <= U64_MAX / d)
    ensures elements * d <= U64_MAX
  {
    if d != 0 {
      assert elements * d <= (U64_MAX / d) * d;
    }
  }

  /** The dimensions, with the end position and their product. */
  function ParseDims(b: seq<byte>, pos: nat, n: nat, elements: nat): (r: Result<(seq<nat>, (nat, nat)), ParseError>)
    requires elements <= U64_MAX
    ensures r.Success? ==> |r.value.0| == n && (pos <= |b| ==> r.value.1.0 <= |b|) && r.value.1.1 <= U64_MAX
    decreases n
  {
    if n == 0 then Success(([], (pos, elements)))
    else
      var d :- ReadInt(b, pos, 8);
      match NextElements(elements, d)
      case None => Failure(ElementOverflow)
      case Some(total) => Prepend([d], ParseDims(b, pos + 8, n - 1, total))
  }

  function NameBuf(name: seq<byte>): seq<byte> {
    name[..if |name| < MAX_NAME - 1 then |name| else MAX_NAME - 1]
  }

  /** Name and number of dimensions. */
  function ParseTensorHead(b: seq<byte>, pos: nat): (r: Result<(seq<byte>, nat, nat), ParseError>)
    ensures r.Success? ==> r.value.2 <= |b|
  {
    var (name, p) :- ReadText(b, pos);
    var ndim :- ReadInt(b, p, 4);
    if ndim == 0 || ndim > MAX_DIMS then Failure(BadDimensions) else Success((name, ndim, p + 4))
  }

  function BytesOrZero(typ: nat, elements: nat): nat {
    match TypeBytes(typ, elements) case Some(n) => n case None => 0
  }

  function ParseTensor(b: seq<byte>, pos: nat): (r: Result<(Tensor, nat), ParseError>)
    ensures r.Success? ==> r.value.1 <= |b|
  {
    var (name, ndim, p) :- ParseTensorHead(b, pos);
    var (dims, (q, elements)) :- ParseDims(b, p, ndim, 1);
    var typ :- ReadInt(b, q, 4);
    var rel :- ReadInt(b, q + 4, 8);
    Success((Tensor(name, NameBuf(name), dims, typ, rel, 0, elements, BytesOrZero(typ, elements)), q + 12))
  }

  function ParseTensors(b: seq<byte>, pos: nat, n: nat): (r: Result<(seq<Tensor>, nat), ParseError>)
    ensures r.Success? ==> |r.value.0| == n && (pos <= |b| ==> r.value.1 <= |b|)
    decreases n
  {
    if n == 0 then Success(([], pos))
    else
      var (t, p) :- ParseTensor(b, pos);
      Prepend([t], ParseTensors(b, p, n - 1))
  }

  function PlaceTensor(t: Tensor, dataPos: nat, size: nat): Result<Tensor, ParseError> {
    if t.relOffset + dataPos > U64_MAX then Failure(OffsetOverflow)
    else
      var placed := t.(absOffset := dataPos + t.relOffset);
      if t.bytes != 0 && placed.absOffset + t.bytes > size then Failure(OutsideFile)
      else Success(placed)
  }

  /** The tensors with absolute offsets, and the largest byte count seen. */
  function PlaceTensors(ts: seq<Tensor>, dataPos: nat, size: nat, max: nat): (r: Result<(seq<Tensor>, nat), ParseError>)
    ensures r.Success? ==> |r.value.0| == |ts|
    decreases |ts|
  {
    if ts == [] then Success(([], max))
    else
      var t :- PlaceTensor(ts[0], dataPos, size);
      Prepend([t], PlaceTensors(ts[1..], dataPos, size, if t.bytes > max then t.bytes else max))
  }

  /** q3_gguf_open on the mapped bytes. */
  function OpenFile(b: seq<byte>): Result<Parsed, ParseError> {
    if |b| < 32 then Failure(TooSmall)
    else
      var magic :- ReadInt(b, 0, 4);
      if magic != MAGIC then Failure(NotGguf)
      else
        var version :- ReadInt(b, 4, 4);
        var nTensors :- ReadInt(b, 8, 8);
        var nKv :- ReadInt(b, 16, 8);
        if version != VERSION then Failure(WrongVersion)
        else if nKv > |b| - 24 then Failure(MetadataCount)
        else
          var (kvs, (p, alignment)) :- ParseKvs(b, 24, nKv, DEFAULT_ALIGNMENT);
          if nTensors > |b| - p then Failure(TensorCount)
          else
            var (ts, q) :- ParseTensors(b, p, nTensors);
            var dataPos := AlignUp(q, alignment);
            var (placed, max) :- PlaceTensors(ts, dataPos, |b|, 0);
            Success(Parsed(kvs, alignment, placed, dataPos, max))
  }

  // ---------------------------------------------------------------- the cursor

  function FirstError(old_: Option<ParseError>, e: ParseError): Option<ParseError> {
    if old_.Some? then old_ else Some(e)
  }

  class Cursor {
    const base: seq<byte>
    var pos: nat
    var error: Option<ParseError>

    ghost predicate Valid() reads this { pos <= |base| <= U64_MAX }

    constructor (base: seq<byte>, pos: nat)
      ensures this.base == base && this.pos == pos && error == None
    {
      this.base, this.pos, this.error := base, pos, None;
    }

    method Fail(e: ParseError)
      modifies this`error
      ensures error == FirstError(old(error), e)
    {
      if error.None? {
        error := Some(e);
      }
    }

    method Has(n: nat) returns (ok: bool)
      requires Valid()
      modifies this`error
      ensures ok <==> pos + n <= |base|
      ensures error == if ok then old(error) else FirstError(old(error), Truncated)
    {
      if n > |base| || pos > |base| - n {
        Fail(Truncated);
        return false;
      }
      return true;
    }

    method Read(n: nat) returns (ok: bool, v: nat)
      requires Valid()
      modifies this
      ensures Valid()
      ensures match ReadInt(base, old(pos), n)
        case Success(x) => ok && v == x && pos == old(pos) + n && error == old(error)
        case Failure(e) => !ok && pos == old(pos) && error == FirstError(old(error), e)
    {
      v := 0;
      ok := Has(n);
      if ok {
        v := FromLE(base[pos..pos + n]);
        pos := pos + n;
      }
    }

    method Skip(n: nat) returns (ok: bool)
      requires Valid()
      modifies this
      ensures Valid()
      ensures match Advance(base, old(pos), n)
        case Success(p) => ok && pos == p && error == old(error)
        case Failure(e) => !ok && error == FirstError(old(error), e)
    {
      ok := Has(n);
      if ok {
        pos := pos + n;
      }
    }

    method ReadString() returns (ok: bool, s: seq<byte>)
      requires Valid()
      modifies this
      ensures Valid()
      ensures match ReadText(base, old(pos))
        case Success((text, p)) => ok && s == text && pos == p && error == old(error)
        case Failure(e) => !ok && error == FirstError(old(error), e)
    {
      s := [];
      var len;
      ok, len := Read(8);
      if !ok {
        return;
      }
      ok := Has(len);
      if !ok {
        return;
      }
      s := base[pos..pos + len];
      pos := pos + len;
    }

    method SkipOne(typ: nat, depth: nat) returns (ok: bool)
      requires Valid() && depth <= MAX_DEPTH + 1
      modifies this
      ensures Valid()
      ensures match SkipValue(base, old(pos), typ, depth)
        case Success(p) => ok && pos == p && error == old(error)
        case Failure(e) => !ok && error == FirstError(old(error), e)
      decreases MAX_DEPTH + 1 - depth
    {
      if depth > MAX_DEPTH {
        Fail(TooDeep);
        return false;
      }
      var scalar := ScalarSize(typ);
      if scalar != 0 {
        ok := Skip(scalar);
        return;
      }
      if typ == T_STRING {
        var ignored;
        ok, ignored := ReadString();
        return;
      }
      if typ == T_ARRAY {
        ok := SkipArray(depth);
        return;
      }
      Fail(UnknownType);
      return false;
    }

    method SkipArray(depth: nat) returns (ok: bool)
      requires Valid() && depth <= MAX_DEPTH
      modifies this
      ensures Valid()
      ensures match SkipValue(base, old(pos), T_ARRAY, depth)
        case Success(p) => ok && pos == p && error == old(error)
        case Failure(e) => !ok && error == FirstError(old(error), e)
      decreases MAX_DEPTH + 1 - depth, 0
    {
      var itemType, len;
      ok, itemType := Read(4);
      if !ok {
        return;
      }
      ok, len := Read(8);
      if !ok {
        return;
      }
      var itemSize := ScalarSize(itemType);
      if itemSize != 0 {
        if len > U64_MAX / itemSize {
          Fail(ArrayTooLarge);
          return false;
        }
        ok := Skip(len * itemSize);
        return;
      }
      ghost var start := pos;
      var i := 0;
      while i < len
        invariant i <= len && Valid() && error == old(error)
        invariant SkipValues(base, start, itemType, depth + 1, len)
          == SkipValues(base, pos, itemType, depth + 1, len - i)
      {
        ok := SkipOne(itemType, depth + 1);
        if !ok {
          return;
        }
        i := i + 1;
      }
      return true;
    }
  }

  // ---------------------------------------------------------------- the parser

  /** Parser state: the tables being filled (q3_gguf). */
  class Model {
    const image: seq<byte>
    var kv: seq<Kv>
    var tensors: seq<Tensor>
    var alignment: nat
    var tensorDataPos: nat
    var maxTensorBytes: nat

    constructor (image: seq<byte>)
      ensures this.image == image && kv == [] && tensors == [] && maxTensorBytes == 0
    {
      this.image, kv, tensors, alignment, tensorDataPos, maxTensorBytes := image, [], [], 0, 0, 0;
    }

    method ParseOneKv(c: Cursor) returns (ok: bool)
      requires c.Valid() && c.base == image && alignment > 0
      modifies this`kv, this`alignment, c
      ensures c.Valid() && alignment > 0
      ensures match ParseKv(image, old(c.pos))
        case Success((e, p)) =>
          && ok && c.pos == p && c.error == old(c.error) && kv == old(kv) + [e]
          && alignment == NextAlignment(image, e, old(alignment))
        case Failure(e) => !ok && c.error == FirstError(old(c.error), e)
    {
      var key, typ;
      ok, key := c.ReadString();
      if !ok {
        return;
      }
      ok, typ := c.Read(4);
      if !ok {
        return;
      }
      var valuePos := c.pos;
      kv := kv + [Kv(key, typ, valuePos)];
      if key == ALIGNMENT_KEY && typ == T_UINT32 {
        var tmp := new Cursor(image, valuePos);
        var readable, a := tmp.Read(4);
        if readable && a != 0 {
          alignment := a;
        }
      }
      ok := c.SkipOne(typ, 0);
    }

    method ParseEntries(c: Cursor, nKv: nat) returns (ok: bool)
      requires c.Valid() && c.base == image && c.error == None && kv == [] && alignment == DEFAULT_ALIGNMENT
      modifies this`kv, this`alignment, c
      ensures c.Valid()
      ensures match ParseKvs(image, old(c.pos), nKv, DEFAULT_ALIGNMENT)
        case Success((kvs, (p, a))) => ok && c.error == None && kv == kvs && c.pos == p && alignment == a
        case Failure(e) => !ok && c.error == Some(e)
    {
      hide ParseKv, NextAlignment;
      ghost var all := ParseKvs(image, c.pos, nKv, DEFAULT_ALIGNMENT);
      PrependNothing(all);
      var i := 0;
      while i < nKv
        invariant i <= nKv && c.Valid() && c.error == None && alignment > 0
        invariant all == Prepend(kv, ParseKvs(image, c.pos, nKv - i, alignment))
      {
        ghost var before := kv;
        ok := ParseOneKv(c);
        if !ok {
          return;
        }
        PrependStep(before, kv[|kv| - 1], ParseKvs(image, c.pos, nKv - i - 1, alignment));
        i := i + 1;
      }
      ok := true;
    }

    method ParseMetadata(c: Cursor, nKv: nat)
      requires c.Valid() && c.base == image && c.error == None && kv == []
      modifies this`kv, this`alignment, c
      ensures c.Valid()
      ensures nKv > |image| - old(c.pos) ==> c.error == Some(MetadataCount)
      ensures nKv <= |image| - old(c.pos) ==>
        match ParseKvs(image, old(c.pos), nKv, DEFAULT_ALIGNMENT)
        case Success((kvs, (p, a))) => c.error == None && kv == kvs && c.pos == p && alignment == a
        case Failure(e) => c.error == Some(e)
    {
      if nKv > |c.base| - c.pos {
        c.Fail(MetadataCount);
        return;
      }
      alignment := DEFAULT_ALIGNMENT;
      var ok := ParseEntries(c, nKv);
    }

    method ParseDimensions(c: Cursor, ndim: nat) returns (ok: bool, dims: seq<nat>, elements: nat)
      requires c.Valid() && c.base == image
      modifies c
      ensures c.Valid()
      ensures match ParseDims(image, old(c.pos), ndim, 1)
        case Success((ds, (p, total))) =>
          ok && dims == ds && elements == total && c.pos == p && c.error == old(c.error)
        case Failure(e) => !ok && c.error == FirstError(old(c.error), e)
    {
      dims, elements := [], 1;
      ghost var start := c.pos;
      PrependNothing(ParseDims(image, start, ndim, 1));
      var d := 0;
      while d < ndim
        invariant d <= ndim && c.Valid() && c.error == old(c.error) && elements <= U64_MAX
        invariant ParseDims(image, start, ndim, 1) == Prepend(dims, ParseDims(image, c.pos, ndim - d, elements))
      {
        ghost var next := ParseDims(image, c.pos, ndim - d, elements);
        var dim;
        ok, dim := c.Read(8);
        if !ok {
          return;
        }
        if dim != 0 && elements > U64_MAX / dim {
          assert NextElements(elements, dim) == None;
          c.Fail(ElementOverflow);
          ok := false;
          return;
        }
        assert NextElements(elements, dim) == Some(elements * dim);
        elements := elements * dim;
        PrependStep(dims, dim, ParseDims(image, c.pos, ndim - d - 1, elements));
        dims := dims + [dim];
        d := d + 1;
      }
      ok := true;
    }

    method ParseHead(c: Cursor) returns (ok: bool, name: seq<byte>, ndim: nat)
      requires c.Valid() && c.base == image
      modifies c
      ensures c.Valid()
      ensures match ParseTensorHead(image, old(c.pos))
        case Success((s, n, p)) => ok && name == s && ndim == n && c.pos == p && c.error == old(c.error)
        case Failure(e) => !ok && c.error == FirstError(old(c.error), e)
    {
      ndim := 0;
      ok, name := c.ReadString();
      if !ok {
        return;
      }
      ok, ndim := c.Read(4);
      if ok && (ndim == 0 || ndim > MAX_DIMS) {
        c.Fail(BadDimensions);
        ok := false;
      }
    }

    method ParseOneTensor(c: Cursor) returns (ok: bool)
      requires c.Valid() && c.base == image
      modifies this`tensors, c
      ensures c.Valid()
      ensures match ParseTensor(image, old(c.pos))
        case Success((t, p)) => ok && c.pos == p && c.error == old(c.error) && tensors == old(tensors) + [t]
        case Failure(e) => !ok && c.error == FirstError(old(c.error), e)
    {
      hide ParseDims, ParseTensorHead, ReadInt, TypeBytes;
      var name, ndim, dims, elements, typ, rel;
      ok, name, ndim := ParseHead(c);
      if !ok {
        return;
      }
      var n := if |name| < MAX_NAME - 1 then |name| else MAX_NAME - 1;
      var nameBuf := name[..n];
      ok, dims, elements := ParseDimensions(c, ndim);
      if !ok {
        return;
      }
      ok, typ := c.Read(4);
      if !ok {
        return;
      }
      ok, rel := c.Read(8);
      if !ok {
        return;
      }
      var bytes := 0;
      match TypeBytes(typ, elements) {
        case Some(size) => bytes := size;
        case None =>
      }
      tensors := tensors + [Tensor(name, nameBuf, dims, typ, rel, 0, elements, bytes)];
    }

    method ParseTensorTable(c: Cursor, nTensors: nat) returns (ok: bool)
      requires c.Valid() && c.base == image && c.error == None && tensors == []
      modifies this`tensors, c
      ensures c.Valid()
      ensures match ParseTensors(image, old(c.pos), nTensors)
        case Success((ts, p)) => ok && c.error == None && tensors == ts && c.pos == p
        case Failure(e) => !ok && c.error == Some(e)
    {
      hide ParseTensor;
      ghost var start := c.pos;
      PrependNothing(ParseTensors(image, start, nTensors));
      var i := 0;
      while i < nTensors
        invariant i <= nTensors && c.Valid() && c.error == None
        invariant ParseTensors(image, start, nTensors) == Prepend(tensors, ParseTensors(image, c.pos, nTensors - i))
      {
        ghost var before := tensors;
        ok := ParseOneTensor(c);
        if !ok {
          return;
        }
        PrependStep(before, tensors[|tensors| - 1], ParseTensors(image, c.pos, nTensors - i - 1));
        i := i + 1;
      }
      ok := true;
    }

    /** The second loop of parse_tensors: absolute offsets, bounds, and the largest tensor. */
    method Place(c: Cursor)
      requires c.error == None && maxTensorBytes == 0 && tensorDataPos <= U64_MAX && |image| <= U64_MAX
      modifies this`tensors, this`maxTensorBytes, c`error
      ensures match PlaceTensors(old(tensors), tensorDataPos, |image|, 0)
        case Success((ts, max)) => c.error == None && tensors == ts && maxTensorBytes == max
        case Failure(e) => c.error == Some(e)
    {
      ghost var given := tensors;
      assert given[0..] == given;
      PrependNothing(PlaceTensors(given, tensorDataPos, |image|, 0));
      var i := 0;
      while i < |tensors|
        invariant 0 <= i <= |tensors| == |given| && c.error == None
        invariant tensors[i..] == given[i..]
        invariant PlaceTensors(given, tensorDataPos, |image|, 0)
               == Prepend(tensors[..i], PlaceTensors(given[i..], tensorDataPos, |image|, maxTensorBytes))
      {
        var t := tensors[i];
        assert t == given[i..][0] && given[i..][1..] == given[i + 1..];
        if t.relOffset > U64_MAX - tensorDataPos {
          c.Fail(OffsetOverflow);
          return;
        }
        var absOffset := tensorDataPos + t.relOffset;
        if t.bytes != 0 && (absOffset > |image| || t.bytes > |image| - absOffset) {
          c.Fail(OutsideFile);
          return;
        }
        ghost var before := tensors;
        tensors := tensors[i := t.(absOffset := absOffset)];
        if t.bytes > maxTensorBytes {
          maxTensorBytes := t.bytes;
        }
        PrependStep(before[..i], tensors[i], PlaceTensors(given[i + 1..], tensorDataPos, |image|, maxTensorBytes));
        assert tensors[..i + 1] == before[..i] + [tensors[i]];
        assert tensors[i + 1..] == before[i..][1..];
        i := i + 1;
      }
      assert tensors[..i] == tensors;
    }
  }

  /** q3_gguf_open on the mapped bytes. */
  method Open(b: seq<byte>) returns (r: Result<Parsed, ParseError>)
    requires |b| <= U64_MAX
    ensures r == OpenFile(b)
  {
    hide ParseKvs, ParseTensors, PlaceTensors, FromLE;
    if |b| < 32 {
      return Failure(TooSmall);
    }
    var m := new Model(b);
    var c := new Cursor(b, 0);
    var ok, magic := c.Read(4);
    if magic != MAGIC {
      return Failure(NotGguf);
    }
    var version, nTensors, nKv;
    ok, version := c.Read(4);
    ok, nTensors := c.Read(8);
    ok, nKv := c.Read(8);
    if version != VERSION {
      return Failure(WrongVersion);
    }
    m.ParseMetadata(c, nKv);
    if c.error.Some? {
      return Failure(c.error.value);
    }
    if nTensors > |b| - c.pos {
      return Failure(TensorCount);
    }
    ok := m.ParseTensorTable(c, nTensors);
    if !ok {
      return Failure(c.error.value);
    }
    m.tensorDataPos := AlignUp(c.pos, m.alignment);
    m.Place(c);
    if c.error.Some? {
      return Failure(c.error.value);
    }
    return Success(Parsed(m.kv, m.alignment, m.tensors, m.tensorDataPos, m.maxTensorBytes));
  }
}
