/** JSON values and the parser of src/io/hd_json.c. Text and strings are C strings. */
module Json {
  import opened Wrappers
  import opened CStrings

  const MAX_DEPTH: nat := 512
  const LLONG_MAX: int := 0x7fff_ffff_ffff_ffff
  const LLONG_MIN: int := -0x8000_0000_0000_0000

  const QUOTE: cchar := 0x22
  const BACKSLASH: cchar := 0x5c
  const SLASH: cchar := 0x2f
  const COMMA: cchar := 0x2c
  const COLON: cchar := 0x3a
  const LBRACKET: cchar := 0x5b
  const RBRACKET: cchar := 0x5d
  const LBRACE: cchar := 0x7b
  const RBRACE: cchar := 0x7d
  const MINUS: cchar := 0x2d
  const PLUS: cchar := 0x2b
  const DOT: cchar := 0x2e
  const LETTER_U: cchar := 0x75
  const NULL_TEXT: cstr := [0x6e, 0x75, 0x6c, 0x6c]
  const TRUE_TEXT: cstr := [0x74, 0x72, 0x75, 0x65]
  const FALSE_TEXT: cstr := [0x66, 0x61, 0x6c, 0x73, 0x65]

  datatype Value =
    | Null
    | Bool(b: bool)
    | Int(n: int)
    | Double(x: real)
    | Str(s: cstr)
    | Arr(items: seq<Value>)
    | Obj(fields: seq<Field>)

  datatype Field = Field(key: cstr, value: Value)

  /** strtod and the "%.17g" format. */
  datatype Floats = Floats(parse: cstr -> real, show: real -> cstr)

  datatype JsonError =
    | TooDeep | UnexpectedEnd | UnexpectedCharacter | ControlCharacter | BadEscape | BadUnicode | BadHex
    | BadEscapeCharacter
    | UnterminatedString | UnterminatedArray | ExpectedCommaOrBracket | ExpectedColon | UnterminatedObject
    | ExpectedCommaOrBrace | NoMessage | TrailingContent

  // ---------------------------------------------------------------- lexical elements

  predicate IsSpace(c: cchar) { c == 0x20 || 0x09 <= c <= 0x0d }

  predicate IsDigit(c: cchar) { 0x30 <= c <= 0x39 }

  function SkipWs(t: cstr, p: nat): (q: nat)
    requires p <= |t|
    ensures p <= q <= |t| && (q < |t| ==> !IsSpace(t[q]))
    decreases |t| - p
  {
    if p < |t| && IsSpace(t[p]) then SkipWs(t, p + 1) else p
  }

  function DigitsEnd(t: cstr, p: nat): (q: nat)
    requires p <= |t|
    ensures p <= q <= |t| && (q < |t| ==> !IsDigit(t[q])) && forall k :: p <= k < q ==> IsDigit(t[k])
    decreases |t| - p
  {
    if p < |t| && IsDigit(t[p]) then DigitsEnd(t, p + 1) else p
  }

  function DigitOf(c: int): nat
    requires 0x30 <= c
  {
    c - 0x30
  }

  /** The value of a run of digits. */
  function DigitsValue(ds: cstr): nat
    requires forall k :: 0 <= k < |ds| ==> IsDigit(ds[k])
  {
    if ds == [] then 0
    else
      assert IsDigit(ds[|ds| - 1]);
      10 * DigitsValue(ds[..|ds| - 1]) + DigitOf(ds[|ds| - 1])
  }

  /** strtoll on a sign and digits: saturating. */
  function StrToLl(negative: bool, magnitude: int): int {
    if negative then (if -magnitude < LLONG_MIN then LLONG_MIN else -magnitude)
    else (if magnitude > LLONG_MAX then LLONG_MAX else magnitude)
  }

  predicate IsSign(t: cstr, p: nat) { p < |t| && (t[p] == MINUS || t[p] == PLUS) }

  function SignEnd(t: cstr, p: nat): (q: nat)
    requires p <= |t|
    ensures p <= q <= |t|
  {
    if IsSign(t, p) then p + 1 else p
  }

  function FractionEnd(t: cstr, p: nat): (q: nat)
    requires p <= |t|
    ensures p <= q <= |t|
  {
    if p < |t| && t[p] == DOT then DigitsEnd(t, p + 1) else p
  }

  function ExponentEnd(t: cstr, p: nat): (q: nat)
    requires p <= |t|
    ensures p <= q <= |t|
  {
    if p < |t| && (t[p] == 0x65 || t[p] == 0x45) then DigitsEnd(t, SignEnd(t, p + 1)) else p
  }

  /** parse_number: an integer unless a fraction or an exponent follows. It never fails. */
  function ParseNumber(fl: Floats, t: cstr, p: nat): (r: (Value, nat))
    requires p <= |t|
    ensures p <= r.1 <= |t| && (p < |t| && (IsSign(t, p) || IsDigit(t[p])) ==> p < r.1)
  {
    var d := SignEnd(t, p);
    var q := DigitsEnd(t, d);
    var f := FractionEnd(t, q);
    var e := ExponentEnd(t, f);
    if q == e then (Int(StrToLl(p < |t| && t[p] == MINUS, DigitsValue(t[d..q]))), e)
    else (Double(fl.parse(t[p..e])), e)
  }

  // ---------------------------------------------------------------- strings

  function HexDigit(c: cchar): Option<nat> {
    if 0x30 <= c <= 0x39 then Some(c - 0x30)
    else if 0x61 <= c <= 0x66 then Some(c - 0x61 + 10)
    else if 0x41 <= c <= 0x46 then Some(c - 0x41 + 10)
    else None
  }

  /** The value of n hexadecimal digits after `code`. */
  function HexFrom(t: cstr, p: nat, n: nat, code: nat): (r: Option<nat>)
    requires p + n <= |t|
    decreases n
  {
    if n == 0 then Some(code)
    else match HexDigit(t[p]) case None => None case Some(h) => HexFrom(t, p + 1, n - 1, code * 16 + h)
  }

  /** The UTF-8 bytes of a code unit; surrogates are encoded like any other. */
  function Utf8Of(code: nat): seq<byte>
    requires code < 0x1_0000
  {
    if code < 0x80 then [code]
    else if code < 0x800 then [0xc0 + code / 64, 0x80 + code % 64]
    else [0xe0 + code / 4096, 0x80 + code / 64 % 64, 0x80 + code % 64]
  }

  lemma {:induction false} HexBound(t: cstr, p: nat, n: nat, code: nat, bound: nat)
    requires p + n <= |t| && code < bound && HexFrom(t, p, n, code).Some?
    ensures HexFrom(t, p, n, code).value < Power16(n) * bound
    decreases n
  {
    if n > 0 {
      HexBound(t, p + 1, n - 1, code * 16 + HexDigit(t[p]).value, bound * 16);
      assert Power16(n - 1) * (bound * 16) == Power16(n) * bound;
    }
  }

  function Power16(n: nat): nat { if n == 0 then 1 else 16 * Power16(n - 1) }

  /** One character of a string: its bytes and the position behind it. */
  function ParseChar(t: cstr, p: nat): (r: Result<(seq<byte>, nat), JsonError>)
    requires p < |t|
    ensures r.Success? ==> p < r.value.1 <= |t|
  {
    var c := t[p];
    if c < 0x20 then Failure(ControlCharacter)
    else if c != BACKSLASH then Success(([c], p + 1))
    else if p + 1 >= |t| then Failure(BadEscape)
    else
      var e := t[p + 1];
      if e == QUOTE || e == BACKSLASH || e == SLASH then Success(([e], p + 2))
      else if e == 0x62 then Success(([8], p + 2))
      else if e == 0x66 then Success(([12], p + 2))
      else if e == 0x6e then Success(([10], p + 2))
      else if e == 0x72 then Success(([13], p + 2))
      else if e == 0x74 then Success(([9], p + 2))
      else if e == LETTER_U then
        if |t| - (p + 2) < 4 then Failure(BadUnicode)
        else match HexFrom(t, p + 2, 4, 0)
          case None => Failure(BadHex)
          case Some(code) =>
            HexBound(t, p + 2, 4, 0, 1);
            assert Power16(4) == 0x1_0000;
            Success((Utf8Of(code), p + 6))
      else Failure(BadEscapeCharacter)
  }

  /** The bytes up to the closing quote, and the position behind it. */
  function StringBody(t: cstr, p: nat): (r: Result<(seq<byte>, nat), JsonError>)
    requires p <= |t|
    ensures r.Success? ==> p < r.value.1 <= |t|
    decreases |t| - p
  {
    if p == |t| then Failure(UnterminatedString)
    else if t[p] == QUOTE then Success(([], p + 1))
    else
      var (bytes, q) :- ParseChar(t, p);
      var (rest, end) :- StringBody(t, q);
      Success((bytes + rest, end))
  }

  /** parse_string: the buffer is a C string, so an escaped NUL cuts it off. */
  function ParseString(t: cstr, p: nat): (r: Result<(cstr, nat), JsonError>)
    requires p <= |t|
    ensures r.Success? ==> p < r.value.1 <= |t|
  {
    if p == |t| || t[p] != QUOTE then Failure(NoMessage)
    else
      var (bytes, end) :- StringBody(t, p + 1);
      Success((CString(bytes), end))
  }

  // ---------------------------------------------------------------- values

  predicate Word(t: cstr, p: nat, word: cstr) { p + |word| <= |t| && t[p..p + |word|] == word }

  function ParseValue(fl: Floats, t: cstr, p: nat, depth: nat): (r: Result<(Value, nat), JsonError>)
    requires p <= |t|
    ensures r.Success? ==> p < r.value.1 <= |t|
    decreases |t| - p, 2
  {
    if depth > MAX_DEPTH then Failure(TooDeep)
    else
      var s := SkipWs(t, p);
      if s == |t| then Failure(UnexpectedEnd)
      else if t[s] == LBRACE then
        var (fields, end) :- ParseFields(fl, t, s + 1, depth + 1);
        Success((Obj(fields), end))
      else if t[s] == LBRACKET then
        var (items, end) :- ParseItems(fl, t, s + 1, depth + 1);
        Success((Arr(items), end))
      else if t[s] == QUOTE then
        var (text, end) :- ParseString(t, s);
        Success((Str(text), end))
      else if IsSign(t, s) || IsDigit(t[s]) then Success(ParseNumber(fl, t, s))
      else if Word(t, s, TRUE_TEXT) then Success((Bool(true), s + 4))
      else if Word(t, s, FALSE_TEXT) then Success((Bool(false), s + 5))
      else if Word(t, s, NULL_TEXT) then Success((Null, s + 4))
      else Failure(UnexpectedCharacter)
  }

  /** parse_array behind the bracket. */
  function ParseItems(fl: Floats, t: cstr, p: nat, depth: nat): (r: Result<(seq<Value>, nat), JsonError>)
    requires p <= |t|
    ensures r.Success? ==> p < r.value.1 <= |t|
    decreases |t| - p, 4
  {
    var s := SkipWs(t, p);
    if s < |t| && t[s] == RBRACKET then Success(([], s + 1)) else MoreItems(fl, t, s, depth)
  }

  function MoreItems(fl: Floats, t: cstr, p: nat, depth: nat): (r: Result<(seq<Value>, nat), JsonError>)
    requires p <= |t|
    ensures r.Success? ==> p < r.value.1 <= |t|
    decreases |t| - p, 3
  {
    var (item, q) :- ParseValue(fl, t, SkipWs(t, p), depth);
    var s := SkipWs(t, q);
    if s == |t| then Failure(UnterminatedArray)
    else if t[s] == RBRACKET then Success(([item], s + 1))
    else if t[s] != COMMA then Failure(ExpectedCommaOrBracket)
    else
      var (rest, end) :- MoreItems(fl, t, s + 1, depth);
      Success(([item] + rest, end))
  }

  /** parse_object behind the brace. */
  function ParseFields(fl: Floats, t: cstr, p: nat, depth: nat): (r: Result<(seq<Field>, nat), JsonError>)
    requires p <= |t|
    ensures r.Success? ==> p < r.value.1 <= |t|
    decreases |t| - p, 4
  {
    var s := SkipWs(t, p);
    if s < |t| && t[s] == RBRACE then Success(([], s + 1)) else MoreFields(fl, t, s, depth)
  }

  /** Key, colon and value. */
  function ParseField(fl: Floats, t: cstr, p: nat, depth: nat): (r: Result<(Field, nat), JsonError>)
    requires p <= |t|
    ensures r.Success? ==> p < r.value.1 <= |t|
    decreases |t| - p, 2
  {
    var (key, q) :- ParseString(t, SkipWs(t, p));
    var s := SkipWs(t, q);
    if s == |t| || t[s] != COLON then Failure(ExpectedColon)
    else
      var (value, end) :- ParseValue(fl, t, SkipWs(t, s + 1), depth);
      Success((Field(key, value), end))
  }

  function MoreFields(fl: Floats, t: cstr, p: nat, depth: nat): (r: Result<(seq<Field>, nat), JsonError>)
    requires p <= |t|
    ensures r.Success? ==> p < r.value.1 <= |t|
    decreases |t| - p, 3
  {
    var (field, q) :- ParseField(fl, t, p, depth);
    var s := SkipWs(t, q);
    if s == |t| then Failure(UnterminatedObject)
    else if t[s] == RBRACE then Success(([field], s + 1))
    else if t[s] != COMMA then Failure(ExpectedCommaOrBrace)
    else
      var (rest, end) :- MoreFields(fl, t, s + 1, depth);
      Success(([field] + rest, end))
  }

  /** hd_json_parse */
  function Parse(fl: Floats, t: cstr): Result<Value, JsonError> {
    var (v, q) :- ParseValue(fl, t, 0, 0);
    if SkipWs(t, q) == |t| then Success(v) else Failure(TrailingContent)
  }

  /** hd_json_get */
  function Get(v: Value, key: cstr): Option<Value> {
    if v.Obj? then GetField(v.fields, key) else None
  }

  function GetField(fields: seq<Field>, key: cstr): Option<Value> {
    if fields == [] then None
    else if fields[0].key == key then Some(fields[0].value)
    else GetField(fields[1..], key)
  }
}
