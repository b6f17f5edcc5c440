/** The recursive-descent parser object of src/io/hd_json.c: a cursor, the nesting depth, and the first error. */
module JsonParser {
  import opened Wrappers
  import opened CStrings
  import opened Json

  class Parser {
    const fl: Floats
    const t: cstr
    var p: nat
    var depth: nat
    var err: JsonError

    ghost predicate Valid() reads this { p <= |t| }

    constructor (fl: Floats, t: cstr)
      ensures Valid() && p == 0 && depth == 0 && this.fl == fl && this.t == t
    {
      this.fl, this.t, p, depth, err := fl, t, 0, 0, NoMessage;
    }

    method Skip()
      requires Valid()
      modifies this`p
      ensures Valid() && p == SkipWs(t, old(p))
    {
      while p < |t| && IsSpace(t[p])
        invariant Valid() && SkipWs(t, old(p)) == SkipWs(t, p)
      {
        p := p + 1;
      }
    }

    method Digits()
      requires Valid()
      modifies this`p
      ensures Valid() && p == DigitsEnd(t, old(p))
    {
      while p < |t| && IsDigit(t[p])
        invariant Valid() && DigitsEnd(t, old(p)) == DigitsEnd(t, p)
      {
        p := p + 1;
      }
    }

    method Fraction() returns (isFloat: bool)
      requires Valid()
      modifies this`p
      ensures Valid() && p == FractionEnd(t, old(p)) && isFloat == (p > old(p))
    {
      isFloat := p < |t| && t[p] == DOT;
      if isFloat {
        p := p + 1;
        Digits();
      }
    }

    method Exponent(wasFloat: bool) returns (isFloat: bool)
      requires Valid()
      modifies this`p
      ensures Valid() && p == ExponentEnd(t, old(p)) && isFloat == (wasFloat || p > old(p))
    {
      isFloat := wasFloat;
      if p < |t| && (t[p] == 0x65 || t[p] == 0x45) {
        isFloat := true;
        p := p + 1;
        if p < |t| && (t[p] == MINUS || t[p] == PLUS) {
          p := p + 1;
        }
        Digits();
      }
    }

    method Number() returns (v: Value)
      requires Valid()
      modifies this`p
      ensures Valid() && (v, p) == ParseNumber(fl, t, old(p))
    {
      hide DigitsEnd, FractionEnd, ExponentEnd, DigitsValue, StrToLl;
      var start := p;
      if p < |t| && (t[p] == MINUS || t[p] == PLUS) {
        p := p + 1;
      }
      var digits := p;
      Digits();
      var digitsEnd := p;
      var isFloat := Fraction();
      isFloat := Exponent(isFloat);
      v := if isFloat then Double(fl.parse(t[start..p]))
           else Int(StrToLl(start < |t| && t[start] == MINUS, DigitsValue(t[digits..digitsEnd])));
    }

    /** Four hexadecimal digits. */
    method Hex() returns (code: Option<nat>)
      requires Valid() && p + 4 <= |t|
      modifies this`p
      ensures Valid() && code == HexFrom(t, old(p), 4, 0)
      ensures code.Some? ==> p == old(p) + 4
    {
      var n: nat := 0;
      for i := 0 to 4
        invariant p == old(p) + i && Valid() && HexFrom(t, old(p), 4, 0) == HexFrom(t, p, 4 - i, n)
      {
        match HexDigit(t[p]) {
          case None => return None;
          case Some(h) =>
            n := n * 16 + h;
            p := p + 1;
        }
      }
      return Some(n);
    }

    /** One character of a string, in front of the cursor; the quote is handled by the caller. */
    method Char() returns (r: Result<seq<byte>, JsonError>)
      requires Valid() && p < |t|
      modifies this`p
      ensures Valid()
      ensures match ParseChar(t, old(p))
        case Success((bytes, q)) => r == Success(bytes) && p == q
        case Failure(e) => r == Failure(e)
    {
      var c := t[p];
      p := p + 1;
      if c < 0x20 {
        return Failure(ControlCharacter);
      }
      if c != BACKSLASH {
        return Success([c]);
      }
      if p >= |t| {
        return Failure(BadEscape);
      }
      var e := t[p];
      p := p + 1;
      if e == QUOTE || e == BACKSLASH || e == SLASH {
        return Success([e]);
      } else if e == 0x62 {
        return Success([8]);
      } else if e == 0x66 {
        return Success([12]);
      } else if e == 0x6e {
        return Success([10]);
      } else if e == 0x72 {
        return Success([13]);
      } else if e == 0x74 {
        return Success([9]);
      } else if e == LETTER_U {
        if |t| - p < 4 {
          return Failure(BadUnicode);
        }
        ghost var at := p;
        var code := Hex();
        if code.None? {
          return Failure(BadHex);
        }
        HexBound(t, at, 4, 0, 1);
        assert Power16(4) == 0x1_0000;
        return Success(Utf8Of(code.value));
      }
      return Failure(BadEscapeCharacter);
    }

    method String() returns (r: Result<cstr, JsonError>)
      requires Valid()
      modifies this`p
      ensures Valid()
      ensures match ParseString(t, old(p))
        case Success((s, q)) => r == Success(s) && p == q
        case Failure(e) => r == Failure(e)
    {
      hide ParseChar;
      if p >= |t| || t[p] != QUOTE {
        return Failure(NoMessage);
      }
      p := p + 1;
      ghost var start := p;
      var buf: seq<byte> := [];
      BufferEmpty(t, start);
      while p < |t|
        invariant Valid() && old(p) < p && StringBody(t, start) == Buffered(buf, StringBody(t, p))
      {
        if t[p] == QUOTE {
          p := p + 1;
          assert buf + [] == buf;
          return Success(CString(buf));
        }
        ghost var at := p;
        var c := Char();
        if c.Failure? {
          return Failure(c.error);
        }
        BufferStep(t, at, p, buf, c.value);
        buf := buf + c.value;
      }
      return Failure(UnterminatedString);
    }

    method Items() returns (r: Result<seq<Value>, JsonError>)
      requires Valid()
      modifies this`p, this`depth
      ensures Valid() && depth == old(depth)
      ensures match ParseItems(fl, t, old(p), old(depth))
        case Success((items, q)) => r == Success(items) && p == q
        case Failure(e) => r == Failure(e)
      decreases |t| - p, 4
    {
      hide ParseValue, SkipWs;
      Skip();
      if p < |t| && t[p] == RBRACKET {
        p := p + 1;
        return Success([]);
      }
      ghost var start := p;
      var items: seq<Value> := [];
      ItemsEmpty(MoreItems(fl, t, start, depth));
      while true
        invariant Valid() && old(p) <= p && depth == old(depth)
        invariant MoreItems(fl, t, start, depth) == ItemsBefore(items, MoreItems(fl, t, p, depth))
        decreases |t| - p
      {
        ghost var at := p;
        Skip();
        var item := ParseOne();
        if item.Failure? {
          return Failure(item.error);
        }
        items := items + [item.value];
        Skip();
        if p >= |t| {
          return Failure(UnterminatedArray);
        }
        var c := t[p];
        p := p + 1;
        if c == RBRACKET {
          return Success(items);
        }
        if c != COMMA {
          return Failure(ExpectedCommaOrBracket);
        }
        ItemsStep(items, item.value, MoreItems(fl, t, p, depth));
      }
    }

    method Fields() returns (r: Result<seq<Field>, JsonError>)
      requires Valid()
      modifies this`p, this`depth
      ensures Valid() && depth == old(depth)
      ensures match ParseFields(fl, t, old(p), old(depth))
        case Success((fields, q)) => r == Success(fields) && p == q
        case Failure(e) => r == Failure(e)
      decreases |t| - p, 4
    {
      hide ParseField, SkipWs;
      Skip();
      if p < |t| && t[p] == RBRACE {
        p := p + 1;
        return Success([]);
      }
      ghost var start := p;
      var fields: seq<Field> := [];
      FieldsEmpty(MoreFields(fl, t, start, depth));
      while true
        invariant Valid() && old(p) <= p && depth == old(depth)
        invariant MoreFields(fl, t, start, depth) == FieldsBefore(fields, MoreFields(fl, t, p, depth))
        decreases |t| - p
      {
        ghost var at := p;
        var field := OneField();
        if field.Failure? {
          return Failure(field.error);
        }
        fields := fields + [field.value];
        Skip();
        if p >= |t| {
          return Failure(UnterminatedObject);
        }
        var c := t[p];
        p := p + 1;
        if c == RBRACE {
          return Success(fields);
        }
        if c != COMMA {
          return Failure(ExpectedCommaOrBrace);
        }
        FieldsStep(fields, field.value, MoreFields(fl, t, p, depth));
      }
    }

    method OneField() returns (r: Result<Field, JsonError>)
      requires Valid()
      modifies this`p, this`depth
      ensures Valid() && depth == old(depth)
      ensures match ParseField(fl, t, old(p), old(depth))
        case Success((field, q)) => r == Success(field) && p == q
        case Failure(e) => r == Failure(e)
      decreases |t| - p, 3
    {
      hide ParseValue, StringBody;
      Skip();
      var key := String();
      if key.Failure? {
        return Failure(key.error);
      }
      Skip();
      if p >= |t| || t[p] != COLON {
        return Failure(ExpectedColon);
      }
      p := p + 1;
      Skip();
      var value := ParseOne();
      if value.Failure? {
        return Failure(value.error);
      }
      return Success(Field(key.value, value.value));
    }

    /** parse_value */
    method ParseOne() returns (r: Result<Value, JsonError>)
      requires Valid()
      modifies this`p, this`depth
      ensures Valid() && depth == old(depth)
      ensures match ParseValue(fl, t, old(p), old(depth))
        case Success((v, q)) => r == Success(v) && p == q
        case Failure(e) => r == Failure(e)
      decreases |t| - p, 2
    {
      hide ParseNumber, ParseString, ParseItems, ParseFields, SkipWs;
      if depth > MAX_DEPTH {
        return Failure(TooDeep);
      }
      Skip();
      if p >= |t| {
        return Failure(UnexpectedEnd);
      }
      var c := t[p];
      if c == LBRACE {
        depth := depth + 1;
        p := p + 1;
        var fields := Fields();
        depth := depth - 1;
        return match fields case Success(fs) => Success(Obj(fs)) case Failure(e) => Failure(e);
      }
      if c == LBRACKET {
        depth := depth + 1;
        p := p + 1;
        var items := Items();
        depth := depth - 1;
        return match items case Success(vs) => Success(Arr(vs)) case Failure(e) => Failure(e);
      }
      if c == QUOTE {
        var s := String();
        return match s case Success(x) => Success(Str(x)) case Failure(e) => Failure(e);
      }
      if c == MINUS || c == PLUS || IsDigit(c) {
        var v := Number();
        return Success(v);
      }
      if Word(t, p, TRUE_TEXT) {
        p := p + 4;
        return Success(Bool(true));
      }
      if Word(t, p, FALSE_TEXT) {
        p := p + 5;
        return Success(Bool(false));
      }
      if Word(t, p, NULL_TEXT) {
        p := p + 4;
        return Success(Null);
      }
      return Failure(UnexpectedCharacter);
    }
  }

  /** hd_json_parse */
  method ParseText(fl: Floats, t: cstr) returns (r: Result<Value, JsonError>)
    ensures r == Parse(fl, t)
  {
    hide ParseValue, SkipWs;
    var ps := new Parser(fl, t);
    var v := ps.ParseOne();
    if v.Failure? {
      return Failure(v.error);
    }
    ps.Skip();
    if ps.p != |t| {
      return Failure(TrailingContent);
    }
    return Success(v.value);
  }

  // ---------------------------------------------------------------- output so far

  function Buffered(buf: seq<byte>, rest: Result<(seq<byte>, nat), JsonError>): Result<(seq<byte>, nat), JsonError> {
    match rest case Success((bs, q)) => Success((buf + bs, q)) case Failure(e) => Failure(e)
  }

  lemma BufferEmpty(t: cstr, p: nat)
    requires p <= |t|
    ensures StringBody(t, p) == Buffered([], StringBody(t, p))
  {
    if StringBody(t, p).Success? {
      assert [] + StringBody(t, p).value.0 == StringBody(t, p).value.0;
    }
  }

  lemma BufferStep(t: cstr, p: nat, q: nat, buf: seq<byte>, bytes: seq<byte>)
    requires p < |t| && t[p] != QUOTE && ParseChar(t, p) == Success((bytes, q))
    ensures Buffered(buf, StringBody(t, p)) == Buffered(buf + bytes, StringBody(t, q))
  {
    hide ParseChar;
    if StringBody(t, q).Success? {
      Assoc(buf, bytes, StringBody(t, q).value.0);
    }
  }

  function ItemsBefore(items: seq<Value>, rest: Result<(seq<Value>, nat), JsonError>)
    : Result<(seq<Value>, nat), JsonError>
  {
    match rest case Success((vs, q)) => Success((items + vs, q)) case Failure(e) => Failure(e)
  }

  lemma ItemsEmpty(rest: Result<(seq<Value>, nat), JsonError>)
    ensures rest == ItemsBefore([], rest)
  {
    if rest.Success? {
      assert [] + rest.value.0 == rest.value.0;
    }
  }

  lemma ItemsStep(items: seq<Value>, last: Value, rest: Result<(seq<Value>, nat), JsonError>)
    requires items != [] && items[|items| - 1] == last
    ensures ItemsBefore(items[..|items| - 1], ItemsBefore([last], rest)) == ItemsBefore(items, rest)
  {
    assert items == items[..|items| - 1] + [last];
    if rest.Success? {
      Assoc(items[..|items| - 1], [last], rest.value.0);
    }
  }

  function FieldsBefore(fields: seq<Field>, rest: Result<(seq<Field>, nat), JsonError>)
    : Result<(seq<Field>, nat), JsonError>
  {
    match rest case Success((fs, q)) => Success((fields + fs, q)) case Failure(e) => Failure(e)
  }

  lemma FieldsEmpty(rest: Result<(seq<Field>, nat), JsonError>)
    ensures rest == FieldsBefore([], rest)
  {
    if rest.Success? {
      assert [] + rest.value.0 == rest.value.0;
    }
  }

  lemma FieldsStep(fields: seq<Field>, last: Field, rest: Result<(seq<Field>, nat), JsonError>)
    requires fields != [] && fields[|fields| - 1] == last
    ensures FieldsBefore(fields[..|fields| - 1], FieldsBefore([last], rest)) == FieldsBefore(fields, rest)
  {
    assert fields == fields[..|fields| - 1] + [last];
    if rest.Success? {
      Assoc(fields[..|fields| - 1], [last], rest.value.0);
    }
  }
}
