/** Printing JSON (json_escape, json_emit_value and serialize_runtime_request in src/server/q3_server.c). */
module JsonEmit {
  import opened Wrappers
  import opened CStrings
  import opened Json

  // ---------------------------------------------------------------- what is printed

  function HexChar(n: nat): cchar
    requires n < 16
  {
    if n < 10 then 0x30 + n else 0x61 + (n - 10)
  }

  /** One character of an escaped string. */
  function EscapedChar(c: cchar): (r: cstr)
    ensures r != []
  {
    if c == QUOTE || c == BACKSLASH then [BACKSLASH, c]
    else if c == 0x0a then [BACKSLASH, 0x6e]
    else if c == 0x0d then [BACKSLASH, 0x72]
    else if c == 0x09 then [BACKSLASH, 0x74]
    else if c < 0x20 then [BACKSLASH, LETTER_U, 0x30, 0x30, HexChar(c / 16), HexChar(c % 16)]
    else [c]
  }

  function EscapedBody(s: cstr): cstr {
    if s == [] then [] else EscapedChar(s[0]) + EscapedBody(s[1..])
  }

  /** json_escape */
  function Escaped(s: cstr): cstr { [QUOTE] + (EscapedBody(s) + [QUOTE]) }

  function DigitChar(n: nat): cchar
    requires n < 10
  {
    0x30 + n
  }

  function Decimal(n: nat): (r: cstr)
    ensures r != [] && forall k :: 0 <= k < |r| ==> IsDigit(r[k])
  {
    if n < 10 then [DigitChar(n)] else Decimal(n / 10) + [DigitChar(n % 10)]
  }

  /** The "%lld" format. */
  function Signed(n: int): cstr {
    if n < 0 then [MINUS] + Decimal(-n) else Decimal(n)
  }

  /** json_emit_value */
  function Emit(fl: Floats, v: Value): cstr
    decreases v, 1
  {
    match v
    case Null => NULL_TEXT
    case Bool(b) => if b then TRUE_TEXT else FALSE_TEXT
    case Int(n) => Signed(n)
    case Double(x) => fl.show(x)
    case Str(s) => Escaped(s)
    case Arr(items) => [LBRACKET] + (EmitItems(fl, items) + [RBRACKET])
    case Obj(fields) => [LBRACE] + (EmitFields(fl, fields) + [RBRACE])
  }

  function EmitItems(fl: Floats, items: seq<Value>): cstr
    decreases items, 0
  {
    if items == [] then []
    else if |items| == 1 then Emit(fl, items[0])
    else Emit(fl, items[0]) + ([COMMA] + EmitItems(fl, items[1..]))
  }

  function EmitField(fl: Floats, f: Field): cstr
    decreases f, 1
  {
    Escaped(f.key) + ([COLON] + Emit(fl, f.value))
  }

  function EmitFields(fl: Floats, fields: seq<Field>): cstr
    decreases fields, 0
  {
    if fields == [] then []
    else if |fields| == 1 then EmitField(fl, fields[0])
    else EmitField(fl, fields[0]) + ([COMMA] + EmitFields(fl, fields[1..]))
  }

  // ---------------------------------------------------------------- the buffer

  class Buffer {
    var out: cstr

    constructor ()
      ensures out == []
    {
      out := [];
    }

    method PutC(c: cchar)
      modifies this
      ensures out == old(out) + [c]
    {
      out := out + [c];
    }

    method PutS(s: cstr)
      modifies this
      ensures out == old(out) + s
    {
      out := out + s;
    }

    method EscapeOne(c: cchar)
      modifies this
      ensures out == old(out) + EscapedChar(c)
    {
      if c == QUOTE || c == BACKSLASH {
        PutC(BACKSLASH);
        PutC(c);
      } else if c == 0x0a {
        PutS([BACKSLASH, 0x6e]);
      } else if c == 0x0d {
        PutS([BACKSLASH, 0x72]);
      } else if c == 0x09 {
        PutS([BACKSLASH, 0x74]);
      } else if c < 0x20 {
        PutS([BACKSLASH, LETTER_U, 0x30, 0x30, HexChar(c / 16), HexChar(c % 16)]);
      } else {
        PutC(c);
      }
    }

    method Escape(s: cstr)
      modifies this
      ensures out == old(out) + Escaped(s)
    {
      hide EscapedChar;
      PutC(QUOTE);
      ghost var base := out;
      assert s[0..] == s;
      var i := 0;
      while i < |s|
        invariant i <= |s| && out + EscapedBody(s[i..]) == base + EscapedBody(s)
      {
        assert s[i..][1..] == s[i + 1..];
        ghost var before := out;
        EscapeOne(s[i]);
        Assoc(before, EscapedChar(s[i]), EscapedBody(s[i + 1..]));
        i := i + 1;
      }
      assert out + [] == out;
      PutC(QUOTE);
      Assoc(base, EscapedBody(s), [QUOTE]);
      Assoc(old(out), [QUOTE], EscapedBody(s) + [QUOTE]);
    }

    method EmitValue(fl: Floats, v: Value)
      modifies this
      ensures out == old(out) + Emit(fl, v)
      decreases v, 1
    {
      hide Escaped, Signed, EmitItems, EmitFields;
      match v
      case Null =>
        PutS(NULL_TEXT);
      case Bool(b) =>
        PutS(if b then TRUE_TEXT else FALSE_TEXT);
      case Int(n) =>
        PutS(Signed(n));
      case Double(x) =>
        PutS(fl.show(x));
      case Str(s) =>
        Escape(s);
      case Arr(items) =>
        PutC(LBRACKET);
        EmitAll(fl, items);
        PutC(RBRACKET);
        Assoc(old(out) + [LBRACKET], EmitItems(fl, items), [RBRACKET]);
        Assoc(old(out), [LBRACKET], EmitItems(fl, items) + [RBRACKET]);
      case Obj(fields) =>
        PutC(LBRACE);
        EmitAllFields(fl, fields);
        PutC(RBRACE);
        Assoc(old(out) + [LBRACE], EmitFields(fl, fields), [RBRACE]);
        Assoc(old(out), [LBRACE], EmitFields(fl, fields) + [RBRACE]);
    }

    /** The loop over array items, with a comma in front of every item but the first. */
    method EmitAll(fl: Floats, items: seq<Value>)
      modifies this
      ensures out == old(out) + EmitItems(fl, items)
      decreases items, 0
    {
      hide Emit;
      assert items[0..] == items;
      var i := 0;
      while i < |items|
        invariant i <= |items| && out + ItemsLeft(fl, items[i..], i) == old(out) + EmitItems(fl, items)
      {
        ghost var before := out;
        if i > 0 {
          PutC(COMMA);
        }
        EmitValue(fl, items[i]);
        assert items[i..][1..] == items[i + 1..];
        NextItem(fl, items[i..], i, before);
        i := i + 1;
      }
      assert out + [] == out;
    }

    method EmitAllFields(fl: Floats, fields: seq<Field>)
      modifies this
      ensures out == old(out) + EmitFields(fl, fields)
      decreases fields, 0
    {
      hide Emit, Escaped, EmitField;
      assert fields[0..] == fields;
      var i := 0;
      while i < |fields|
        invariant i <= |fields| && out + FieldsLeft(fl, fields[i..], i) == old(out) + EmitFields(fl, fields)
      {
        ghost var before := out;
        if i > 0 {
          PutC(COMMA);
        }
        OneField(fl, fields[i]);
        assert fields[i..][1..] == fields[i + 1..];
        NextField(fl, fields[i..], i, before);
        i := i + 1;
      }
      assert out + [] == out;
    }

    method OneField(fl: Floats, f: Field)
      modifies this
      ensures out == old(out) + EmitField(fl, f)
      decreases f, 2
    {
      hide Emit, Escaped;
      Escape(f.key);
      PutC(COLON);
      EmitValue(fl, f.value);
      Assoc(old(out) + Escaped(f.key), [COLON], Emit(fl, f.value));
      Assoc(old(out), Escaped(f.key), [COLON] + Emit(fl, f.value));
    }
  }

  /** What the loop still has to print when i items are out. */
  function ItemsLeft(fl: Floats, items: seq<Value>, i: nat): cstr {
    if i == 0 || items == [] then EmitItems(fl, items) else [COMMA] + EmitItems(fl, items)
  }

  lemma NextItem(fl: Floats, items: seq<Value>, i: nat, before: cstr)
    requires items != []
    ensures before + ItemsLeft(fl, items, i)
      == before + (if i > 0 then [COMMA] else []) + Emit(fl, items[0]) + ItemsLeft(fl, items[1..], i + 1)
  {
    hide Emit;
    var comma: cstr := if i > 0 then [COMMA] else [];
    assert EmitItems(fl, items) == Emit(fl, items[0]) + ItemsLeft(fl, items[1..], i + 1) by {
      assert Emit(fl, items[0]) + [] == Emit(fl, items[0]);
    }
    assert comma + EmitItems(fl, items) == ItemsLeft(fl, items, i);
    Assoc(before, comma, EmitItems(fl, items));
    Assoc(before + comma, Emit(fl, items[0]), ItemsLeft(fl, items[1..], i + 1));
  }

  function FieldsLeft(fl: Floats, fields: seq<Field>, i: nat): cstr {
    if i == 0 || fields == [] then EmitFields(fl, fields) else [COMMA] + EmitFields(fl, fields)
  }

  lemma NextField(fl: Floats, fields: seq<Field>, i: nat, before: cstr)
    requires fields != []
    ensures before + FieldsLeft(fl, fields, i)
      == before + (if i > 0 then [COMMA] else []) + EmitField(fl, fields[0]) + FieldsLeft(fl, fields[1..], i + 1)
  {
    hide EmitField;
    var comma: cstr := if i > 0 then [COMMA] else [];
    assert EmitFields(fl, fields) == EmitField(fl, fields[0]) + FieldsLeft(fl, fields[1..], i + 1) by {
      assert EmitField(fl, fields[0]) + [] == EmitField(fl, fields[0]);
    }
    assert comma + EmitFields(fl, fields) == FieldsLeft(fl, fields, i);
    Assoc(before, comma, EmitFields(fl, fields));
    Assoc(before + comma, EmitField(fl, fields[0]), FieldsLeft(fl, fields[1..], i + 1));
  }

  // ---------------------------------------------------------------- the runtime request

  const STATE: cstr := [0x73, 0x74, 0x61, 0x74, 0x65]
  const QUESTIONS: cstr := [0x71, 0x75, 0x65, 0x73, 0x74, 0x69, 0x6f, 0x6e, 0x73]

  /** {"state": */
  const REQUEST_HEAD: cstr := [LBRACE, QUOTE] + STATE + [QUOTE, COLON]
  /** ,"questions":{ */
  const REQUEST_MIDDLE: cstr := [COMMA, QUOTE] + QUESTIONS + [QUOTE, COLON, LBRACE]

  /** The object the runtime is meant to see. */
  function Request(state: Value, questions: seq<Field>): Value {
    Obj([Field(STATE, state), Field(QUESTIONS, Obj(questions))])
  }

  /** serialize_runtime_request: the literal text around the parts is exactly what printing that object gives. */
  method SerializeRequest(fl: Floats, state: Value, questions: seq<Field>) returns (out: cstr)
    ensures out == Emit(fl, Request(state, questions))
  {
    hide Emit, EmitFields;
    var b := new Buffer();
    b.PutS(REQUEST_HEAD);
    b.EmitValue(fl, state);
    b.PutS(REQUEST_MIDDLE);
    b.EmitAllFields(fl, questions);
    b.PutS([RBRACE, RBRACE]);
    out := b.out;
    RequestText(fl, state, questions);
  }

  lemma EscapedWord(s: cstr)
    requires forall k :: 0 <= k < |s| ==> 0x61 <= s[k] <= 0x7a && s[k] != BACKSLASH
    ensures EscapedBody(s) == s
  {
    if s != [] {
      assert s == [s[0]] + s[1..];
      EscapedWord(s[1..]);
    }
  }

  lemma RequestText(fl: Floats, state: Value, questions: seq<Field>)
    ensures Emit(fl, Request(state, questions))
      == REQUEST_HEAD + Emit(fl, state) + REQUEST_MIDDLE + EmitFields(fl, questions) + [RBRACE, RBRACE]
  {
    EscapedWord(STATE);
    EscapedWord(QUESTIONS);
    TwoFields(fl, Field(STATE, state), Field(QUESTIONS, Obj(questions)));
    Spliced(STATE, QUESTIONS, Emit(fl, state), EmitFields(fl, questions));
  }

  lemma TwoFields(fl: Floats, a: Field, b: Field)
    ensures Emit(fl, Obj([a, b])) == [LBRACE] + (EmitField(fl, a) + ([COMMA] + EmitField(fl, b)) + [RBRACE])
  {
    hide EmitField;
    assert [a, b][1..] == [b];
    assert EmitFields(fl, [b]) == EmitField(fl, b);
  }

  /** The literal pieces around the parts, glued differently. */
  lemma Spliced(st: cstr, qs: cstr, state: cstr, questions: cstr)
    ensures [LBRACE] + ([QUOTE] + (st + [QUOTE]) + ([COLON] + state)
        + ([COMMA] + ([QUOTE] + (qs + [QUOTE]) + ([COLON] + ([LBRACE] + (questions + [RBRACE]))))) + [RBRACE])
      == [LBRACE, QUOTE] + st + [QUOTE, COLON] + state + ([COMMA, QUOTE] + qs + [QUOTE, COLON, LBRACE]) + questions
        + [RBRACE, RBRACE]
  {
  }
}
