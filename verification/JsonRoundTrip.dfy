/** Printing and parsing JSON: what is printed parses back, exactly up to the depth limit, and the request survives. */
module JsonRoundTrip {
  import opened Wrappers
  import opened CStrings
  import opened Subseq
  import opened Json
  import opened JsonEmit

  // ---------------------------------------------------------------- values that print exactly

  ghost predicate NoDoubles(v: Value) {
    match v
    case Double(_) => false
    case Arr(items) => forall i :: 0 <= i < |items| ==> NoDoubles(items[i])
    case Obj(fields) => forall i :: 0 <= i < |fields| ==> NoDoubles(fields[i].value)
    case _ => true
  }

  /** No doubles, and integers of 64 bits. */
  ghost predicate Printable(v: Value) {
    match v
    case Int(n) => LLONG_MIN <= n <= LLONG_MAX
    case Double(_) => false
    case Arr(items) => forall i :: 0 <= i < |items| ==> Printable(items[i])
    case Obj(fields) => forall i :: 0 <= i < |fields| ==> Printable(fields[i].value)
    case _ => true
  }

  /** How deep the containers that hold something are nested. */
  function Height(v: Value): nat
    decreases v, 1
  {
    match v
    case Arr(items) => if items == [] then 0 else 1 + ItemsHeight(items)
    case Obj(fields) => if fields == [] then 0 else 1 + FieldsHeight(fields)
    case _ => 0
  }

  function Max(a: nat, b: nat): nat { if a < b then b else a }

  function ItemsHeight(items: seq<Value>): nat
    decreases items, 0
  {
    if items == [] then 0 else Max(Height(items[0]), ItemsHeight(items[1..]))
  }

  function FieldsHeight(fields: seq<Field>): nat
    decreases fields, 0
  {
    if fields == [] then 0 else Max(Height(fields[0].value), FieldsHeight(fields[1..]))
  }

  // ---------------------------------------------------------------- strings

  /** The grammar of section 7 of RFC 8259 for the characters between the quotes, on bytes: t[p..e]. */
  ghost predicate Characters(t: cstr, p: nat, e: nat)
    requires p <= e <= |t|
    decreases e - p
  {
    if p == e then true
    else if t[p] == BACKSLASH then
      && p + 1 < e
      && if t[p + 1] == LETTER_U then
           p + 6 <= e && (forall k :: p + 2 <= k < p + 6 ==> HexDigit(t[k]).Some?) && Characters(t, p + 6, e)
         else t[p + 1] in {QUOTE, BACKSLASH, SLASH, 0x62, 0x66, 0x6e, 0x72, 0x74} && Characters(t, p + 2, e)
    else t[p] >= 0x20 && t[p] != QUOTE && Characters(t, p + 1, e)
  }

  lemma {:induction false} HexIffDigits(t: cstr, p: nat, n: nat, code: nat)
    requires p + n <= |t|
    ensures HexFrom(t, p, n, code).Some? <==> forall k :: p <= k < p + n ==> HexDigit(t[k]).Some?
    decreases n
  {
    if n > 0 && HexDigit(t[p]).Some? {
      HexIffDigits(t, p + 1, n - 1, code * 16 + HexDigit(t[p]).value);
    }
  }

  /** The parser accepts a string exactly when a grammatical body and a closing quote follow, and stops right there. */
  lemma {:induction false} AcceptsExactlyTheGrammar(t: cstr, p: nat, e: nat)
    requires p <= e < |t|
    ensures StringBody(t, p).Success? && StringBody(t, p).value.1 == e + 1 <==> Characters(t, p, e) && t[e] == QUOTE
    decreases e - p
  {
    if t[p] != QUOTE {
      if t[p] == BACKSLASH && p + 5 < |t| && t[p + 1] == LETTER_U {
        HexIffDigits(t, p + 2, 4, 0);
      }
      match ParseChar(t, p)
      case Failure(_) =>
      case Success((bytes, q)) =>
        if q <= e {
          AcceptsExactlyTheGrammar(t, q, e);
        }
    }
  }

  lemma EscapedCharParses(t: cstr, p: nat, c: cchar)
    requires At(t, p, EscapedChar(c))
    ensures p < |t| && t[p] != QUOTE && ParseChar(t, p) == Success(([c as byte], p + |EscapedChar(c)|))
  {
    var x := EscapedChar(c);
    AtInside(t, p, x);
    AtItem(t, p, x, 0);
    if |x| >= 2 {
      AtItem(t, p, x, 1);
    }
    if |x| == 6 {
      AtItem(t, p, x, 2);
      AtItem(t, p, x, 3);
      AtItem(t, p, x, 4);
      AtItem(t, p, x, 5);
      HexParses(t, p + 2, c);
    }
  }

  lemma HexParses(t: cstr, p: nat, c: cchar)
    requires p + 4 <= |t| && c < 0x20 && t[p] == 0x30 && t[p + 1] == 0x30
    requires t[p + 2] == HexChar(c / 16) && t[p + 3] == HexChar(c % 16)
    ensures HexFrom(t, p, 4, 0) == Some(c as nat)
  {
    assert HexDigit(t[p + 2]) == Some(c / 16) && HexDigit(t[p + 3]) == Some(c % 16);
    assert HexFrom(t, p + 4, 0, c / 16 * 16 + c % 16) == Some(c as nat);
    assert HexFrom(t, p + 3, 1, c / 16) == HexFrom(t, p + 4, 0, c / 16 * 16 + c % 16);
    assert HexFrom(t, p + 2, 2, 0) == HexFrom(t, p + 3, 1, c / 16);
    assert HexFrom(t, p + 1, 3, 0) == HexFrom(t, p + 2, 2, 0);
  }

  lemma {:induction false} BodyParses(t: cstr, p: nat, s: cstr)
    requires At(t, p, EscapedBody(s) + [QUOTE])
    ensures p <= |t| && StringBody(t, p) == Success((s, p + |EscapedBody(s)| + 1))
    decreases |s|
  {
    hide At, EscapedChar, ParseChar;
    AtSplit(t, p, EscapedBody(s), [QUOTE]);
    AtInside(t, p, EscapedBody(s) + [QUOTE]);
    if s == [] {
      AtItem(t, p, [QUOTE], 0);
    } else {
      var x, rest := EscapedChar(s[0]), EscapedBody(s[1..]);
      AtSplit(t, p, x, rest);
      AtSplit(t, p + |x|, rest, [QUOTE]);
      EscapedCharParses(t, p, s[0]);
      BodyParses(t, p + |x|, s[1..]);
      assert s == [s[0]] + s[1..];
    }
  }

  lemma {:induction false} CStringOfText(s: cstr)
    ensures CString(s) == s
  {
    if s != [] {
      CStringOfText(s[1..]);
      assert s == [s[0]] + s[1..];
    }
  }

  /** An escaped string parses back to itself, whatever follows. */
  lemma EscapedParses(t: cstr, p: nat, s: cstr)
    requires At(t, p, Escaped(s))
    ensures p < |t| && t[p] == QUOTE && ParseString(t, p) == Success((s, p + |Escaped(s)|))
  {
    hide At, StringBody, EscapedBody, CString;
    AtSplit(t, p, [QUOTE], EscapedBody(s) + [QUOTE]);
    AtItem(t, p, [QUOTE], 0);
    BodyParses(t, p + 1, s);
    CStringOfText(s);
  }

  /** And what is printed follows the grammar. */
  lemma EscapedIsGrammatical(s: cstr)
    ensures var x := Escaped(s);
      && |x| >= 2 && x[0] == QUOTE && x[|x| - 1] == QUOTE && Characters(x, 1, |x| - 1)
  {
    hide EscapedBody, StringBody, Characters;
    var x := Escaped(s);
    AtSlice(x, 1, EscapedBody(s) + [QUOTE]);
    assert x[1..1 + |EscapedBody(s) + [QUOTE]|] == EscapedBody(s) + [QUOTE];
    BodyParses(x, 1, s);
    AcceptsExactlyTheGrammar(x, 1, |x| - 1);
  }

  // ---------------------------------------------------------------- numbers

  lemma {:induction false} DecimalValue(n: nat)
    ensures DigitsValue(Decimal(n)) == n
  {
    var ds := Decimal(n);
    if n < 10 {
      assert ds[..0] == [] && DigitsValue(ds) == 10 * DigitsValue(ds[..0]) + DigitOf(ds[0]);
    } else {
      DecimalValue(n / 10);
      assert ds[..|ds| - 1] == Decimal(n / 10);
    }
  }

  lemma {:induction false} DigitsEndAt(t: cstr, p: nat, q: nat)
    requires p <= q <= |t| && (forall k :: p <= k < q ==> IsDigit(t[k])) && (q < |t| ==> !IsDigit(t[q]))
    ensures DigitsEnd(t, p) == q
    decreases q - p
  {
    if p < q {
      DigitsEndAt(t, p + 1, q);
    }
  }

  /** What may follow a value inside a document. */
  ghost predicate Delimited(t: cstr, q: nat) { q == |t| || (q < |t| && t[q] in {COMMA, RBRACKET, RBRACE}) }

  /** Digits with something else than a number behind them are an integer. */
  lemma DigitsParse(fl: Floats, t: cstr, p: nat, q: nat)
    requires p < |t| && q == DigitsEnd(t, SignEnd(t, p)) && Delimited(t, q)
    ensures ParseNumber(fl, t, p) == (Int(StrToLl(t[p] == MINUS, DigitsValue(t[SignEnd(t, p)..q]))), q)
  {
    hide DigitsEnd, DigitsValue, StrToLl;
  }

  /** A run of digits where it stands. */
  lemma DigitsWhereTheyStand(t: cstr, d: nat, ds: cstr)
    requires At(t, d, ds) && (forall k :: 0 <= k < |ds| ==> IsDigit(ds[k])) && Delimited(t, d + |ds|)
    ensures d + |ds| <= |t| && t[d..d + |ds|] == ds && DigitsEnd(t, d) == d + |ds|
  {
    hide At, DigitsEnd;
    AtSlice(t, d, ds);
    forall k | d <= k < d + |ds| ensures t[k] == ds[k - d] {
      AtItem(t, d, ds, k - d);
    }
    DigitsEndAt(t, d, d + |ds|);
  }

  lemma NumberParses(fl: Floats, t: cstr, p: nat, n: int)
    requires LLONG_MIN <= n <= LLONG_MAX && At(t, p, Signed(n)) && Delimited(t, p + |Signed(n)|)
    ensures p < |t| && (IsSign(t, p) || IsDigit(t[p])) && ParseNumber(fl, t, p) == (Int(n), p + |Signed(n)|)
  {
    hide Decimal, DigitsEnd, ParseNumber, At, DigitsValue, Delimited;
    var m: nat := if n < 0 then -n else n;
    var ds := Decimal(m);
    var d := if n < 0 then p + 1 else p;
    if n < 0 {
      AtSplit(t, p, [MINUS], ds);
      AtItem(t, p, [MINUS], 0);
    }
    DecimalValue(m);
    DigitsWhereTheyStand(t, d, ds);
    AtItem(t, d, ds, 0);
    assert SignEnd(t, p) == d;
    DigitsParse(fl, t, p, d + |ds|);
  }

  // ---------------------------------------------------------------- printed values parse back

  /** The first character of a printed value. */
  ghost predicate StartsValue(c: cchar) { !IsSpace(c) && c !in {RBRACKET, RBRACE, COMMA, COLON} }

  lemma EmitStarts(fl: Floats, v: Value)
    requires Printable(v)
    ensures Emit(fl, v) != [] && StartsValue(Emit(fl, v)[0])
  {
  }

  lemma NoSpaceToSkip(t: cstr, p: nat)
    requires p <= |t| && (p < |t| ==> !IsSpace(t[p]))
    ensures SkipWs(t, p) == p
  {
  }

  /** Scalars. */
  lemma ScalarParses(fl: Floats, t: cstr, p: nat, v: Value, depth: nat)
    requires !v.Arr? && !v.Obj? && Printable(v) && depth <= MAX_DEPTH
    requires At(t, p, Emit(fl, v)) && Delimited(t, p + |Emit(fl, v)|)
    ensures p <= |t| && ParseValue(fl, t, p, depth) == Success((v, p + |Emit(fl, v)|))
  {
    hide At, ParseNumber, StringBody, Signed, Escaped;
    AtInside(t, p, Emit(fl, v));
    match v
    case Int(n) =>
      NumberParses(fl, t, p, n);
      NoSpaceToSkip(t, p);
    case Str(s) =>
      EscapedParses(t, p, s);
      NoSpaceToSkip(t, p);
    case Null =>
      WordParses(t, p, NULL_TEXT);
    case Bool(b) =>
      WordParses(t, p, if b then TRUE_TEXT else FALSE_TEXT);
      AtItem(t, p, if b then TRUE_TEXT else FALSE_TEXT, 0);
      if !b {
        assert !Word(t, p, TRUE_TEXT) by {
          assert |t[p..p + 4]| == 4 && t[p..p + 4][0] == 0x66;
        }
      }
  }

  lemma WordParses(t: cstr, p: nat, word: cstr)
    requires word in {NULL_TEXT, TRUE_TEXT, FALSE_TEXT} && At(t, p, word)
    ensures p < |t| && t[p] == word[0] && Word(t, p, word) && SkipWs(t, p) == p
    ensures word == NULL_TEXT ==> !Word(t, p, TRUE_TEXT) && !Word(t, p, FALSE_TEXT)
  {
    AtSlice(t, p, word);
    AtItem(t, p, word, 0);
    if word == NULL_TEXT {
      assert p + 4 <= |t| ==> t[p..p + 4][0] == 0x6e;
      assert p + 5 <= |t| ==> t[p..p + 5][0] == 0x6e;
    }
  }

  /** Every printable value of small enough height parses back, at any place where something delimits it. */
  lemma {:induction false} ValueParses(fl: Floats, t: cstr, p: nat, v: Value, depth: nat)
    requires Printable(v) && depth + Height(v) <= MAX_DEPTH
    requires At(t, p, Emit(fl, v)) && Delimited(t, p + |Emit(fl, v)|)
    ensures p <= |t| && ParseValue(fl, t, p, depth) == Success((v, p + |Emit(fl, v)|))
    decreases v, 2
  {
    hide At, EmitItems, EmitFields, ParseItems, ParseFields, ItemsHeight, FieldsHeight, ParseNumber, ParseString;
    match v
    case Arr(items) =>
      var x := EmitItems(fl, items);
      AtSplit(t, p, [LBRACKET], x + [RBRACKET]);
      AtItem(t, p, [LBRACKET], 0);
      NoSpaceToSkip(t, p);
      ArrayParses(fl, t, p + 1, items, depth + 1);
    case Obj(fields) =>
      var x := EmitFields(fl, fields);
      AtSplit(t, p, [LBRACE], x + [RBRACE]);
      AtItem(t, p, [LBRACE], 0);
      NoSpaceToSkip(t, p);
      ObjectParses(fl, t, p + 1, fields, depth + 1);
    case _ =>
      ScalarParses(fl, t, p, v, depth);
  }

  lemma {:induction false} ArrayParses(fl: Floats, t: cstr, p: nat, items: seq<Value>, depth: nat)
    requires (forall i :: 0 <= i < |items| ==> Printable(items[i]))
    requires items == [] || depth + ItemsHeight(items) <= MAX_DEPTH
    requires At(t, p, EmitItems(fl, items) + [RBRACKET])
    ensures p <= |t| && ParseItems(fl, t, p, depth) == Success((items, p + |EmitItems(fl, items)| + 1))
    decreases items, 1
  {
    hide At, Emit, ParseValue, Height, MoreItems;
    var x := EmitItems(fl, items);
    AtSplit(t, p, x, [RBRACKET]);
    AtItem(t, p + |x|, [RBRACKET], 0);
    if items == [] {
      NoSpaceToSkip(t, p);
    } else {
      ItemsStart(fl, items);
      AtItem(t, p, x, 0);
      NoSpaceToSkip(t, p);
      ItemsParse(fl, t, p, items, depth);
    }
  }

  lemma ItemsStart(fl: Floats, items: seq<Value>)
    requires items != [] && Printable(items[0])
    ensures EmitItems(fl, items) != [] && StartsValue(EmitItems(fl, items)[0])
  {
    hide Emit;
    EmitStarts(fl, items[0]);
  }

  lemma MoreItemsStep(fl: Floats, t: cstr, p: nat, q: nat, item: Value, depth: nat)
    requires p < q < |t| && SkipWs(t, p) == p && SkipWs(t, q) == q && ParseValue(fl, t, p, depth) == Success((item, q))
    ensures t[q] == RBRACKET ==> MoreItems(fl, t, p, depth) == Success(([item], q + 1))
    ensures t[q] == COMMA && MoreItems(fl, t, q + 1, depth).Success? ==>
      var (rest, end) := MoreItems(fl, t, q + 1, depth).value;
      MoreItems(fl, t, p, depth) == Success(([item] + rest, end))
  {
    hide ParseValue, SkipWs;
  }

  lemma MoreFieldsStep(fl: Floats, t: cstr, p: nat, q: nat, field: Field, depth: nat)
    requires p < q < |t| && SkipWs(t, q) == q && ParseField(fl, t, p, depth) == Success((field, q))
    ensures t[q] == RBRACE ==> MoreFields(fl, t, p, depth) == Success(([field], q + 1))
    ensures t[q] == COMMA && MoreFields(fl, t, q + 1, depth).Success? ==>
      var (rest, end) := MoreFields(fl, t, q + 1, depth).value;
      MoreFields(fl, t, p, depth) == Success(([field] + rest, end))
  {
    hide ParseField, SkipWs;
  }

  lemma {:induction false} ItemsParse(fl: Floats, t: cstr, p: nat, items: seq<Value>, depth: nat)
    requires items != [] && (forall i :: 0 <= i < |items| ==> Printable(items[i]))
      && depth + ItemsHeight(items) <= MAX_DEPTH
    requires At(t, p, EmitItems(fl, items) + [RBRACKET])
    ensures p <= |t| && MoreItems(fl, t, p, depth) == Success((items, p + |EmitItems(fl, items)| + 1))
    decreases items, 0
  {
    hide At, Emit, ParseValue, Height, Printable, MoreItems, SkipWs;
    var first := Emit(fl, items[0]);
    var q := p + |first|;
    EmitStarts(fl, items[0]);
    if |items| == 1 {
      AtSplit(t, p, first, [RBRACKET]);
      AtItem(t, q, [RBRACKET], 0);
      assert items == [items[0]];
    } else {
      var rest := EmitItems(fl, items[1..]) + [RBRACKET];
      Assoc(first, [COMMA] + EmitItems(fl, items[1..]), [RBRACKET]);
      Assoc([COMMA], EmitItems(fl, items[1..]), [RBRACKET]);
      AtSplit(t, p, first, [COMMA] + rest);
      AtSplit(t, q, [COMMA], rest);
      AtItem(t, q, [COMMA], 0);
      ItemsStart(fl, items[1..]);
      ItemsParse(fl, t, q + 1, items[1..], depth);
    }
    AtItem(t, p, first, 0);
    NoSpaceToSkip(t, p);
    NoSpaceToSkip(t, q);
    ValueParses(fl, t, p, items[0], depth);
    MoreItemsStep(fl, t, p, q, items[0], depth);
    assert items == [items[0]] + items[1..];
  }

  lemma {:induction false} ObjectParses(fl: Floats, t: cstr, p: nat, fields: seq<Field>, depth: nat)
    requires (forall i :: 0 <= i < |fields| ==> Printable(fields[i].value))
    requires fields == [] || depth + FieldsHeight(fields) <= MAX_DEPTH
    requires At(t, p, EmitFields(fl, fields) + [RBRACE])
    ensures p <= |t| && ParseFields(fl, t, p, depth) == Success((fields, p + |EmitFields(fl, fields)| + 1))
    decreases fields, 3
  {
    hide At, EmitField, ParseField, Height, MoreFields;
    var x := EmitFields(fl, fields);
    AtSplit(t, p, x, [RBRACE]);
    AtItem(t, p + |x|, [RBRACE], 0);
    if fields == [] {
      NoSpaceToSkip(t, p);
    } else {
      FieldsStart(fl, fields);
      AtItem(t, p, x, 0);
      NoSpaceToSkip(t, p);
      FieldsParse(fl, t, p, fields, depth);
    }
  }

  lemma FieldsStart(fl: Floats, fields: seq<Field>)
    requires fields != []
    ensures EmitFields(fl, fields) != [] && EmitFields(fl, fields)[0] == QUOTE
  {
  }

  lemma {:induction false} FieldsParse(fl: Floats, t: cstr, p: nat, fields: seq<Field>, depth: nat)
    requires fields != [] && (forall i :: 0 <= i < |fields| ==> Printable(fields[i].value))
      && depth + FieldsHeight(fields) <= MAX_DEPTH
    requires At(t, p, EmitFields(fl, fields) + [RBRACE])
    ensures p <= |t| && MoreFields(fl, t, p, depth) == Success((fields, p + |EmitFields(fl, fields)| + 1))
    decreases fields, 2
  {
    hide At, EmitField, ParseField, Height, Printable, MoreFields, SkipWs;
    var first := EmitField(fl, fields[0]);
    var q := p + |first|;
    if |fields| == 1 {
      AtSplit(t, p, first, [RBRACE]);
      AtItem(t, q, [RBRACE], 0);
      assert fields == [fields[0]];
    } else {
      var rest := EmitFields(fl, fields[1..]) + [RBRACE];
      Assoc(first, [COMMA] + EmitFields(fl, fields[1..]), [RBRACE]);
      Assoc([COMMA], EmitFields(fl, fields[1..]), [RBRACE]);
      AtSplit(t, p, first, [COMMA] + rest);
      AtSplit(t, q, [COMMA], rest);
      AtItem(t, q, [COMMA], 0);
      FieldsParse(fl, t, q + 1, fields[1..], depth);
    }
    NoSpaceToSkip(t, q);
    FieldParses(fl, t, p, fields[0], depth);
    MoreFieldsStep(fl, t, p, q, fields[0], depth);
    assert fields == [fields[0]] + fields[1..];
  }

  lemma {:induction false} FieldParses(fl: Floats, t: cstr, p: nat, f: Field, depth: nat)
    requires Printable(f.value) && depth + Height(f.value) <= MAX_DEPTH
    requires At(t, p, EmitField(fl, f)) && Delimited(t, p + |EmitField(fl, f)|)
    ensures p <= |t| && ParseField(fl, t, p, depth) == Success((f, p + |EmitField(fl, f)|))
    decreases f, 3
  {
    hide At, Emit, Escaped, ParseValue, ParseString, Height, Printable;
    var key := Escaped(f.key);
    var q := p + |key|;
    AtSplit(t, p, key, [COLON] + Emit(fl, f.value));
    AtSplit(t, q, [COLON], Emit(fl, f.value));
    EscapedParses(t, p, f.key);
    AtItem(t, q, [COLON], 0);
    EmitStarts(fl, f.value);
    AtItem(t, q + 1, Emit(fl, f.value), 0);
    NoSpaceToSkip(t, p);
    NoSpaceToSkip(t, q);
    NoSpaceToSkip(t, q + 1);
    ValueParses(fl, t, q + 1, f.value, depth);
  }

  // ---------------------------------------------------------------- parsed values fit

  /** What the parser returns at a depth: small enough, and with 64-bit integers. */
  ghost predicate Fits(v: Value, depth: nat) {
    depth + Height(v) <= MAX_DEPTH && (NoDoubles(v) ==> Printable(v))
  }

  lemma {:induction false} ParsedFits(fl: Floats, t: cstr, p: nat, depth: nat)
    requires p <= |t| && ParseValue(fl, t, p, depth).Success?
    ensures Fits(ParseValue(fl, t, p, depth).value.0, depth)
    decreases |t| - p, 2
  {
    hide ParseItems, ParseFields, ParseString, SkipWs, ItemsHeight, FieldsHeight, DigitsValue;
    var s := SkipWs(t, p);
    if t[s] == LBRACE {
      FieldsFit(fl, t, s + 1, depth + 1);
    } else if t[s] == LBRACKET {
      ItemsFit(fl, t, s + 1, depth + 1);
    }
  }

  ghost predicate ItemsFitAt(items: seq<Value>, depth: nat) {
    && (items != [] ==> depth + ItemsHeight(items) <= MAX_DEPTH)
    && forall i :: 0 <= i < |items| ==> NoDoubles(items[i]) ==> Printable(items[i])
  }

  lemma {:induction false} ItemsFit(fl: Floats, t: cstr, p: nat, depth: nat)
    requires p <= |t| && ParseItems(fl, t, p, depth).Success?
    ensures ItemsFitAt(ParseItems(fl, t, p, depth).value.0, depth)
    decreases |t| - p, 4
  {
    hide ParseValue, MoreItems, SkipWs, Height;
    var s := SkipWs(t, p);
    if !(s < |t| && t[s] == RBRACKET) {
      MoreItemsFit(fl, t, s, depth);
    }
  }

  lemma {:induction false} MoreItemsFit(fl: Floats, t: cstr, p: nat, depth: nat)
    requires p <= |t| && MoreItems(fl, t, p, depth).Success?
    ensures ItemsFitAt(MoreItems(fl, t, p, depth).value.0, depth)
    decreases |t| - p, 3
  {
    hide ParseValue, SkipWs, Height;
    ParsedFits(fl, t, SkipWs(t, p), depth);
    var (item, q) := ParseValue(fl, t, SkipWs(t, p), depth).value;
    var s := SkipWs(t, q);
    assert ItemsHeight([item]) == Height(item) by { assert [item][1..] == []; }
    if t[s] == COMMA {
      MoreItemsFit(fl, t, s + 1, depth);
      var rest := MoreItems(fl, t, s + 1, depth).value.0;
      assert ([item] + rest)[1..] == rest;
    }
  }

  ghost predicate FieldsFitAt(fields: seq<Field>, depth: nat) {
    && (fields != [] ==> depth + FieldsHeight(fields) <= MAX_DEPTH)
    && forall i :: 0 <= i < |fields| ==> NoDoubles(fields[i].value) ==> Printable(fields[i].value)
  }

  lemma {:induction false} FieldsFit(fl: Floats, t: cstr, p: nat, depth: nat)
    requires p <= |t| && ParseFields(fl, t, p, depth).Success?
    ensures FieldsFitAt(ParseFields(fl, t, p, depth).value.0, depth)
    decreases |t| - p, 4
  {
    hide ParseField, MoreFields, SkipWs, Height;
    var s := SkipWs(t, p);
    if !(s < |t| && t[s] == RBRACE) {
      MoreFieldsFit(fl, t, s, depth);
    }
  }

  lemma {:induction false} MoreFieldsFit(fl: Floats, t: cstr, p: nat, depth: nat)
    requires p <= |t| && MoreFields(fl, t, p, depth).Success?
    ensures FieldsFitAt(MoreFields(fl, t, p, depth).value.0, depth)
    decreases |t| - p, 3
  {
    hide ParseField, SkipWs, Height;
    FieldFits(fl, t, p, depth);
    var (field, q) := ParseField(fl, t, p, depth).value;
    var s := SkipWs(t, q);
    assert FieldsHeight([field]) == Height(field.value) by { assert [field][1..] == []; }
    if t[s] == COMMA {
      MoreFieldsFit(fl, t, s + 1, depth);
      var rest := MoreFields(fl, t, s + 1, depth).value.0;
      assert ([field] + rest)[1..] == rest;
    }
  }

  lemma {:induction false} FieldFits(fl: Floats, t: cstr, p: nat, depth: nat)
    requires p <= |t| && ParseField(fl, t, p, depth).Success?
    ensures Fits(ParseField(fl, t, p, depth).value.0.value, depth)
    decreases |t| - p, 2
  {
    hide ParseValue, ParseString, SkipWs, Height;
    var (key, q) := ParseString(t, SkipWs(t, p)).value;
    ParsedFits(fl, t, SkipWs(t, SkipWs(t, q) + 1), depth);
  }

  // ---------------------------------------------------------------- main results

  /** Printing and parsing a printable value returns it, exactly when its nesting is within the parser's limit. */
  lemma ParseOfEmit(fl: Floats, v: Value)
    requires Printable(v)
    ensures Parse(fl, Emit(fl, v)) == Success(v) <==> Height(v) <= MAX_DEPTH
  {
    hide Emit, ParseValue;
    var t := Emit(fl, v);
    if Height(v) <= MAX_DEPTH {
      AtSlice(t, 0, t);
      assert t[0..0 + |t|] == t;
      ValueParses(fl, t, 0, v, 0);
      NoSpaceToSkip(t, |t|);
    }
    if Parse(fl, t) == Success(v) {
      ParsedFits(fl, t, 0, 0);
    }
  }

  lemma {:induction false} FieldWithin(fields: seq<Field>, key: cstr)
    requires GetField(fields, key).Some?
    ensures Height(GetField(fields, key).value) <= FieldsHeight(fields)
    ensures (forall i :: 0 <= i < |fields| ==> NoDoubles(fields[i].value)) ==> NoDoubles(GetField(fields, key).value)
    ensures (forall i :: 0 <= i < |fields| ==> Printable(fields[i].value)) ==> Printable(GetField(fields, key).value)
  {
    if fields[0].key != key {
      FieldWithin(fields[1..], key);
    }
  }

  /**
   * The normalised request parses back to the state and the questions it was made from, whenever the body parsed and
   * holds no doubles: it is never nested deeper than the body.
   */
  lemma RequestParses(fl: Floats, body: cstr, root: Value, state: Value, questions: seq<Field>)
    requires Parse(fl, body) == Success(root) && NoDoubles(root)
    requires Get(root, STATE) == Some(state) && Get(root, QUESTIONS) == Some(Obj(questions))
    ensures Parse(fl, Emit(fl, Request(state, questions))) == Success(Request(state, questions))
    ensures Get(Request(state, questions), STATE) == Some(state)
    ensures Get(Request(state, questions), QUESTIONS) == Some(Obj(questions))
  {
    hide Emit, ParseValue, Fits, Height, FieldsHeight, NoDoubles, Printable;
    ParsedFits(fl, body, 0, 0);
    BodyParts(root, state, questions);
    var fields := [Field(STATE, state), Field(QUESTIONS, Obj(questions))];
    assert fields[1..] == [Field(QUESTIONS, Obj(questions))] && fields[1..][1..] == [];
    assert |STATE| != |QUESTIONS|;
    assert GetField(fields[1..], QUESTIONS) == Some(Obj(questions));
    ParseOfEmit(fl, Request(state, questions));
  }

  lemma BodyParts(root: Value, state: Value, questions: seq<Field>)
    requires Fits(root, 0) && NoDoubles(root)
    requires Get(root, STATE) == Some(state) && Get(root, QUESTIONS) == Some(Obj(questions))
    ensures Height(Request(state, questions)) <= MAX_DEPTH && Printable(Request(state, questions))
  {
    FieldWithin(root.fields, STATE);
    FieldWithin(root.fields, QUESTIONS);
    assert root.fields != [];
    var fields := [Field(STATE, state), Field(QUESTIONS, Obj(questions))];
    assert fields[1..] == [Field(QUESTIONS, Obj(questions))] && fields[1..][1..] == [];
    assert FieldsHeight(fields[1..]) == Max(Height(Obj(questions)), FieldsHeight(fields[1..][1..]));
    assert FieldsHeight(fields) == Max(Height(state), FieldsHeight(fields[1..]));
  }
}
