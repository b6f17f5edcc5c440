/**
 * The language of the JSON parser, as a relation between texts and values: white space, words, numbers, strings, arrays
 * and objects, in plain characters. The parser accepts exactly this language, up to its depth limit.
 */
module JsonGrammar {
  import opened Wrappers
  import opened CStrings
  import opened Json
  import opened JsonRoundTrip

  // ---------------------------------------------------------------- the language

  /** White space from p to q: space, tab, newline, vertical tab, form feed, carriage return. */
  ghost predicate White(t: cstr, p: nat, q: nat) {
    p <= q <= |t| && forall k :: p <= k < q ==> t[k] == 0x20 || 0x09 <= t[k] <= 0x0d
  }

  /** All digits from p to q, and none at q. */
  ghost predicate DigitRun(t: cstr, p: nat, q: nat) {
    p <= q <= |t| && (forall k :: p <= k < q ==> 0x30 <= t[k] <= 0x39) && (q < |t| ==> !(0x30 <= t[q] <= 0x39))
  }

  predicate SignAt(t: cstr, p: nat) { p < |t| && (t[p] == 0x2d || t[p] == 0x2b) }

  /** An optional sign, digits from d to e, an optional point with digits up to f, an optional exponent up to q. */
  ghost predicate NumberShape(t: cstr, p: nat, d: nat, e: nat, f: nat, q: nat) {
    && p < |t| && (SignAt(t, p) || 0x30 <= t[p] <= 0x39) && d == (if SignAt(t, p) then p + 1 else p)
    && DigitRun(t, d, e)
    && (if e < |t| && t[e] == 0x2e then DigitRun(t, e + 1, f) else f == e)
    && (if f < |t| && (t[f] == 0x65 || t[f] == 0x45) then DigitRun(t, if SignAt(t, f + 1) then f + 2 else f + 1, q)
        else q == f)
  }

  /**
   * An integer if there is neither point nor exponent, cut to 64 bits; otherwise what the float conversion makes of
   * it.
   */
  ghost predicate NumberAt(fl: Floats, t: cstr, p: nat, q: nat, v: Value) {
    exists d: nat, e: nat, f: nat ::
      && NumberShape(t, p, d, e, f, q) && p <= q <= |t|
      && v == if q > e then Double(fl.parse(t[p..q])) else Int(Cut(t[p] == 0x2d, NumberOf(t[d..e])))
  }

  /** The number a run of digits stands for. */
  function NumberOf(ds: cstr): int {
    if ds == [] then 0 else 10 * NumberOf(ds[..|ds| - 1]) + (ds[|ds| - 1] as int - 0x30)
  }

  function Cut(negative: bool, m: int): int {
    if negative then (if m > 0x8000_0000_0000_0000 then -0x8000_0000_0000_0000 else -m)
    else if m > 0x7fff_ffff_ffff_ffff then 0x7fff_ffff_ffff_ffff else m
  }

  ghost predicate WordAt(t: cstr, p: nat, q: nat, word: cstr) { p <= q <= |t| && t[p..q] == word }

  ghost predicate StringAt(t: cstr, p: nat, q: nat, s: cstr) {
    p < |t| && t[p] == 0x22 && StringBody(t, p + 1).Success? && StringBody(t, p + 1).value.1 == q
    && s == CString(StringBody(t, p + 1).value.0)
  }

  /** t[p..q] spells the value v. */
  ghost predicate Spells(fl: Floats, t: cstr, p: nat, q: nat, v: Value)
    decreases v, 0
  {
    p < q <= |t| &&
    match v
    case Null => WordAt(t, p, q, [0x6e, 0x75, 0x6c, 0x6c])
    case Bool(b) => WordAt(t, p, q, if b then [0x74, 0x72, 0x75, 0x65] else [0x66, 0x61, 0x6c, 0x73, 0x65])
    case Int(_) => NumberAt(fl, t, p, q, v)
    case Double(_) => NumberAt(fl, t, p, q, v)
    case Str(s) => StringAt(t, p, q, s)
    case Arr(items) => t[p] == 0x5b && SpellsItems(fl, t, p + 1, q, items)
    case Obj(fields) => t[p] == 0x7b && SpellsFields(fl, t, p + 1, q, fields)
  }

  /** Items behind a bracket or comma, up to and with the closing bracket; at least one behind a comma. */
  ghost predicate SpellsItems(fl: Floats, t: cstr, p: nat, q: nat, items: seq<Value>)
    decreases items, 1
  {
    if items == [] then exists a: nat :: White(t, p, a) && a < |t| && t[a] == 0x5d && q == a + 1
    else
      exists a: nat, b: nat, c: nat ::
        && White(t, p, a) && Spells(fl, t, a, b, items[0]) && White(t, b, c) && c < |t|
        && if |items| == 1 then t[c] == 0x5d && q == c + 1
           else t[c] == 0x2c && SpellsItems(fl, t, c + 1, q, items[1..])
  }

  /** Fields behind a brace or comma, up to and with the closing brace. */
  ghost predicate SpellsFields(fl: Floats, t: cstr, p: nat, q: nat, fields: seq<Field>)
    decreases fields, 1
  {
    if fields == [] then exists a: nat :: White(t, p, a) && a < |t| && t[a] == 0x7d && q == a + 1
    else
      exists b: nat, c: nat ::
        && SpellsField(fl, t, p, b, fields[0]) && White(t, b, c) && c < |t|
        && if |fields| == 1 then t[c] == 0x7d && q == c + 1
           else t[c] == 0x2c && SpellsFields(fl, t, c + 1, q, fields[1..])
  }

  /** A key, a colon and a value, with white space around the key and the colon. */
  ghost predicate SpellsField(fl: Floats, t: cstr, p: nat, q: nat, field: Field)
    decreases field, 1
  {
    exists a: nat, b: nat, c: nat, d: nat ::
      && White(t, p, a) && StringAt(t, a, b, field.key) && White(t, b, c) && c < |t| && t[c] == 0x3a
      && White(t, c + 1, d) && Spells(fl, t, d, q, field.value)
  }

  // ---------------------------------------------------------------- lexical elements

  lemma {:induction false} SkipIsWhite(t: cstr, p: nat)
    requires p <= |t|
    ensures White(t, p, SkipWs(t, p))
    decreases |t| - p
  {
    if p < |t| && IsSpace(t[p]) {
      SkipIsWhite(t, p + 1);
    }
  }

  lemma {:induction false} WhiteIsSkipped(t: cstr, p: nat, a: nat)
    requires White(t, p, a) && (a < |t| ==> !IsSpace(t[a]))
    ensures SkipWs(t, p) == a
    decreases a - p
  {
    if p < a {
      WhiteIsSkipped(t, p + 1, a);
    }
  }

  lemma {:induction false} RunIsDigits(t: cstr, p: nat, q: nat)
    requires p <= |t|
    ensures DigitRun(t, p, q) <==> q == DigitsEnd(t, p)
    decreases |t| - p
  {
    if p < |t| && IsDigit(t[p]) {
      RunIsDigits(t, p + 1, q);
      assert DigitRun(t, p, q) ==> p < q;
    } else {
      assert DigitRun(t, p, q) ==> p == q;
    }
  }

  lemma {:induction false} NumberOfDigits(ds: cstr)
    requires forall k :: 0 <= k < |ds| ==> IsDigit(ds[k])
    ensures NumberOf(ds) == DigitsValue(ds)
  {
    if ds != [] {
      NumberOfDigits(ds[..|ds| - 1]);
    }
  }

  /** The shape has one reading. */
  lemma ShapeOf(t: cstr, p: nat, d: nat, e: nat, f: nat, q: nat)
    requires p < |t| && (IsSign(t, p) || IsDigit(t[p]))
    ensures NumberShape(t, p, d, e, f, q) <==>
      d == SignEnd(t, p) && e == DigitsEnd(t, d) && f == FractionEnd(t, e) && q == ExponentEnd(t, f)
  {
    hide DigitRun, DigitsEnd;
    if d == SignEnd(t, p) {
      RunIsDigits(t, d, e);
      if e == DigitsEnd(t, d) {
        if e + 1 <= |t| {
          RunIsDigits(t, e + 1, f);
        }
        if f == FractionEnd(t, e) && f + 1 <= |t| {
          RunIsDigits(t, SignEnd(t, f + 1), q);
        }
      }
    }
  }

  lemma NumberParts(fl: Floats, t: cstr, p: nat, q: nat, v: Value) returns (d: nat, e: nat, f: nat)
    requires NumberAt(fl, t, p, q, v)
    ensures NumberShape(t, p, d, e, f, q) && d <= e <= |t| && p < |t| && p <= q <= |t|
    ensures v == if q > e then Double(fl.parse(t[p..q])) else Int(Cut(t[p] == 0x2d, NumberOf(t[d..e])))
  {
    hide NumberOf;
    d, e, f :| NumberShape(t, p, d, e, f, q) && p <= q <= |t|
      && v == if q > e then Double(fl.parse(t[p..q])) else Int(Cut(t[p] == 0x2d, NumberOf(t[d..e])));
  }

  lemma NumberIsParsed(fl: Floats, t: cstr, p: nat, q: nat, v: Value)
    requires p < |t| && (IsSign(t, p) || IsDigit(t[p]))
    ensures NumberAt(fl, t, p, q, v) <==> ParseNumber(fl, t, p) == (v, q)
  {
    hide NumberShape, NumberOf, DigitsValue;
    var d := SignEnd(t, p);
    var e := DigitsEnd(t, d);
    var f := FractionEnd(t, e);
    var end := ExponentEnd(t, f);
    NumberOfDigits(t[d..e]);
    ShapeOf(t, p, d, e, f, end);
    if NumberAt(fl, t, p, q, v) {
      var d', e', f' := NumberParts(fl, t, p, q, v);
      ShapeOf(t, p, d', e', f', q);
    }
  }

  /** What a value can start with. */
  lemma SpellsStart(fl: Floats, t: cstr, p: nat, q: nat, v: Value)
    requires Spells(fl, t, p, q, v)
    ensures p < q <= |t| && !IsSpace(t[p]) && t[p] != RBRACKET && t[p] != RBRACE
    ensures v.Null? || v.Bool? <==> t[p] in {0x6e, 0x74, 0x66}
    ensures v.Int? || v.Double? <==> IsSign(t, p) || IsDigit(t[p])
    ensures v.Str? <==> t[p] == 0x22
    ensures v.Arr? <==> t[p] == 0x5b
    ensures v.Obj? <==> t[p] == 0x7b
  {
    hide SpellsItems, SpellsFields, StringBody;
    if v.Null? || v.Bool? {
      assert t[p..q][0] == t[p];
    }
  }

  lemma WordIsParsed(fl: Floats, t: cstr, p: nat, depth: nat)
    requires p < |t| && t[p] in {0x6e, 0x74, 0x66} && depth <= MAX_DEPTH
    ensures SkipWs(t, p) == p
    ensures ParseValue(fl, t, p, depth)
      == if Word(t, p, TRUE_TEXT) then Success((Bool(true), p + 4))
         else if Word(t, p, FALSE_TEXT) then Success((Bool(false), p + 5))
         else if Word(t, p, NULL_TEXT) then Success((Null, p + 4))
         else Failure(UnexpectedCharacter)
  {
    hide ParseFields, ParseItems, ParseString;
  }

  // ---------------------------------------------------------------- everything parsed is in the language

  /** Where the parser succeeds, the text spells what it returns. */
  lemma {:induction false} ParsedSpells(fl: Floats, t: cstr, p: nat, depth: nat)
    requires p <= |t| && ParseValue(fl, t, p, depth).Success?
    ensures var (v, q) := ParseValue(fl, t, p, depth).value; Spells(fl, t, SkipWs(t, p), q, v)
    decreases |t| - p, 2
  {
    hide ParseFields, ParseItems, StringBody, SpellsItems, SpellsFields, SkipWs, ParseNumber, NumberAt;
    var s := SkipWs(t, p);
    if t[s] == LBRACE {
      ParsedFieldsSpell(fl, t, s + 1, depth + 1);
    } else if t[s] == LBRACKET {
      ParsedItemsSpell(fl, t, s + 1, depth + 1);
    } else if t[s] != QUOTE && (IsSign(t, s) || IsDigit(t[s])) {
      var (v, q) := ParseNumber(fl, t, s);
      NumberIsParsed(fl, t, s, q, v);
      NumberIsNumber(fl, t, s);
    }
  }

  lemma NumberIsNumber(fl: Floats, t: cstr, p: nat)
    requires p <= |t|
    ensures ParseNumber(fl, t, p).0.Int? || ParseNumber(fl, t, p).0.Double?
  {
  }

  lemma {:induction false} ParsedItemsSpell(fl: Floats, t: cstr, p: nat, depth: nat)
    requires p <= |t| && ParseItems(fl, t, p, depth).Success?
    ensures var (items, q) := ParseItems(fl, t, p, depth).value; SpellsItems(fl, t, p, q, items)
    decreases |t| - p, 4
  {
    hide MoreItems, SkipWs, White, Spells;
    var s := SkipWs(t, p);
    SkipIsWhite(t, p);
    if s < |t| && t[s] == RBRACKET {
    } else {
      MoreItemsSpell(fl, t, p, s, depth);
    }
  }

  lemma WhiteJoins(t: cstr, p: nat, s: nat, a: nat)
    requires White(t, p, s) && White(t, s, a)
    ensures White(t, p, a)
  {
  }

  lemma {:induction false} MoreItemsSpell(fl: Floats, t: cstr, p0: nat, p: nat, depth: nat)
    requires p <= |t| && White(t, p0, p) && MoreItems(fl, t, p, depth).Success?
    ensures var (items, q) := MoreItems(fl, t, p, depth).value; items != [] && SpellsItems(fl, t, p0, q, items)
    decreases |t| - p, 3
  {
    hide ParseValue, SkipWs, White, Spells, SpellsItems;
    var a := SkipWs(t, p);
    SkipIsWhite(t, p);
    WhiteJoins(t, p0, p, a);
    var (item, b) := ParseValue(fl, t, a, depth).value;
    ParsedSpells(fl, t, a, depth);
    SkipTwice(t, p);
    var c := SkipWs(t, b);
    SkipIsWhite(t, b);
    var (items, q) := MoreItems(fl, t, p, depth).value;
    if t[c] != RBRACKET {
      NoWhite(t, c + 1);
      MoreItemsSpell(fl, t, c + 1, c + 1, depth);
      var rest := MoreItems(fl, t, c + 1, depth).value.0;
      assert items == [item] + rest && items[1..] == rest;
    }
    ItemsSpelled(fl, t, p0, a, b, c, q, items);
  }

  lemma ItemsSpelled(fl: Floats, t: cstr, p: nat, a: nat, b: nat, c: nat, q: nat, items: seq<Value>)
    requires items != [] && White(t, p, a) && Spells(fl, t, a, b, items[0]) && White(t, b, c) && c < |t|
    requires if |items| == 1 then t[c] == 0x5d && q == c + 1
             else t[c] == 0x2c && SpellsItems(fl, t, c + 1, q, items[1..])
    ensures SpellsItems(fl, t, p, q, items)
  {
    hide Spells, White;
  }

  lemma NoWhite(t: cstr, p: nat)
    requires p <= |t|
    ensures White(t, p, p)
  {
  }

  lemma SkipTwice(t: cstr, p: nat)
    requires p <= |t|
    ensures SkipWs(t, SkipWs(t, p)) == SkipWs(t, p)
  {
  }

  lemma {:induction false} ParsedFieldsSpell(fl: Floats, t: cstr, p: nat, depth: nat)
    requires p <= |t| && ParseFields(fl, t, p, depth).Success?
    ensures var (fields, q) := ParseFields(fl, t, p, depth).value; SpellsFields(fl, t, p, q, fields)
    decreases |t| - p, 4
  {
    hide MoreFields, SkipWs, White, SpellsField;
    var s := SkipWs(t, p);
    SkipIsWhite(t, p);
    if s < |t| && t[s] == RBRACE {
    } else {
      MoreFieldsSpell(fl, t, p, s, depth);
    }
  }

  lemma {:induction false} MoreFieldsSpell(fl: Floats, t: cstr, p0: nat, p: nat, depth: nat)
    requires p <= |t| && White(t, p0, p) && MoreFields(fl, t, p, depth).Success?
    ensures var (fields, q) := MoreFields(fl, t, p, depth).value; fields != [] && SpellsFields(fl, t, p0, q, fields)
    decreases |t| - p, 3
  {
    hide ParseField, SkipWs, White, SpellsField;
    var (field, b) := ParseField(fl, t, p, depth).value;
    ParsedFieldSpells(fl, t, p0, p, depth);
    var c := SkipWs(t, b);
    SkipIsWhite(t, b);
    var (fields, q) := MoreFields(fl, t, p, depth).value;
    if t[c] != RBRACE {
      NoWhite(t, c + 1);
      MoreFieldsSpell(fl, t, c + 1, c + 1, depth);
      var rest := MoreFields(fl, t, c + 1, depth).value.0;
      assert fields == [field] + rest && fields[1..] == rest;
    }
    assert SpellsField(fl, t, p0, b, fields[0]) && White(t, b, c);
  }

  lemma {:induction false} ParsedFieldSpells(fl: Floats, t: cstr, p0: nat, p: nat, depth: nat)
    requires p <= |t| && White(t, p0, p) && ParseField(fl, t, p, depth).Success?
    ensures var (field, q) := ParseField(fl, t, p, depth).value; SpellsField(fl, t, p0, q, field)
    decreases |t| - p, 2
  {
    hide ParseValue, SkipWs, White, Spells, StringBody;
    var a := SkipWs(t, p);
    SkipIsWhite(t, p);
    WhiteJoins(t, p0, p, a);
    var (key, b) := ParseString(t, a).value;
    var c := SkipWs(t, b);
    SkipIsWhite(t, b);
    var d := SkipWs(t, c + 1);
    SkipIsWhite(t, c + 1);
    ParsedSpells(fl, t, d, depth);
    SkipTwice(t, c + 1);
    assert StringAt(t, a, b, key);
  }

  // ---------------------------------------------------------------- everything in the language is parsed

  /**
   * A text that spells a value is parsed to that value, behind any white space, if the value is not nested too deep.
   */
  lemma {:induction false} SpelledIsParsed(fl: Floats, t: cstr, p0: nat, p: nat, q: nat, v: Value, depth: nat)
    requires White(t, p0, p) && Spells(fl, t, p, q, v) && depth + Height(v) <= MAX_DEPTH
    ensures ParseValue(fl, t, p0, depth) == Success((v, q))
    decreases v, 1
  {
    hide ParseFields, ParseItems, StringBody, SpellsItems, SpellsFields, SkipWs, ParseNumber, NumberAt, White;
    SpellsStart(fl, t, p, q, v);
    WhiteIsSkipped(t, p0, p);
    match v
    case Null => WordIsParsed(fl, t, p, depth);
    case Bool(_) => WordIsParsed(fl, t, p, depth);
    case Int(_) => NumberIsParsed(fl, t, p, q, v);
    case Double(_) => NumberIsParsed(fl, t, p, q, v);
    case Str(_) =>
    case Arr(items) => SpelledItemsAreParsed(fl, t, p + 1, q, items, depth + 1);
    case Obj(fields) => SpelledFieldsAreParsed(fl, t, p + 1, q, fields, depth + 1);
  }

  lemma {:induction false} SpelledItemsAreParsed(fl: Floats, t: cstr, p: nat, q: nat, items: seq<Value>, depth: nat)
    requires SpellsItems(fl, t, p, q, items) && (items != [] ==> depth + ItemsHeight(items) <= MAX_DEPTH)
    ensures p <= |t| && ParseItems(fl, t, p, depth) == Success((items, q))
    decreases items, 3
  {
    hide MoreItems, SkipWs, Spells;
    if items == [] {
      var a: nat :| White(t, p, a) && a < |t| && t[a] == 0x5d && q == a + 1;
      WhiteIsSkipped(t, p, a);
    } else {
      var a, b, c := NextItem(fl, t, p, q, items);
      SpellsStart(fl, t, a, b, items[0]);
      WhiteIsSkipped(t, p, a);
      MoreSpelledItems(fl, t, a, a, b, c, q, items, depth);
    }
  }

  /** The first item of a list, and what stands behind it. */
  lemma NextItem(fl: Floats, t: cstr, p: nat, q: nat, items: seq<Value>) returns (a: nat, b: nat, c: nat)
    requires items != [] && SpellsItems(fl, t, p, q, items)
    ensures White(t, p, a) && Spells(fl, t, a, b, items[0]) && White(t, b, c) && c < |t|
    ensures if |items| == 1 then t[c] == 0x5d && q == c + 1
            else t[c] == 0x2c && SpellsItems(fl, t, c + 1, q, items[1..])
  {
    hide Spells, White;
    a, b, c :| White(t, p, a) && Spells(fl, t, a, b, items[0]) && White(t, b, c) && c < |t|
      && if |items| == 1 then t[c] == 0x5d && q == c + 1
         else t[c] == 0x2c && SpellsItems(fl, t, c + 1, q, items[1..]);
  }

  lemma ItemsHeightStep(items: seq<Value>)
    requires items != []
    ensures Height(items[0]) <= ItemsHeight(items) && (|items| > 1 ==> ItemsHeight(items[1..]) <= ItemsHeight(items))
  {
    hide Height;
  }

  lemma FieldsHeightStep(fields: seq<Field>)
    requires fields != []
    ensures Height(fields[0].value) <= FieldsHeight(fields)
    ensures |fields| > 1 ==> FieldsHeight(fields[1..]) <= FieldsHeight(fields)
  {
    hide Height;
  }

  lemma {:induction false} MoreSpelledItems(fl: Floats, t: cstr, p: nat, a: nat, b: nat, c: nat, q: nat,
                                            items: seq<Value>, depth: nat)
    requires items != [] && depth + ItemsHeight(items) <= MAX_DEPTH
    requires White(t, p, a) && Spells(fl, t, a, b, items[0]) && White(t, b, c) && c < |t|
    requires if |items| == 1 then t[c] == 0x5d && q == c + 1
             else t[c] == 0x2c && SpellsItems(fl, t, c + 1, q, items[1..])
    ensures MoreItems(fl, t, p, depth) == Success((items, q))
    decreases items, 2
  {
    hide ParseValue, SkipWs, Spells, SpellsItems, Height, ItemsHeight;
    ItemsHeightStep(items);
    SpellsStart(fl, t, a, b, items[0]);
    WhiteIsSkipped(t, p, a);
    WhiteIsSkipped(t, b, c);
    NoWhite(t, a);
    SpelledIsParsed(fl, t, a, a, b, items[0], depth);
    if |items| == 1 {
      assert items == [items[0]];
    } else {
      var rest := items[1..];
      var a', b', c' := NextItem(fl, t, c + 1, q, rest);
      MoreSpelledItems(fl, t, c + 1, a', b', c', q, rest, depth);
      assert items == [items[0]] + rest;
    }
  }

  lemma {:induction false} SpelledFieldsAreParsed(fl: Floats, t: cstr, p: nat, q: nat, fields: seq<Field>, depth: nat)
    requires SpellsFields(fl, t, p, q, fields) && (fields != [] ==> depth + FieldsHeight(fields) <= MAX_DEPTH)
    ensures p <= |t| && ParseFields(fl, t, p, depth) == Success((fields, q))
    decreases fields, 3
  {
    hide MoreFields, SkipWs, SpellsField, FieldsHeight;
    if fields == [] {
      var a: nat :| White(t, p, a) && a < |t| && t[a] == 0x7d && q == a + 1;
      WhiteIsSkipped(t, p, a);
    } else {
      var b, c := NextField(fl, t, p, q, fields);
      var a := FieldStart(fl, t, p, b, fields[0]);
      WhiteIsSkipped(t, p, a);
      MoreSpelledFields(fl, t, a, b, c, q, fields, depth);
    }
  }

  lemma NextField(fl: Floats, t: cstr, p: nat, q: nat, fields: seq<Field>) returns (b: nat, c: nat)
    requires fields != [] && SpellsFields(fl, t, p, q, fields)
    ensures SpellsField(fl, t, p, b, fields[0]) && White(t, b, c) && c < |t|
    ensures if |fields| == 1 then t[c] == 0x7d && q == c + 1
            else t[c] == 0x2c && SpellsFields(fl, t, c + 1, q, fields[1..])
  {
    hide SpellsField, White;
    b, c :| SpellsField(fl, t, p, b, fields[0]) && White(t, b, c) && c < |t|
      && if |fields| == 1 then t[c] == 0x7d && q == c + 1
         else t[c] == 0x2c && SpellsFields(fl, t, c + 1, q, fields[1..]);
  }

  /** The key of a field starts at some quote, and the field can be read from there as well. */
  lemma FieldStart(fl: Floats, t: cstr, p: nat, q: nat, field: Field) returns (a: nat)
    requires SpellsField(fl, t, p, q, field)
    ensures White(t, p, a) && a < |t| && t[a] == 0x22 && SpellsField(fl, t, a, q, field)
  {
    hide Spells, StringAt;
    var b, c, d;
    a, b, c, d := FieldParts(fl, t, p, q, field);
    StringIsParsed(t, a, b, field.key);
    assert t[a] == 0x22 by { QuoteAt(t, a, b, field.key); }
    NoWhite(t, a);
  }

  lemma {:induction false} MoreSpelledFields(fl: Floats, t: cstr, p: nat, b: nat, c: nat, q: nat, fields: seq<Field>,
                                             depth: nat)
    requires fields != [] && depth + FieldsHeight(fields) <= MAX_DEPTH
    requires SpellsField(fl, t, p, b, fields[0]) && White(t, b, c) && c < |t|
    requires if |fields| == 1 then t[c] == 0x7d && q == c + 1
             else t[c] == 0x2c && SpellsFields(fl, t, c + 1, q, fields[1..])
    ensures p <= |t| && MoreFields(fl, t, p, depth) == Success((fields, q))
    decreases fields, 2
  {
    hide ParseField, SkipWs, SpellsField, SpellsFields, Height, FieldsHeight;
    FieldsHeightStep(fields);
    SpelledFieldIsParsed(fl, t, p, b, fields[0], depth);
    WhiteIsSkipped(t, b, c);
    if |fields| == 1 {
      assert fields == [fields[0]];
    } else {
      var rest := fields[1..];
      var b', c' := NextField(fl, t, c + 1, q, rest);
      MoreSpelledFields(fl, t, c + 1, b', c', q, rest, depth);
      assert fields == [fields[0]] + rest;
    }
  }

  lemma {:induction false} SpelledFieldIsParsed(fl: Floats, t: cstr, p: nat, q: nat, field: Field, depth: nat)
    requires SpellsField(fl, t, p, q, field) && depth + Height(field.value) <= MAX_DEPTH
    ensures p <= |t| && ParseField(fl, t, p, depth) == Success((field, q))
    decreases field, 2
  {
    hide ParseValue, SkipWs, Spells, SpellsField, StringAt, ParseString;
    var a, b, c, d := FieldParts(fl, t, p, q, field);
    SpellsStart(fl, t, d, q, field.value);
    StringIsParsed(t, a, b, field.key);
    WhiteIsSkipped(t, p, a);
    WhiteIsSkipped(t, b, c);
    WhiteIsSkipped(t, c + 1, d);
    NoWhite(t, d);
    SpelledIsParsed(fl, t, d, d, q, field.value, depth);
  }

  lemma FieldParts(fl: Floats, t: cstr, p: nat, q: nat, field: Field) returns (a: nat, b: nat, c: nat, d: nat)
    requires SpellsField(fl, t, p, q, field)
    ensures White(t, p, a) && StringAt(t, a, b, field.key) && White(t, b, c) && c < |t| && t[c] == 0x3a
    ensures White(t, c + 1, d) && Spells(fl, t, d, q, field.value)
  {
    hide Spells, StringAt, White;
    a, b, c, d :|
      && White(t, p, a) && StringAt(t, a, b, field.key) && White(t, b, c) && c < |t| && t[c] == 0x3a
      && White(t, c + 1, d) && Spells(fl, t, d, q, field.value);
  }

  lemma QuoteAt(t: cstr, p: nat, q: nat, s: cstr)
    requires StringAt(t, p, q, s)
    ensures p < |t| && t[p] == 0x22
  {
    hide StringBody;
  }

  lemma StringIsParsed(t: cstr, p: nat, q: nat, s: cstr)
    requires StringAt(t, p, q, s)
    ensures p < |t| && !IsSpace(t[p]) && ParseString(t, p) == Success((s, q))
  {
    hide StringBody;
  }

  // ---------------------------------------------------------------- the parser and the language

  /**
   * A whole text is parsed to v if and only if it spells v, with white space around it, and v is nested at most 512
   * deep.
   */
  lemma ParsesExactlyTheLanguage(fl: Floats, t: cstr, v: Value)
    ensures Parse(fl, t) == Success(v) <==>
      Height(v) <= 512 && exists p: nat, q: nat :: White(t, 0, p) && Spells(fl, t, p, q, v) && White(t, q, |t|)
  {
    hide ParseValue, SkipWs, Spells, White, Height;
    if Parse(fl, t) == Success(v) {
      var q := ParseValue(fl, t, 0, 0).value.1;
      ParsedSpells(fl, t, 0, 0);
      ParsedFits(fl, t, 0, 0);
      SkipIsWhite(t, 0);
      SkipIsWhite(t, q);
    }
    if Height(v) <= 512 && exists p: nat, q: nat :: White(t, 0, p) && Spells(fl, t, p, q, v) && White(t, q, |t|) {
      var p: nat, q: nat :| White(t, 0, p) && Spells(fl, t, p, q, v) && White(t, q, |t|);
      SpelledIsParsed(fl, t, 0, p, q, v, 0);
      WhiteIsSkipped(t, q, |t|);
    }
  }
}
