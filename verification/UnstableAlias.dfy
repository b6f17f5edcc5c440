/** A tokenizer table with an alias for which encoding what decoding returned gives other ids. */
module UnstableAlias {
  import opened Wrappers
  import opened CStrings
  import opened ByteLevel
  import opened Specials
  import opened Nfc
  import opened Tokenizer
  import opened TokenizerRoundTrip
  import opened EncodesAll
  import opened Reencoding

  /** Id 5 is spelled "ab" and has the alias "c"; id 6 is spelled "aa". */
  function SampleSpelling(i: nat): cstr {
    match i
    case 0 => [0x21]
    case 5 => [0x61, 0x62]
    case 6 => [0x61, 0x61]
    case 7 => [0x61]
    case 11 => [0x2c]
    case 13 => [0x2e]
    case 198 => Symbol(0x0a)
    case _ => [0x62]
  }

  function SampleSpecials(): (r: seq<Special>)
    ensures |r| == 3
    ensures r[0] == Special([0x61, 0x62], 5) && r[1] == Special([0x63], 5) && r[2] == Special([0x61, 0x61], 6)
  {
    [Special([0x61, 0x62], 5), Special([0x63], 5), Special([0x61, 0x61], 6)]
  }

  function Sample(): (t: Tables)
    ensures |t.spellings| == 199 && forall i :: 0 <= i < 199 ==> t.spellings[i] == SampleSpelling(i)
    ensures t.vocab == VocabularyOf(t.spellings) && t.specials == SampleSpecials()
  {
    var spellings := seq(199, i requires 0 <= i < 199 => SampleSpelling(i));
    Tables(VocabularyOf(spellings), spellings, [], SampleSpecials())
  }

  lemma SampleFirst(id: nat)
    ensures FirstSpecial(SampleSpecials(), id)
      == if id == 5 then Some([0x61, 0x62]) else if id == 6 then Some([0x61, 0x61]) else None
  {
    assert SampleSpecials()[1..] == [Special([0x63], 5), Special([0x61, 0x61], 6)];
    assert SampleSpecials()[1..][1..] == [Special([0x61, 0x61], 6)];
    assert SampleSpecials()[1..][1..][1..] == [];
  }

  lemma SampleShortcut(id: nat, c: byte)
    requires id < 199 && id != 5 && id != 6 && SampleSpelling(id) == Symbol(c)
    ensures TokenBytes(Sample(), id) == Some([c])
  {
    SampleFirst(id);
    OneByteText(c);
    assert Symbol(c)[0..] == Symbol(c);
    DecodesByteLevel(Symbol(c), 0, [c]);
  }

  lemma SampleShortcuts()
    ensures ShortcutsSpelled(Sample())
  {
    hide TokenBytes, VocabularyOf, Symbol;
    SampleShortcut(11, 0x2c) by { KeptSymbol(0x2c); }
    SampleShortcut(0, 0x21) by { KeptSymbol(0x21); }
    SampleShortcut(13, 0x2e) by { KeptSymbol(0x2e); }
    SampleShortcut(198, 0x0a);
  }

  lemma KeptSymbol(b: byte)
    requires 33 <= b <= 126
    ensures Symbol(b) == [b]
  {
  }

  lemma SampleIsLoaded()
    ensures Loaded(Sample())
  {
    hide ShortcutsSpelled, VocabularyOf, FirstSpecial;
    SampleFirst(5);
    SampleFirst(6);
    SampleShortcuts();
    var t := Sample();
    assert SampleSpelling(5) == [0x61, 0x62] && SampleSpelling(6) == [0x61, 0x61];
    assert SpelledFirst(t);
  }

  /** "ac": the plain letter, then the alias. */
  lemma SampleChunks()
    ensures Chunks(SampleSpecials(), [0x61, 0x63], 0) == [Plain([0x61]), Token(SampleSpecials()[1])]
  {
    var s: cstr := [0x61, 0x63];
    assert s[1..2] == [0x63] && s[0..2] == s && s[0..1] == [0x61];
    assert SpecialAt(SampleSpecials(), s, 1, 1);
    forall r: nat, k: nat | SpecialAt(SampleSpecials(), s, r, k) ensures Precedes(SampleSpecials(), 1, 1, r, k) {
      assert r + |SampleSpecials()[k].text| <= 2;
    }
    ChosenIsNext(SampleSpecials(), s, 0, 1, 1);
    assert Chunks(SampleSpecials(), s, 2) == [];
    assert [Token(SampleSpecials()[1])] + [] == [Token(SampleSpecials()[1])];
  }

  /** "aab": the other special text, then a plain letter. */
  lemma RespelledSampleChunks()
    ensures Chunks(SampleSpecials(), [0x61, 0x61, 0x62], 0) == [Token(SampleSpecials()[2]), Plain([0x62])]
  {
    var s: cstr := [0x61, 0x61, 0x62];
    assert s[0..2] == [0x61, 0x61] && s[2..] == [0x62] && s[2..3] == [0x62];
    assert s[0..2][1] == 0x61 && s[0..1][0] == 0x61;
    assert SpecialAt(SampleSpecials(), s, 0, 2);
    ChosenIsNext(SampleSpecials(), s, 0, 0, 2);
    NothingIsNext(SampleSpecials(), s, 2);
    assert Chunks(SampleSpecials(), s, 2) == [Plain([0x62])];
    assert [Token(SampleSpecials()[2])] + [Plain([0x62])] == [Token(SampleSpecials()[2]), Plain([0x62])];
  }

  /** A plain letter of the sample vocabulary is encoded. */
  lemma SampleLetter(b: cchar)
    requires b == 0x61 || b == 0x62
    ensures TextIds(Sample(), [b], 0).Some?
  {
    var t := Sample();
    assert Symbol(b) == SampleSpelling(if b == 0x61 then 7 else 1);
    assert Symbol(b) == t.spellings[if b == 0x61 then 7 else 1];
    TextSucceeds(t, [b], 0);
  }

  /**
   * Overlaps matter: in this table decoded texts keep their ids and their ends, but "ac" is decoded to "aab", which is
   * encoded to other ids.
   */
  lemma AliasCanUnsettle()
    ensures Loaded(Sample()) && KeepsIds(SampleSpecials()) && KeepsEnds(SampleSpecials()) && !Stable(Sample())
  {
    hide VocabularyOf, SampleSpelling, Chunks, ChunksIds, TextIds, Loaded, RespelledAll, Decoded, Normalized,
      FirstSpecial,
      KeepsIds, KeepsEnds, Stable;
    SampleIsLoaded();
    SampleKeeps();
    var t := Sample();
    var s: cstr, out: cstr := [0x61, 0x63], [0x61, 0x61, 0x62];
    AsciiIsNormal(s, 0);
    AsciiIsNormal(out, 0);
    assert s[0..] == s && out[0..] == out;
    SampleChunks();
    RespelledSampleChunks();
    SampleLetter(0x61);
    SampleLetter(0x62);
    var a, b := TextIds(t, [0x61], 0).value, TextIds(t, [0x62], 0).value;
    SampleEncoded(t, Plain([0x61]), Token(SampleSpecials()[1]));
    SampleEncoded(t, Token(SampleSpecials()[2]), Plain([0x62]));
    assert Encoded(t, s) == Some(a + [5]) && Encoded(t, out) == Some([6] + b);
    SampleFirst(5);
    SampleFirst(6);
    DecodesRespelled(t, s);
    RespelledSample();
    if Stable(t) {
      StableOn(t, s, out);
      LastIsLetter(t, a, b);
    }
  }

  lemma SampleEncoded(t: Tables, c: Chunk, d: Chunk)
    ensures ChunksIds(t, [c, d]) == Both(ChunkIds(t, c), ChunkIds(t, d))
  {
    hide ChunkIds;
    assert [c, d] == [c] + [d] && [d] == [d] + [];
    ChunksIdsCons(t, c, [d]);
    ChunksIdsCons(t, d, []);
    if ChunkIds(t, d).Some? {
      assert ChunkIds(t, d).value + [] == ChunkIds(t, d).value;
    }
  }

  lemma RespelledSample()
    ensures RespelledAll(SampleSpecials(), [Plain([0x61]), Token(SampleSpecials()[1])]) == [0x61, 0x61, 0x62]
  {
    SampleFirst(5);
    var c, d := Plain([0x61]), Token(SampleSpecials()[1]);
    assert [c, d] == [c] + [d] && [d] == [d] + [];
    RespelledNothing(SampleSpecials());
    RespelledCons(SampleSpecials(), c, [d]);
    RespelledCons(SampleSpecials(), d, []);
  }

  lemma SampleDecodes(j: nat)
    requires j < 3
    ensures FirstId(SampleSpecials(), SampleSpecials()[j].text) == SampleSpecials()[j].id
    ensures DecodedText(SampleSpecials(), j) == if j < 2 then [0x61, 0x62] else [0x61, 0x61]
  {
    hide FirstId, FirstSpecial;
    SampleFirst(5);
    SampleFirst(6);
    FirstIdIs(SampleSpecials(), j);
  }

  lemma SampleKeeps()
    ensures KeepsIds(SampleSpecials()) && KeepsEnds(SampleSpecials())
  {
    hide FirstId, DecodedText, Acute;
    SampleDecodes(0);
    SampleDecodes(1);
    SampleDecodes(2);
    assert FirstWithText(SampleSpecials(), [0x61, 0x62], 0);
    assert FirstWithText(SampleSpecials(), [0x61, 0x61], 2);
    forall j | 0 <= j < 3 ensures !TakesAcute(DecodedText(SampleSpecials(), j)) || j == 2 {
      BTakesNoAcute();
    }
    assert TakesAcute(DecodedText(SampleSpecials(), 2)) ==> TakesAcute(SampleSpecials()[2].text);
  }

  lemma BTakesNoAcute()
    ensures !TakesAcute([0x61, 0x62])
  {
  }

  /** The ids of a plain letter do not end in the id of "ab". */
  lemma LastIsLetter(t: Tables, a: seq<nat>, b: seq<nat>)
    requires Loaded(t) && FirstSpecial(t.specials, 5) == Some([0x61, 0x62]) && TextIds(t, [0x62], 0) == Some(b)
    ensures a + [5] != [6] + b
  {
    hide TextIds, FirstSpecial, Loaded;
    TextGives(t, [0x62], 0);
    var letter: cstr := [0x62];
    assert letter[0..] == letter;
    assert Decoded(t, b) == Some([0x62]);
    assert b != [] by { DecodedNothing(t); }
    var front, last := b[..|b| - 1], b[|b| - 1];
    assert b == front + [last];
    DecodedConcat(t, front, [last]);
    DecodedOne(t, last);
    assert last != 5;
    assert ([6] + b)[|b|] == last && (a + [5])[|a|] == 5;
  }
}
