/** Decoding undoes encoding: exactly when every special text is the first text registered under its id. */
module TokenizerRoundTrip {
  import opened Wrappers
  import opened CStrings
  import opened ByteLevel
  import opened Bpe
  import opened PreTokenizer
  import opened Specials
  import opened Nfc
  import opened Tokenizer

  // ---------------------------------------------------------------- hypotheses on the tables

  predicate Ascii(s: cstr) { forall i :: 0 <= i < |s| ==> s[i] < 0x80 }

  ghost predicate AsciiSpecials(specials: seq<Special>) {
    forall j :: 0 <= j < |specials| ==> Ascii(specials[j].text)
  }

  /** The first text of a special id is the spelling of that id in the vocabulary. */
  ghost predicate SpelledFirst(t: Tables) {
    forall j :: 0 <= j < |t.specials| ==>
      var id := t.specials[j].id;
      id < |t.spellings| && FirstSpecial(t.specials, id) == Some(t.spellings[id])
  }

  /** The four shortcut ids spell their bytes. */
  ghost predicate ShortcutsSpelled(t: Tables) {
    forall c: byte :: Shortcut(c).Some? ==> TokenBytes(t, Shortcut(c).value) == Some([c])
  }

  ghost predicate Loaded(t: Tables) {
    && t.vocab == VocabularyOf(t.spellings)
    && NoEmptyText(t.specials) && AsciiSpecials(t.specials) && SpelledFirst(t) && ShortcutsSpelled(t)
  }

  /** Each text has one spelling when decoded: the text it was recognised by. */
  ghost predicate OneTextPerId(t: Tables) {
    forall j :: 0 <= j < |t.specials| ==>
      FirstSpecial(t.specials, FirstId(t.specials, t.specials[j].text)) == Some(t.specials[j].text)
  }

  /** The id a special text is encoded to. */
  function FirstId(specials: seq<Special>, text: cstr): nat
    requires exists j :: 0 <= j < |specials| && specials[j].text == text
  {
    if specials[0].text == text then specials[0].id
    else
      assert exists j :: 0 <= j < |specials| - 1 && specials[1..][j].text == text by {
        var j :| 0 <= j < |specials| && specials[j].text == text;
        assert specials[1..][j - 1].text == text;
      }
      FirstId(specials[1..], text)
  }

  lemma {:induction false} FirstIdIs(specials: seq<Special>, j: nat)
    requires j < |specials| && forall k :: 0 <= k < j ==> specials[k].text != specials[j].text
    ensures FirstId(specials, specials[j].text) == specials[j].id
  {
    if j > 0 {
      assert specials[1..][j - 1] == specials[j];
      FirstIdIs(specials[1..], j - 1);
    }
  }

  lemma {:induction false} FirstSpecialIsASpecial(specials: seq<Special>, id: nat) returns (j: nat)
    requires FirstSpecial(specials, id).Some?
    ensures j < |specials| && specials[j] == Special(FirstSpecial(specials, id).value, id)
  {
    if specials[0].id == id {
      j := 0;
    } else {
      j := FirstSpecialIsASpecial(specials[1..], id);
      j := j + 1;
    }
  }

  // ---------------------------------------------------------------- decoding is piecewise

  lemma {:induction false} DecodedConcat(t: Tables, a: seq<nat>, b: seq<nat>)
    ensures Decoded(t, a + b) == Both(Decoded(t, a), Decoded(t, b))
  {
    hide TokenBytes;
    if a == [] {
      assert a + b == b;
      BeforeNothing(Decoded(t, b));
    } else {
      assert (a + b)[0] == a[0] && (a + b)[1..] == a[1..] + b;
      DecodedConcat(t, a[1..], b);
      BothAssoc(TokenBytes(t, a[0]), Decoded(t, a[1..]), Decoded(t, b));
    }
  }

  lemma DecodedOne(t: Tables, id: nat)
    ensures Decoded(t, [id]) == TokenBytes(t, id)
  {
    hide TokenBytes;
    assert [id][1..] == [];
    if TokenBytes(t, id).Some? {
      assert TokenBytes(t, id).value + [] == TokenBytes(t, id).value;
    }
  }

  /** The ids decode to these bytes. */
  ghost predicate Gives(t: Tables, ids: Option<seq<nat>>, bytes: seq<byte>) {
    ids.Some? ==> Decoded(t, ids.value) == Some(bytes)
  }

  lemma GivesBoth(t: Tables, a: Option<seq<nat>>, x: seq<byte>, b: Option<seq<nat>>, y: seq<byte>)
    requires Gives(t, a, x) && Gives(t, b, y)
    ensures Gives(t, Both(a, b), x + y)
  {
    if a.Some? && b.Some? {
      DecodedConcat(t, a.value, b.value);
    }
  }

  // ---------------------------------------------------------------- plain text

  /** Byte-level text below 0x80 is the text itself. */
  lemma {:induction false} AsciiSpellsItself(a: cstr, seg: seq<byte>)
    requires a == ByteLevelText(seg) && Ascii(a)
    ensures a == seg
  {
    hide Symbol, ByteLevelText;
    ByteLevelEnds(seg);
    if seg != [] {
      ByteLevelStep(seg);
      SymbolShape(seg[0]);
      var u := Symbol(seg[0]);
      assert a[0] == u[0];
      assert u == [a[0]] && a[1..] == ByteLevelText(seg[1..]);
      AsciiSpellsItself(a[1..], seg[1..]);
      assert a == [a[0]] + a[1..] && seg == [seg[0]] + seg[1..];
    }
  }

  /** A token found by its text decodes to the bytes the text spells. */
  lemma VocabularyTokenGives(t: Tables, a: cstr, seg: seq<byte>)
    requires Loaded(t) && a == ByteLevelText(seg) && a in t.vocab
    ensures Gives(t, Some([t.vocab[a]]), seg)
  {
    hide ByteLevelText, DecodeFrom, NoEmptyText, ShortcutsSpelled;
    var id := t.vocab[a];
    assert id < |t.spellings| && t.spellings[id] == a;
    DecodedOne(t, id);
    if FirstSpecial(t.specials, id).Some? {
      var j := FirstSpecialIsASpecial(t.specials, id);
      assert t.specials[j].text == a && Ascii(a);
      AsciiSpellsItself(a, seg);
    } else {
      assert a[0..] == a;
      DecodesByteLevel(a, 0, seg);
    }
  }

  lemma {:induction false} CharsGive(t: Tables, a: cstr, j: nat, seg: seq<byte>)
    requires Loaded(t) && j <= |a| && a[j..] == ByteLevelText(seg)
    ensures Gives(t, EncodeChars(t.vocab, a, j), seg)
    decreases |seg|
  {
    hide Loaded, ByteLevelText, Symbol, Decoded;
    ByteLevelEnds(seg);
    if seg == [] {
      assert Decoded(t, []) == Some([]) by { DecodedNothing(t); }
    } else {
      assert seg[0..] == seg;
      NextSymbol(a, j, seg, 0);
      SymbolShape(seg[0]);
      var end := CharEnd(a, j);
      var q := a[j..end];
      assert q == Symbol(seg[0]);
      OneByteText(seg[0]);
      if q in t.vocab {
        VocabularyTokenGives(t, q, [seg[0]]);
        CharsGive(t, a, end, seg[1..]);
        GivesBoth(t, Some([t.vocab[q]]), [seg[0]], EncodeChars(t.vocab, a, end), seg[1..]);
        assert seg == [seg[0]] + seg[1..];
      }
    }
  }

  lemma DecodedNothing(t: Tables)
    ensures Decoded(t, []) == Some([])
  {
  }

  lemma OneByteText(b: byte)
    ensures ByteLevelText([b]) == Symbol(b)
  {
    ByteLevelStep([b]);
    assert ByteLevelText([]) == [];
    assert [b][1..] == [];
  }

  lemma SymbolGives(t: Tables, a: cstr, seg: seq<byte>)
    requires Loaded(t) && a == ByteLevelText(seg)
    ensures Gives(t, EncodeSymbol(t.vocab, a), seg)
  {
    hide Loaded, ByteLevelText, Gives;
    if a in t.vocab {
      VocabularyTokenGives(t, a, seg);
    } else {
      assert a[0..] == a;
      CharsGive(t, a, 0, seg);
    }
  }

  lemma {:induction false} SymbolsGive(t: Tables, syms: seq<cstr>, segs: seq<seq<byte>>)
    requires Loaded(t) && Spell(syms, segs)
    ensures Gives(t, EncodeSymbols(t.vocab, syms), Flatten(segs))
  {
    hide Loaded, ByteLevelText, EncodeSymbol;
    if syms == [] {
      DecodedNothing(t);
    } else {
      SymbolGives(t, syms[0], segs[0]);
      SymbolsGive(t, syms[1..], segs[1..]);
      GivesBoth(t, EncodeSymbol(t.vocab, syms[0]), segs[0], EncodeSymbols(t.vocab, syms[1..]), Flatten(segs[1..]));
    }
  }

  /** One part per byte. */
  function Bytes(s: seq<byte>): (r: seq<seq<byte>>)
    ensures |r| == |s| && forall i :: 0 <= i < |s| ==> r[i] == [s[i]]
  {
    seq(|s|, i requires 0 <= i < |s| => [s[i]])
  }

  lemma {:induction false} FlattenBytes(s: seq<byte>)
    ensures Flatten(Bytes(s)) == s
  {
    if s != [] {
      FlattenBytes(s[1..]);
      assert Bytes(s) == [[s[0]]] + Bytes(s[1..]);
      FlattenCons([s[0]], Bytes(s[1..]));
    }
  }

  /** Whatever a piece is encoded to decodes to the piece. */
  lemma PieceGives(t: Tables, s: cstr)
    requires Loaded(t)
    ensures Gives(t, PieceIds(t, s), s)
  {
    hide MergeAll, EncodeSymbols, Symbol, ByteLevelText, Flatten, TokenBytes;
    if |s| == 1 && Shortcut(s[0]).Some? {
      DecodedOne(t, Shortcut(s[0]).value);
      assert [s[0]] == s;
    } else {
      forall i | 0 <= i < |s| ensures Symbols(s)[i] == ByteLevelText(Bytes(s)[i]) {
        OneByteText(s[i]);
      }
      var segs := MergedSpell(t.merges, Symbols(s), Bytes(s));
      FlattenBytes(s);
      SymbolsGive(t, MergeAll(t.merges, Symbols(s)), segs);
    }
  }

  lemma {:induction false} TextGives(t: Tables, s: cstr, p: nat)
    requires Loaded(t) && p <= |s|
    ensures Gives(t, TextIds(t, s, p), s[p..])
    decreases |s| - p
  {
    hide Loaded, PieceIds, PieceEnd, Decoded;
    if p == |s| {
      DecodedNothing(t);
    } else {
      var q := PieceEnd(s, p);
      PieceGives(t, s[p..q]);
      TextGives(t, s, q);
      GivesBoth(t, PieceIds(t, s[p..q]), s[p..q], TextIds(t, s, q), s[q..]);
      assert s[p..] == s[p..q] + s[q..];
    }
  }

  // ---------------------------------------------------------------- special tokens

  /** What a chunk turns into: a special text becomes the first text registered under its id. */
  function Respelled(specials: seq<Special>, c: Chunk): cstr {
    match c
    case Plain(text) => text
    case Token(special) =>
      match FirstSpecial(specials, special.id) case Some(text) => text case None => special.text
  }

  function RespelledAll(specials: seq<Special>, chunks: seq<Chunk>): cstr {
    if chunks == [] then [] else Respelled(specials, chunks[0]) + RespelledAll(specials, chunks[1..])
  }

  ghost predicate TokensOf(specials: seq<Special>, chunks: seq<Chunk>) {
    forall i :: 0 <= i < |chunks| && chunks[i].Token? ==> chunks[i].special in specials
  }

  lemma {:induction false} ChunksGive(t: Tables, chunks: seq<Chunk>)
    requires Loaded(t) && TokensOf(t.specials, chunks)
    ensures Gives(t, ChunksIds(t, chunks), RespelledAll(t.specials, chunks))
  {
    hide Loaded, TextIds, Decoded, FirstSpecial;
    if chunks == [] {
      DecodedNothing(t);
    } else {
      match chunks[0] {
        case Plain(text) =>
          TextGives(t, text, 0);
          assert text[0..] == text;
        case Token(special) =>
          assert special in t.specials;
          DecodedOne(t, special.id);
      }
      ChunksGive(t, chunks[1..]);
      GivesBoth(t, ChunkIds(t, chunks[0]), Respelled(t.specials, chunks[0]),
                ChunksIds(t, chunks[1..]), RespelledAll(t.specials, chunks[1..]));
    }
  }

  lemma {:induction false} ChunksHaveTokens(specials: seq<Special>, s: cstr, pos: nat)
    requires NoEmptyText(specials) && pos <= |s|
    ensures TokensOf(specials, Chunks(specials, s, pos))
    decreases |s| - pos
  {
    hide NextSpecial;
    if pos < |s| && NextSpecial(specials, s, pos).Some? {
      var (q, j) := NextSpecial(specials, s, pos).value;
      ChunksHaveTokens(specials, s, q + |specials[j].text|);
    }
  }

  /**
   * For every input: if it can be encoded, the ids decode to the normalised input, with each special text replaced by
   * the first text registered under its id.
   */
  lemma DecodesRespelled(t: Tables, s: cstr)
    requires Loaded(t)
    ensures Gives(t, Encoded(t, s), RespelledAll(t.specials, Chunks(t.specials, Normalized(s, 0), 0)))
  {
    hide Chunks, ChunksIds, Normalized;
    ChunksHaveTokens(t.specials, Normalized(s, 0), 0);
    ChunksGive(t, Chunks(t.specials, Normalized(s, 0), 0));
  }

  // ---------------------------------------------------------------- exactly when decoding undoes encoding

  ghost predicate RoundTrips(t: Tables)
    requires NoEmptyText(t.specials)
  {
    forall s: cstr :: Gives(t, Encoded(t, s), Normalized(s, 0))
  }

  /** The chosen token at q is the first table entry with its text. */
  lemma ChosenIsFirst(specials: seq<Special>, s: cstr, pos: nat, q: nat, j: nat)
    requires Chosen(specials, s, pos, q, j)
    ensures FirstId(specials, specials[j].text) == specials[j].id
  {
    forall k: nat | k < j ensures specials[k].text != specials[j].text {
      assert SpecialAt(specials, s, q, k) ==> Precedes(specials, q, j, q, k);
    }
    FirstIdIs(specials, j);
  }

  lemma {:induction false} NothingRespelled(t: Tables, s: cstr, pos: nat)
    requires NoEmptyText(t.specials) && OneTextPerId(t) && pos <= |s|
    ensures RespelledAll(t.specials, Chunks(t.specials, s, pos)) == s[pos..]
    decreases |s| - pos
  {
    hide NextSpecial, OneTextPerId, FirstSpecial, FirstId, RespelledAll;
    RespelledNothing(t.specials);
    if pos < |s| {
      match NextSpecial(t.specials, s, pos)
      case None =>
        RespelledCons(t.specials, Plain(s[pos..]), []);
        assert [Plain(s[pos..])] + [] == [Plain(s[pos..])];
      case Some((q, j)) =>
        var special := t.specials[j];
        var end := q + |special.text|;
        var tail := Chunks(t.specials, s, end);
        ChosenIsFirst(t.specials, s, pos, q, j);
        OwnText(t, j);
        NothingRespelled(t, s, end);
        RespelledCons(t.specials, Token(special), tail);
        RespelledCons(t.specials, Plain(s[pos..q]), [Token(special)] + tail);
        assert s[q..] == s[q..end] + s[end..] && s[pos..] == s[pos..q] + s[q..];
    }
  }

  lemma OwnText(t: Tables, j: nat)
    requires OneTextPerId(t) && j < |t.specials| && FirstId(t.specials, t.specials[j].text) == t.specials[j].id
    ensures Respelled(t.specials, Token(t.specials[j])) == t.specials[j].text
  {
  }

  lemma RespelledNothing(specials: seq<Special>)
    ensures RespelledAll(specials, []) == []
  {
  }

  lemma RespelledCons(specials: seq<Special>, c: Chunk, rest: seq<Chunk>)
    ensures RespelledAll(specials, [c] + rest) == Respelled(specials, c) + RespelledAll(specials, rest)
  {
    assert ([c] + rest)[1..] == rest;
  }

  lemma {:induction false} AsciiIsNormal(s: cstr, i: nat)
    requires Ascii(s) && i <= |s|
    ensures Normalized(s, i) == s[i..]
    decreases |s| - i
  {
    if i < |s| {
      AsciiIsNormal(s, i + 1);
    }
  }

  /** A special text by itself is one chunk: the first table entry with that text. */
  lemma SpecialAlone(specials: seq<Special>, j: nat)
    requires NoEmptyText(specials) && j < |specials|
    ensures var z := specials[j].text;
      && |Chunks(specials, z, 0)| == 1 && Chunks(specials, z, 0)[0] == Token(Special(z, FirstId(specials, z)))
  {
    var z := specials[j].text;
    assert SpecialAt(specials, z, 0, j);
    NextSpecialExists(specials, z, 0, 0, j);
    var (q, k) := NextSpecial(specials, z, 0).value;
    assert OccursAt(z, 0, specials[k].text) && |specials[k].text| == |z|;
    assert specials[k].text == z;
    ChosenIsFirst(specials, z, 0, 0, k);
    assert Chunks(specials, z, |z|) == [];
  }

  /** If a special text would be respelled, that text by itself does not come back. */
  lemma RespelledTextIsLost(t: Tables, j: nat)
    requires Loaded(t) && j < |t.specials| && RoundTrips(t)
    ensures FirstSpecial(t.specials, FirstId(t.specials, t.specials[j].text)) == Some(t.specials[j].text)
  {
    hide Chunks, Loaded, FirstId, TextIds;
    var z := t.specials[j].text;
    assert NoEmptyText(t.specials) && AsciiSpecials(t.specials) && SpelledFirst(t) by { LoadedParts(t); }
    AsciiIsNormal(z, 0);
    assert Normalized(z, 0) == z;
    SpecialAlone(t.specials, j);
    var token := Token(Special(z, FirstId(t.specials, z)));
    assert Chunks(t.specials, z, 0) == [token] + [];
    ChunksIdsCons(t, token, []);
    assert Encoded(t, z) == Some([token.special.id] + []);
    assert [token.special.id] + [] == [token.special.id];
    assert Gives(t, Encoded(t, z), z);
    DecodedOne(t, token.special.id);
    TokenIsSpecial(t.specials, z);
  }

  lemma LoadedParts(t: Tables)
    requires Loaded(t)
    ensures NoEmptyText(t.specials) && AsciiSpecials(t.specials) && SpelledFirst(t)
  {
  }

  lemma {:induction false} TokenIsSpecial(specials: seq<Special>, text: cstr)
    requires exists j :: 0 <= j < |specials| && specials[j].text == text
    ensures FirstSpecial(specials, FirstId(specials, text)).Some?
  {
    if specials[0].text != text {
      var j :| 0 <= j < |specials| && specials[j].text == text;
      assert specials[1..][j - 1].text == text;
      TokenIsSpecial(specials[1..], text);
    }
  }

  /**
   * Decoding undoes encoding, up to normalisation, on every input that can be encoded, if and only if no special
   * text is respelled: the first text registered under the id it is encoded to is the text itself.
   */
  lemma RoundTripsIffOneTextPerId(t: Tables)
    requires Loaded(t)
    ensures RoundTrips(t) <==> OneTextPerId(t)
  {
    hide Chunks, ChunksIds, FirstSpecial, FirstId;
    if OneTextPerId(t) {
      forall s: cstr ensures Gives(t, Encoded(t, s), Normalized(s, 0)) {
        DecodesRespelled(t, s);
        var n := Normalized(s, 0);
        NothingRespelled(t, n, 0);
        assert n[0..] == n;
      }
    }
    if RoundTrips(t) {
      forall j | 0 <= j < |t.specials|
        ensures FirstSpecial(t.specials, FirstId(t.specials, t.specials[j].text)) == Some(t.specials[j].text)
      {
        RespelledTextIsLost(t, j);
      }
    }
  }

  /** Where no special text is respelled, what decoding returns is encoded to the same ids again. */
  lemma EncodingIsStable(t: Tables, s: cstr, ids: seq<nat>)
    requires Loaded(t) && OneTextPerId(t) && Encoded(t, s) == Some(ids)
    ensures Decoded(t, ids) == Some(Normalized(s, 0)) && Encoded(t, Normalized(s, 0)) == Some(ids)
  {
    hide OneTextPerId, Decoded, Chunks, ChunksIds;
    RoundTripsIffOneTextPerId(t);
    assert Gives(t, Encoded(t, s), Normalized(s, 0));
    NormalizeTwice(s);
  }
}
