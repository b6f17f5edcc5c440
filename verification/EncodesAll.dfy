/** Which inputs can be encoded at all: exactly when the tokenizer encodes, and recovers, every input. */
module EncodesAll {
  import opened Wrappers
  import opened CStrings
  import opened ByteLevel
  import opened Bpe
  import opened PreTokenizer
  import opened Specials
  import opened Nfc
  import opened Tokenizer
  import opened TokenizerRoundTrip

  /** Every byte of s has its symbol in the vocabulary. */
  ghost predicate SymbolsKnown(vocab: map<cstr, nat>, s: seq<byte>) {
    forall i :: 0 <= i < |s| ==> Symbol(s[i]) in vocab
  }

  /** Every byte is a special text by itself or has its symbol in the vocabulary. */
  ghost predicate SpellsBytes(t: Tables) {
    forall b: cchar :: IsOneByteSpecial(t.specials, b) || Symbol(b) in t.vocab
  }

  ghost predicate ShortcutSymbolsKnown(t: Tables) {
    forall c: byte :: Shortcut(c).Some? ==> Symbol(c) in t.vocab
  }

  // ---------------------------------------------------------------- plain text

  lemma {:induction false} CharsSucceed(vocab: map<cstr, nat>, a: cstr, j: nat, seg: seq<byte>)
    requires j <= |a| && a[j..] == ByteLevelText(seg) && SymbolsKnown(vocab, seg)
    ensures EncodeChars(vocab, a, j).Some?
    decreases |seg|
  {
    hide ByteLevelText, Symbol;
    ByteLevelEnds(seg);
    if seg != [] {
      assert seg[0..] == seg;
      NextSymbol(a, j, seg, 0);
      SymbolShape(seg[0]);
      assert a[j..CharEnd(a, j)] == Symbol(seg[0]);
      CharsSucceed(vocab, a, CharEnd(a, j), seg[1..]);
    }
  }

  lemma {:induction false} SymbolsSucceed(vocab: map<cstr, nat>, syms: seq<cstr>, segs: seq<seq<byte>>)
    requires Spell(syms, segs) && SymbolsKnown(vocab, Flatten(segs))
    ensures EncodeSymbols(vocab, syms).Some?
  {
    hide ByteLevelText, Symbol;
    if syms != [] {
      var rest := Flatten(segs[1..]);
      assert Flatten(segs) == segs[0] + rest;
      assert SymbolsKnown(vocab, segs[0]) by {
        assert forall i :: 0 <= i < |segs[0]| ==> segs[0][i] == (segs[0] + rest)[i];
      }
      assert SymbolsKnown(vocab, rest) by {
        assert forall i :: 0 <= i < |rest| ==> rest[i] == (segs[0] + rest)[|segs[0]| + i];
      }
      assert syms[0][0..] == syms[0];
      CharsSucceed(vocab, syms[0], 0, segs[0]);
      SymbolsSucceed(vocab, syms[1..], segs[1..]);
    }
  }

  lemma PieceSucceeds(t: Tables, s: cstr)
    requires SymbolsKnown(t.vocab, s)
    ensures PieceIds(t, s).Some?
  {
    hide MergeAll, EncodeSymbols, Symbol, ByteLevelText, Flatten;
    forall i | 0 <= i < |s| ensures Symbols(s)[i] == ByteLevelText(Bytes(s)[i]) {
      OneByteText(s[i]);
    }
    var segs := MergedSpell(t.merges, Symbols(s), Bytes(s));
    FlattenBytes(s);
    SymbolsSucceed(t.vocab, MergeAll(t.merges, Symbols(s)), segs);
  }

  lemma {:induction false} TextSucceeds(t: Tables, s: cstr, p: nat)
    requires SymbolsKnown(t.vocab, s) && p <= |s|
    ensures TextIds(t, s, p).Some?
    decreases |s| - p
  {
    hide PieceIds, PieceEnd, Symbol;
    if p < |s| {
      PieceSucceeds(t, s[p..PieceEnd(s, p)]);
      TextSucceeds(t, s, PieceEnd(s, p));
    }
  }

  // ---------------------------------------------------------------- whole inputs

  /** A plain segment has no byte that is a special text by itself, so its symbols are in the vocabulary. */
  lemma PlainSymbolsKnown(t: Tables, s: cstr, i: nat)
    requires NoEmptyText(t.specials) && SpellsBytes(t)
    requires i < |Chunks(t.specials, s, 0)| && Chunks(t.specials, s, 0)[i].Plain?
    ensures SymbolsKnown(t.vocab, Chunks(t.specials, s, 0)[i].text)
  {
    hide Chunks, ChunkStart, Symbol;
    EveryChunkOk(t.specials, s, 0, i);
    var p, text := ChunkStart(Chunks(t.specials, s, 0), i), Chunks(t.specials, s, 0)[i].text;
    forall k | 0 <= k < |text| ensures Symbol(text[k]) in t.vocab {
      assert s[p + k] == s[p..p + |text|][k];
      forall j: nat | j < |t.specials| ensures t.specials[j].text != [text[k]] {
        assert !SpecialAt(t.specials, s, p + k, j);
      }
    }
  }

  lemma {:induction false} ChunksSucceed(t: Tables, chunks: seq<Chunk>)
    requires forall i :: 0 <= i < |chunks| && chunks[i].Plain? ==> SymbolsKnown(t.vocab, chunks[i].text)
    ensures ChunksIds(t, chunks).Some?
  {
    hide SymbolsKnown, TextIds;
    if chunks != [] {
      if chunks[0].Plain? {
        TextSucceeds(t, chunks[0].text, 0);
      }
      ChunksSucceed(t, chunks[1..]);
    }
  }

  /** An input of one plain byte is encoded only if that byte's symbol is in the vocabulary. */
  lemma OneByteNeedsSymbol(t: Tables, b: cchar)
    requires NoEmptyText(t.specials) && !IsOneByteSpecial(t.specials, b) && Shortcut(b).None?
    requires Encoded(t, [b]).Some?
    ensures Symbol(b) in t.vocab
  {
    hide Symbol, PieceEnd;
    var s: cstr := [b];
    assert Normalized(s, 1) == [];
    assert Normalized(s, 0) == s;
    forall r: nat, k: nat ensures !SpecialAt(t.specials, s, r, k) {
      if k < |t.specials| {
        assert t.specials[k].text != [b];
      }
    }
    NothingIsNext(t.specials, s, 0);
    assert s[0..] == s;
    assert Chunks(t.specials, s, 0) == [Plain(s)] + [];
    ChunksIdsCons(t, Plain(s), []);
    assert TextIds(t, s, 0).Some?;
    assert PieceEnd(s, 0) == 1 && s[0..1] == s;
    var u := Symbol(b);
    assert Symbols(s) == [u];
    NothingToMerge(t.merges, [u]);
    assert EncodeSymbol(t.vocab, u).Some?;
    SymbolShape(b);
    assert u[0..CharEnd(u, 0)] == u;
  }

  /**
   * Every input can be encoded if and only if every byte is a special text or has its symbol in the vocabulary. The
   * symbols of the four shortcut bytes are needed wherever these bytes stand inside a longer piece.
   */
  lemma EncodesEverythingIff(t: Tables)
    requires NoEmptyText(t.specials) && ShortcutSymbolsKnown(t)
    ensures (forall s: cstr :: Encoded(t, s).Some?) <==> SpellsBytes(t)
  {
    hide Symbol, Chunks, Normalized, ChunksIds, Shortcut;
    if SpellsBytes(t) {
      forall s: cstr ensures Encoded(t, s).Some? {
        var n := Normalized(s, 0);
        var chunks := Chunks(t.specials, n, 0);
        forall i | 0 <= i < |chunks| && chunks[i].Plain? ensures SymbolsKnown(t.vocab, chunks[i].text) {
          PlainSymbolsKnown(t, n, i);
        }
        ChunksSucceed(t, chunks);
      }
    }
    if forall s: cstr :: Encoded(t, s).Some? {
      forall b: cchar ensures IsOneByteSpecial(t.specials, b) || Symbol(b) in t.vocab {
        assert Encoded(t, [b]).Some?;
        if Shortcut(b).None? && !IsOneByteSpecial(t.specials, b) {
          OneByteNeedsSymbol(t, b);
        }
      }
    }
  }

  /** The input is encoded, and its ids decode to its normal form. */
  ghost predicate Recovers(t: Tables, s: cstr)
    requires NoEmptyText(t.specials)
  {
    Encoded(t, s).Some? && Decoded(t, Encoded(t, s).value) == Some(Normalized(s, 0))
  }

  /** Every input is encoded and comes back, if and only if no special text is respelled and every byte has a symbol. */
  lemma RecoversEverythingIff(t: Tables)
    requires Loaded(t) && ShortcutSymbolsKnown(t)
    ensures (forall s: cstr :: Recovers(t, s)) <==> OneTextPerId(t) && SpellsBytes(t)
  {
    hide Encoded, Decoded, OneTextPerId, SpellsBytes, ShortcutSymbolsKnown, Normalized;
    RoundTripsIffOneTextPerId(t);
    EncodesEverythingIff(t);
    if OneTextPerId(t) && SpellsBytes(t) {
      forall s: cstr ensures Recovers(t, s) {
        assert Encoded(t, s).Some?;
        assert Gives(t, Encoded(t, s), Normalized(s, 0));
      }
    }
    if forall s: cstr :: Recovers(t, s) {
      forall s: cstr ensures Encoded(t, s).Some? && Gives(t, Encoded(t, s), Normalized(s, 0)) {
        assert Recovers(t, s);
      }
    }
  }
}
