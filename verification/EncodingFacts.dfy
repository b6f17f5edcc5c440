/** The steps of encoding in plain terms: the byte map, the accents, the order of merging, and the ids of a piece. */
module EncodingFacts {
  import opened Wrappers
  import opened CStrings
  import opened ByteLevel
  import opened Bpe
  import opened PreTokenizer
  import opened Specials
  import opened Nfc
  import opened Tokenizer
  import opened TokenizerRoundTrip

  // ---------------------------------------------------------------- the byte map

  /** Printable bytes are their own code point; the other 68 take the code points from 0x100 on, in order. */
  lemma CodePointTable(b: byte)
    ensures CodePoint(b)
      == if b < 33 then 0x100 + b else if b < 127 then b else if b < 161 then 0x121 + (b - 127)
         else if b == 173 then 0x143 else b
  {
    SkippedOnOtherRun(0, if b < 33 then b else 33);
    if 127 <= b {
      SkippedOnKeptRun(33, 127);
      SkippedOnOtherRun(127, if b < 161 then b else 161);
    }
    if b == 173 {
      SkippedOnKeptRun(161, 173);
    }
  }

  // ---------------------------------------------------------------- accents

  /** The composed letters are the ten vowels with an acute accent, by code point. */
  lemma AcuteLetters(c: cchar)
    ensures Acute(c).Some? <==> c in {0x61, 0x65, 0x69, 0x6f, 0x75, 0x41, 0x45, 0x49, 0x4f, 0x55}
    ensures c in {0x61, 0x65, 0x69, 0x6f, 0x75, 0x41, 0x45, 0x49, 0x4f, 0x55} ==>
      Utf8Cp([0xc3, Acute(c).value], 0).0
        == if c == 0x61 then 0xe1 else if c == 0x65 then 0xe9 else if c == 0x69 then 0xed else if c == 0x6f then 0xf3
           else if c == 0x75 then 0xfa else if c == 0x41 then 0xc1 else if c == 0x45 then 0xc9
           else if c == 0x49 then 0xcd else if c == 0x4f then 0xd3 else 0xda
  {
  }

  /** Wherever such a letter and the combining accent stand in a text, the composed letter takes their place. */
  lemma {:induction false} AccentComposes(a: cstr, c: cchar, rest: cstr, i: nat)
    requires Acute(c).Some? && i <= |a|
    ensures Normalized(a + ([c, 0xcc, 0x81] + rest), i)
      == Normalized(a, i) + ([0xc3, Acute(c).value] + Normalized(rest, 0))
    decreases |a| - i
  {
    hide Acute;
    var s := a + ([c, 0xcc, 0x81] + rest);
    assert s[|a|] == c && s[|a| + 1] == 0xcc && s[|a| + 2] == 0x81;
    if i == |a| {
      NormalizedSuffix(s, rest, |a| + 3, 0);
      assert s[|a| + 3..] == rest;
      assert [] + ([0xc3, Acute(c).value] + Normalized(rest, 0)) == [0xc3, Acute(c).value] + Normalized(rest, 0);
    } else {
      LetterIsNoAccent(c);
      assert Composes(s, i) <==> Composes(a, i);
      var n := if Composes(a, i) then 3 else 1;
      AccentComposes(a, c, rest, i + n);
      var front: cstr := if n == 3 then [0xc3, Acute(a[i]).value] else [a[i]];
      Assoc(front, Normalized(a, i + n), [0xc3, Acute(c).value] + Normalized(rest, 0));
    }
  }

  lemma LetterIsNoAccent(c: cchar)
    requires Acute(c).Some?
    ensures c != 0xcc && c != 0x81
  {
  }

  lemma {:induction false} NormalizedSuffix(s: cstr, rest: cstr, n: nat, i: nat)
    requires n + |rest| == |s| && s[n..] == rest && i <= |rest|
    ensures Normalized(s, n + i) == Normalized(rest, i)
    decreases |rest| - i
  {
    hide Acute;
    if i < |rest| {
      assert forall k :: 0 <= k < |rest| ==> s[n + k] == s[n..][k];
      assert Composes(s, n + i) <==> Composes(rest, i);
      NormalizedSuffix(s, rest, n, if Composes(rest, i) then i + 3 else i + 1);
    }
  }

  // ---------------------------------------------------------------- the order of merging

  /** Rule r is written for the adjacent symbols k and k + 1. */
  predicate Applies(merges: seq<cstr>, syms: seq<cstr>, r: nat, k: nat)
    requires r < |merges| && k + 1 < |syms|
  {
    merges[r] == syms[k] + [0x20] + syms[k + 1]
  }

  /**
   * If r is the first rule that applies anywhere, and i the first place where it does, then merging begins with joining
   * the symbols at i.
   */
  lemma MergesFirstRule(merges: seq<cstr>, syms: seq<cstr>, r: nat, i: nat)
    requires r < |merges| && i + 1 < |syms| && merges[r] == syms[i] + [0x20] + syms[i + 1]
    requires forall e: nat, k: nat :: e < r && k + 1 < |syms| ==> !Applies(merges, syms, e, k)
    requires forall k: nat :: k < i ==> !Applies(merges, syms, r, k)
    ensures MergeAll(merges, syms) == MergeAll(merges, syms[..i] + [syms[i] + syms[i + 1]] + syms[i + 2..])
  {
    hide MergeAll;
    forall k: nat | k + 1 < |syms| && PairRank(merges, syms, k).Some?
      ensures PairRank(merges, syms, i) == Some(r)
           && r <= PairRank(merges, syms, k).value && (r == PairRank(merges, syms, k).value ==> i <= k)
    {
      RankIs(merges, syms, r, i);
      var e := PairRank(merges, syms, k).value;
      assert Applies(merges, syms, e, k);
    }
    RankIs(merges, syms, r, i);
    MergeAllStep(merges, syms, i);
  }

  lemma RankIs(merges: seq<cstr>, syms: seq<cstr>, r: nat, i: nat)
    requires r < |merges| && i + 1 < |syms| && merges[r] == syms[i] + [0x20] + syms[i + 1]
    requires forall e: nat :: e < r ==> !Applies(merges, syms, e, i)
    ensures PairRank(merges, syms, i) == Some(r)
  {
    var x := PairText(syms[i], syms[i + 1]);
    forall n | r < n <= |merges| ensures merges[r] in merges[0..n] {
      assert merges[0..n][r] == merges[r];
    }
    assert merges[0..] == merges[0..|merges|];
    var e := IndexFrom(merges, x, 0).value;
    assert e < r ==> Applies(merges, syms, e, i);
  }

  /** Where no rule applies, nothing is merged. */
  lemma NoRuleNoMerge(merges: seq<cstr>, syms: seq<cstr>)
    requires forall e: nat, k: nat :: e < |merges| && k + 1 < |syms| ==> !Applies(merges, syms, e, k)
    ensures MergeAll(merges, syms) == syms
  {
    forall k: nat | k + 1 < |syms| ensures PairRank(merges, syms, k).None? {
      if PairRank(merges, syms, k).Some? {
        assert Applies(merges, syms, PairRank(merges, syms, k).value, k);
      }
    }
    MergeAllDone(merges, syms);
  }

  // ---------------------------------------------------------------- the ids of a piece

  /** A comma, an exclamation mark, a full stop and a newline by themselves have the ids 11, 0, 13 and 198. */
  lemma ShortcutIds(t: Tables)
    ensures PieceIds(t, [0x2c]) == Some([11]) && PieceIds(t, [0x21]) == Some([0])
    ensures PieceIds(t, [0x2e]) == Some([13]) && PieceIds(t, [0x0a]) == Some([198])
  {
  }

  ghost predicate IsShortcut(s: cstr) { |s| == 1 && s[0] in {0x2c, 0x21, 0x2e, 0x0a} }

  /** Any other piece is merged first; if all merged symbols are in the vocabulary, its ids are theirs, one by one. */
  lemma PieceIdsOfMerged(t: Tables, s: cstr) returns (ids: seq<nat>)
    requires !IsShortcut(s)
    requires forall i :: 0 <= i < |MergeAll(t.merges, Symbols(s))| ==> MergeAll(t.merges, Symbols(s))[i] in t.vocab
    ensures PieceIds(t, s) == Some(ids) && |ids| == |MergeAll(t.merges, Symbols(s))|
    ensures forall i :: 0 <= i < |ids| ==> ids[i] == t.vocab[MergeAll(t.merges, Symbols(s))[i]]
  {
    hide MergeAll, EncodeSymbols;
    ids := SymbolIds(t.vocab, MergeAll(t.merges, Symbols(s)));
  }

  lemma {:induction false} SymbolIds(vocab: map<cstr, nat>, syms: seq<cstr>) returns (ids: seq<nat>)
    requires forall i :: 0 <= i < |syms| ==> syms[i] in vocab
    ensures EncodeSymbols(vocab, syms) == Some(ids) && |ids| == |syms|
    ensures forall i :: 0 <= i < |ids| ==> ids[i] == vocab[syms[i]]
  {
    if syms == [] {
      ids := [];
    } else {
      var rest := SymbolIds(vocab, syms[1..]);
      ids := [vocab[syms[0]]] + rest;
    }
  }

  /**
   * A merged symbol that is not in the vocabulary is encoded byte by byte: by the symbols of its bytes, if all of these
   * are in the vocabulary; otherwise encoding fails.
   */
  lemma SymbolFallback(vocab: map<cstr, nat>, seg: seq<byte>)
    requires ByteLevelText(seg) !in vocab
    ensures EncodeSymbol(vocab, ByteLevelText(seg)).Some? <==> forall i :: 0 <= i < |seg| ==> Symbol(seg[i]) in vocab
    ensures EncodeSymbol(vocab, ByteLevelText(seg)).Some? ==>
      var ids := EncodeSymbol(vocab, ByteLevelText(seg)).value;
      |ids| == |seg| && forall i :: 0 <= i < |seg| ==> ids[i] == vocab[Symbol(seg[i])]
  {
    hide EncodeChars, ByteLevelText, Symbol;
    var a := ByteLevelText(seg);
    assert a[0..] == a;
    CharIds(vocab, a, 0, seg);
  }

  lemma {:induction false} CharIds(vocab: map<cstr, nat>, a: cstr, j: nat, seg: seq<byte>)
    requires j <= |a| && a[j..] == ByteLevelText(seg)
    ensures EncodeChars(vocab, a, j).Some? <==> forall i :: 0 <= i < |seg| ==> Symbol(seg[i]) in vocab
    ensures EncodeChars(vocab, a, j).Some? ==>
      var ids := EncodeChars(vocab, a, j).value;
      |ids| == |seg| && forall i :: 0 <= i < |seg| ==> ids[i] == vocab[Symbol(seg[i])]
    decreases |seg|
  {
    hide ByteLevelText, Symbol;
    ByteLevelEnds(seg);
    if seg != [] {
      assert seg[0..] == seg;
      NextSymbol(a, j, seg, 0);
      SymbolShape(seg[0]);
      assert a[j..CharEnd(a, j)] == Symbol(seg[0]);
      CharIds(vocab, a, CharEnd(a, j), seg[1..]);
      assert forall i :: 0 < i < |seg| ==> seg[i] == seg[1..][i - 1];
    }
  }

  /** The ids of a plain segment are those of its pieces, one after the other. */
  lemma {:induction false} TextIdsOfPieces(t: Tables, s: cstr, p: nat)
    requires p < |s|
    ensures var pieces := Pieces(s, p);
      pieces != [] && s[p..p + |pieces[0]|] == pieces[0] && pieces[1..] == Pieces(s, p + |pieces[0]|)
      && TextIds(t, s, p) == Both(PieceIds(t, pieces[0]), TextIds(t, s, p + |pieces[0]|))
  {
    hide PieceIds, PieceEnd;
  }

  // ---------------------------------------------------------------- decoding any ids

  /** An id decodes to the text of the first special token with it, else to the bytes its spelling stands for. */
  lemma OneTokenDecodes(t: Tables, id: nat)
    ensures TokenBytes(t, id).Some? <==>
      (exists j :: 0 <= j < |t.specials| && t.specials[j].id == id)
      || (id < |t.spellings| && DecodeFrom(t.spellings[id], 0).Some?)
    ensures (forall j :: 0 <= j < |t.specials| ==> t.specials[j].id != id) && id < |t.spellings| ==>
      TokenBytes(t, id) == DecodeFrom(t.spellings[id], 0)
    ensures forall j | 0 <= j < |t.specials| && t.specials[j].id == id ::
      (forall i :: 0 <= i < j ==> t.specials[i].id != id) ==> TokenBytes(t, id) == Some(t.specials[j].text)
  {
    forall j | 0 <= j < |t.specials| && t.specials[j].id == id && forall i :: 0 <= i < j ==> t.specials[i].id != id
      ensures FirstSpecial(t.specials, id) == Some(t.specials[j].text)
    {
      FirstWithId(t.specials, id, j);
    }
  }

  lemma {:induction false} FirstWithId(specials: seq<Special>, id: nat, j: nat)
    requires j < |specials| && specials[j].id == id && forall i :: 0 <= i < j ==> specials[i].id != id
    ensures FirstSpecial(specials, id) == Some(specials[j].text)
  {
    if j > 0 {
      assert specials[1..][j - 1] == specials[j];
      FirstWithId(specials[1..], id, j - 1);
    }
  }

  /** Decoding succeeds if and only if every id can be decoded. */
  lemma {:induction false} DecodesIffAll(t: Tables, ids: seq<nat>)
    ensures Decoded(t, ids).Some? <==> forall i :: 0 <= i < |ids| ==> TokenBytes(t, ids[i]).Some?
  {
    hide TokenBytes;
    if ids != [] {
      DecodesIffAll(t, ids[1..]);
      assert forall i :: 0 < i < |ids| ==> ids[i] == ids[1..][i - 1];
    }
  }

  /** A spelling stands for bytes if and only if each of its code points is that of a byte. */
  lemma {:induction false} SpellingStandsFor(x: cstr, p: nat)
    requires p < |x|
    ensures (forall b: byte :: CodePoint(b) != Utf8Cp(x, p).0) ==> DecodeFrom(x, p) == None
    ensures forall b: byte :: CodePoint(b) == Utf8Cp(x, p).0 ==>
      DecodeFrom(x, p) == Before([b], DecodeFrom(x, p + Utf8Cp(x, p).1))
  {
    hide Utf8Cp, CodePoint;
    forall b: byte | CodePoint(b) == Utf8Cp(x, p).0 ensures ByteOf(Utf8Cp(x, p).0) == Some(b) {
      ByteOfCodePoint(b);
    }
  }
}
