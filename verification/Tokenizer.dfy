/** The tokenizer object (src/q3_tokenizer.c): loading the tables, encoding, decoding. */
module Tokenizer {
  import opened Wrappers
  import opened CStrings
  import opened ByteLevel
  import opened Bpe
  import opened PreTokenizer
  import opened Specials
  import opened VocabTable
  import opened Nfc

  /** The tables as values. `vocab` is what lookup answers, `spellings` is id_to_token. */
  datatype Tables = Tables(vocab: map<cstr, nat>, spellings: seq<cstr>, merges: seq<cstr>, specials: seq<Special>)

  // ---------------------------------------------------------------- what encoding computes

  /** The four single bytes that bypass merging: , ! . and newline. */
  function Shortcut(c: byte): Option<nat> {
    match c
    case 0x2c => Some(11)
    case 0x21 => Some(0)
    case 0x2e => Some(13)
    case 0x0a => Some(198)
    case _ => None
  }

  function CharEnd(a: cstr, j: nat): (e: nat)
    requires j < |a|
    ensures j < e <= |a|
  {
    if j + WidthOf(a[j]) <= |a| then j + WidthOf(a[j]) else |a|
  }

  /** The fallback for a symbol that is not in the vocabulary: character by character. */
  function EncodeChars(vocab: map<cstr, nat>, a: cstr, j: nat): Option<seq<nat>>
    requires j <= |a|
    decreases |a| - j
  {
    if j == |a| then Some([])
    else
      var q := a[j..CharEnd(a, j)];
      if q in vocab then Before([vocab[q]], EncodeChars(vocab, a, CharEnd(a, j))) else None
  }

  function EncodeSymbol(vocab: map<cstr, nat>, a: cstr): Option<seq<nat>> {
    if a in vocab then Some([vocab[a]]) else EncodeChars(vocab, a, 0)
  }

  function EncodeSymbols(vocab: map<cstr, nat>, syms: seq<cstr>): Option<seq<nat>> {
    if syms == [] then Some([]) else Both(EncodeSymbol(vocab, syms[0]), EncodeSymbols(vocab, syms[1..]))
  }

  ghost function PieceIds(t: Tables, s: cstr): Option<seq<nat>> {
    if |s| == 1 && Shortcut(s[0]).Some? then Some([Shortcut(s[0]).value])
    else EncodeSymbols(t.vocab, MergeAll(t.merges, Symbols(s)))
  }

  ghost function TextIds(t: Tables, s: cstr, p: nat): Option<seq<nat>>
    requires p <= |s|
    decreases |s| - p
  {
    if p == |s| then Some([]) else Both(PieceIds(t, s[p..PieceEnd(s, p)]), TextIds(t, s, PieceEnd(s, p)))
  }

  ghost function ChunkIds(t: Tables, c: Chunk): Option<seq<nat>> {
    match c
    case Plain(text) => TextIds(t, text, 0)
    case Token(special) => Some([special.id])
  }

  ghost function ChunksIds(t: Tables, chunks: seq<Chunk>): Option<seq<nat>> {
    if chunks == [] then Some([]) else Both(ChunkIds(t, chunks[0]), ChunksIds(t, chunks[1..]))
  }

  /** q3_tokenizer_encode; None when it fails. */
  ghost function Encoded(t: Tables, s: cstr): Option<seq<nat>>
    requires NoEmptyText(t.specials)
  {
    ChunksIds(t, Chunks(t.specials, Normalized(s, 0), 0))
  }

  // ---------------------------------------------------------------- what decoding computes

  /** The text of the first special token with this id. */
  function FirstSpecial(specials: seq<Special>, id: nat): (r: Option<cstr>)
    ensures r.Some? <==> exists j :: 0 <= j < |specials| && specials[j].id == id
  {
    if specials == [] then None
    else if specials[0].id == id then Some(specials[0].text)
    else
      assert FirstSpecial(specials[1..], id).Some? ==>
        exists j :: 0 <= j < |specials| - 1 && specials[1..][j] == specials[j + 1];
      assert forall j :: 0 < j < |specials| ==> specials[j] == specials[1..][j - 1];
      FirstSpecial(specials[1..], id)
  }

  /** token_string */
  function TokenString(t: Tables, id: nat): Option<cstr> {
    match FirstSpecial(t.specials, id)
    case Some(text) => Some(text)
    case None => if id < |t.spellings| then Some(t.spellings[id]) else None
  }

  /** One round of the decoder: a special token's text as it is, any other token byte by byte. */
  ghost function TokenBytes(t: Tables, id: nat): Option<seq<byte>> {
    match FirstSpecial(t.specials, id)
    case Some(text) => Some(text)
    case None => if id < |t.spellings| then DecodeFrom(t.spellings[id], 0) else None
  }

  /** q3_tokenizer_decode; None when it fails. */
  ghost function Decoded(t: Tables, ids: seq<nat>): Option<seq<byte>> {
    if ids == [] then Some([]) else Both(TokenBytes(t, ids[0]), Decoded(t, ids[1..]))
  }

  // ---------------------------------------------------------------- the object

  /** The vocabulary of a token list: the last id wins for a text that occurs more than once. */
  function VocabularyOf(tokens: seq<cstr>): (m: map<cstr, nat>)
    ensures forall s :: s in m <==> s in tokens
    ensures forall s :: s in m ==> m[s] < |tokens| && tokens[m[s]] == s
    ensures forall s, k :: s in m && m[s] < k < |tokens| ==> tokens[k] != s
  {
    if tokens == [] then map[]
    else
      var n := |tokens| - 1;
      assert tokens == tokens[..n] + [tokens[n]];
      VocabularyOf(tokens[..n])[tokens[n] := n]
  }

  class TokenizerObject {
    const table: Vocabulary
    var spellings: seq<cstr>
    var merges: seq<cstr>
    var specials: seq<Special>

    ghost predicate Valid()
      reads this, table, table.slots
    {
      table.Valid() && |merges| <= INT_MAX && NoEmptyText(specials)
    }

    ghost function View(): Tables
      reads this, table
    {
      Tables(table.entries, spellings, merges, specials)
    }

    constructor ()
      ensures Valid() && View() == Tables(map[], [], [], []) && fresh(table) && fresh(table.slots)
    {
      table := new Vocabulary();
      spellings, merges, specials := [], [], [];
    }

    /** The token loop of q3_tokenizer_init_gguf: each id gets its spelling, and the hash its entry. */
    method LoadTokens(tokens: seq<seq<byte>>)
      requires Valid() && View() == Tables(map[], [], [], [])
      modifies this, table, table.slots
      ensures Valid() && merges == [] && specials == []
      ensures spellings == CStringsOf(tokens) && table.entries == VocabularyOf(spellings)
    {
      for i := 0 to |tokens|
        invariant Valid() && |spellings| == i && merges == [] && specials == []
        invariant spellings == CStringsOf(tokens)[..i] && table.entries == VocabularyOf(spellings)
        invariant table.slots == old(table.slots) || fresh(table.slots)
      {
        var copy := CString(tokens[i]);
        ghost var before := spellings;
        spellings := spellings + [copy];
        assert spellings[..i] == before;
        table.Add(copy, i);
      }
    }

    // -------------------------------------------------------------- encoding

    method EncodeCharsOf(a: cstr) returns (r: Option<seq<nat>>)
      requires Valid()
      ensures r == EncodeChars(table.entries, a, 0)
    {
      var ids: seq<nat> := [];
      var j := 0;
      BeforeNothing(EncodeChars(table.entries, a, 0));
      while j < |a|
        invariant j <= |a| && EncodeChars(table.entries, a, 0) == Before(ids, EncodeChars(table.entries, a, j))
      {
        var end := CharEnd(a, j);
        var id := table.Lookup(a[j..end]);
        if id.None? {
          return None;
        }
        BeforeAssoc(ids, [id.value], EncodeChars(table.entries, a, end));
        ids := ids + [id.value];
        j := end;
      }
      assert ids + [] == ids;
      return Some(ids);
    }

    method EncodeOne(a: cstr) returns (r: Option<seq<nat>>)
      requires Valid()
      ensures r == EncodeSymbol(table.entries, a)
    {
      var id := table.Lookup(a);
      if id.Some? {
        return Some([id.value]);
      }
      r := EncodeCharsOf(a);
    }

    /** The last loop of encode_piece. */
    method EncodeAll(a: array<cstr>, c: nat) returns (r: Option<seq<nat>>)
      requires Valid() && c <= a.Length
      ensures r == EncodeSymbols(table.entries, a[..c])
    {
      var ids: seq<nat> := [];
      var i := 0;
      ghost var syms := a[..c];
      BeforeNothing(EncodeSymbols(table.entries, syms));
      assert syms[0..] == syms;
      while i < c
        invariant i <= c && EncodeSymbols(table.entries, syms) == Before(ids, EncodeSymbols(table.entries, syms[i..]))
      {
        assert syms[i..][1..] == syms[i + 1..];
        var one := EncodeOne(a[i]);
        if one.None? {
          return None;
        }
        BeforeAssoc(ids, one.value, EncodeSymbols(table.entries, syms[i + 1..]));
        ids := ids + one.value;
        i := i + 1;
      }
      assert ids + [] == ids;
      return Some(ids);
    }

    method EncodePiece(s: cstr) returns (r: Option<seq<nat>>)
      requires Valid()
      ensures r == PieceIds(View(), s)
    {
      if |s| == 1 && (s[0] == 0x2c || s[0] == 0x21 || s[0] == 0x2e || s[0] == 0x0a) {
        return Some([if s[0] == 0x2c then 11 else if s[0] == 0x21 then 0 else if s[0] == 0x2e then 13 else 198]);
      }
      var u := FillByteMap();
      var x := ToByteLevel(u, s);
      var a, c := SplitSymbols(x, s);
      c := MergeLoop(merges, a, c);
      r := EncodeAll(a, c);
    }

    method EncodeText(s: cstr) returns (r: Option<seq<nat>>)
      requires Valid()
      ensures r == TextIds(View(), s, 0)
    {
      var ids: seq<nat> := [];
      var p := 0;
      BeforeNothing(TextIds(View(), s, 0));
      while p < |s|
        invariant p <= |s| && TextIds(View(), s, 0) == Before(ids, TextIds(View(), s, p))
      {
        var start := p;
        p := ScanPiece(s, start);
        var piece := EncodePiece(s[start..p]);
        if piece.None? {
          return None;
        }
        BeforeAssoc(ids, piece.value, TextIds(View(), s, p));
        ids := ids + piece.value;
      }
      assert ids + [] == ids;
      return Some(ids);
    }

    method EncodeSpecial(s: cstr) returns (r: Option<seq<nat>>)
      requires Valid()
      ensures r == ChunksIds(View(), Chunks(specials, s, 0))
    {
      hide ChunksIds, Chunks, NextSpecial, TextIds, NoSpecialFrom;
      var ids: seq<nat> := [];
      var pos := 0;
      ghost var all := ChunksIds(View(), Chunks(specials, s, 0));
      BeforeNothing(all);
      while pos < |s|
        invariant pos <= |s| && all == Before(ids, ChunksIds(View(), Chunks(specials, s, pos)))
        decreases |s| - pos
      {
        var best := ChooseSpecial(specials, s, pos);
        if best.None? {
          var rest := EncodeText(s[pos..]);
          LastChunk(View(), s, pos, ids, rest);
          return match rest case None => None case Some(xs) => Some(ids + xs);
        }
        var (q, j) := best.value;
        var front: Option<seq<nat>> := Some([]);
        if q > pos {
          front := EncodeText(s[pos..q]);
        }
        NextChunks(View(), s, pos, ids, front);
        if front.None? {
          return None;
        }
        ids := ids + front.value + [specials[j].id];
        pos := q + |specials[j].text|;
      }
      NoChunksLeft(View(), s, ids);
      return Some(ids);
    }

    /** q3_tokenizer_encode */
    method Encode(s: cstr) returns (r: Option<seq<nat>>)
      requires Valid()
      ensures r == Encoded(View(), s)
    {
      var n := NormalizeNfc(s);
      r := EncodeSpecial(n);
    }

    // -------------------------------------------------------------- decoding

    method FindSpecial(id: nat) returns (r: Option<cstr>)
      ensures r == FirstSpecial(specials, id)
    {
      var i := 0;
      assert specials[0..] == specials;
      while i < |specials|
        invariant i <= |specials| && FirstSpecial(specials, id) == FirstSpecial(specials[i..], id)
      {
        if specials[i].id == id {
          return Some(specials[i].text);
        }
        assert specials[i..][1..] == specials[i + 1..];
        i := i + 1;
      }
      return None;
    }

    /** q3_tokenizer_decode */
    method Decode(ids: seq<nat>) returns (r: Option<seq<byte>>)
      ensures r == Decoded(View(), ids)
    {
      var out: seq<byte> := [];
      var i := 0;
      BeforeNothing(Decoded(View(), ids));
      assert ids[0..] == ids;
      while i < |ids|
        invariant i <= |ids| && Decoded(View(), ids) == Before(out, Decoded(View(), ids[i..]))
      {
        assert ids[i..][1..] == ids[i + 1..];
        var special := FindSpecial(ids[i]);
        if special.None? && ids[i] >= |spellings| {
          return None;
        }
        var bytes: seq<byte>;
        if special.Some? {
          bytes := special.value;
        } else {
          var text := DecodeText(spellings[ids[i]]);
          if text.None? {
            return None;
          }
          bytes := text.value;
        }
        BeforeAssoc(out, bytes, Decoded(View(), ids[i + 1..]));
        out := out + bytes;
        i := i + 1;
      }
      assert out + [] == out;
      return Some(out);
    }
  }

  function CStringsOf(tokens: seq<seq<byte>>): (r: seq<cstr>)
    ensures |r| == |tokens| && forall i :: 0 <= i < |tokens| ==> r[i] == CString(tokens[i])
  {
    seq(|tokens|, i requires 0 <= i < |tokens| => CString(tokens[i]))
  }

  // ---------------------------------------------------------------- the loop of encode_special, chunk by chunk

  lemma ChunksIdsCons(t: Tables, c: Chunk, rest: seq<Chunk>)
    ensures ChunksIds(t, [c] + rest) == Both(ChunkIds(t, c), ChunksIds(t, rest))
  {
    assert ([c] + rest)[1..] == rest;
  }

  lemma NoChunksLeft(t: Tables, s: cstr, ids: seq<nat>)
    requires NoEmptyText(t.specials)
    ensures Before(ids, ChunksIds(t, Chunks(t.specials, s, |s|))) == Some(ids)
  {
    assert ids + [] == ids;
  }

  lemma LastChunk(t: Tables, s: cstr, pos: nat, ids: seq<nat>, rest: Option<seq<nat>>)
    requires NoEmptyText(t.specials) && pos < |s| && NextSpecial(t.specials, s, pos).None?
    requires rest == TextIds(t, s[pos..], 0)
    ensures Before(ids, ChunksIds(t, Chunks(t.specials, s, pos)))
      == match rest case None => None case Some(xs) => Some(ids + xs)
  {
    hide TextIds, NextSpecial;
    assert [Plain(s[pos..])] + [] == [Plain(s[pos..])];
    ChunksIdsCons(t, Plain(s[pos..]), []);
    if rest.Some? {
      assert rest.value + [] == rest.value;
    }
  }

  lemma NextChunks(t: Tables, s: cstr, pos: nat, ids: seq<nat>, front: Option<seq<nat>>)
    requires NoEmptyText(t.specials) && pos < |s| && NextSpecial(t.specials, s, pos).Some?
    requires var (q, j) := NextSpecial(t.specials, s, pos).value;
      front == if q > pos then TextIds(t, s[pos..q], 0) else Some([])
    ensures var (q, j) := NextSpecial(t.specials, s, pos).value;
      Before(ids, ChunksIds(t, Chunks(t.specials, s, pos))) == match front
        case None => None
        case Some(xs) => Before(ids + xs + [t.specials[j].id],
                                ChunksIds(t, Chunks(t.specials, s, q + |t.specials[j].text|)))
  {
    hide TextIds, NextSpecial;
    var (q, j) := NextSpecial(t.specials, s, pos).value;
    var tail := Chunks(t.specials, s, q + |t.specials[j].text|);
    var token := Token(t.specials[j]);
    ChunksIdsCons(t, token, tail);
    if q > pos {
      ChunksIdsCons(t, Plain(s[pos..q]), [token] + tail);
    } else {
      BeforeNothing(ChunksIds(t, [token] + tail));
    }
    if front.Some? {
      BeforeAssoc(ids, front.value, ChunksIds(t, [token] + tail));
      BeforeAssoc(ids + front.value, [token.special.id], ChunksIds(t, tail));
    }
  }
}
