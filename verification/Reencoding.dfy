/**
 * Encoding what decoding returned. A special text that is not the first of its id comes back as that first text, and
 * the re-spelled input may be cut differently: here is when the ids stay the same all the same.
 */
module Reencoding {
  import opened Wrappers
  import opened CStrings
  import opened ByteLevel
  import opened PreTokenizer
  import opened Specials
  import opened Nfc
  import opened Tokenizer
  import opened TokenizerRoundTrip

  // ---------------------------------------------------------------- conditions on the table

  /** The text an entry's text is decoded to, after it was encoded. */
  function DecodedText(specials: seq<Special>, j: nat): cstr
    requires j < |specials|
  {
    Respelled(specials, Token(Special(specials[j].text, FirstId(specials, specials[j].text))))
  }

  /** The first entry with text z has this id. */
  ghost predicate RecognisedAs(specials: seq<Special>, z: cstr, id: nat) {
    exists k :: FirstWithText(specials, z, k) && specials[k].id == id
  }

  ghost predicate FirstWithText(specials: seq<Special>, z: cstr, k: int) {
    0 <= k < |specials| && specials[k].text == z && forall m :: 0 <= m < k ==> specials[m].text != z
  }

  /** Every decoded text is encoded to the id it was decoded from. */
  ghost predicate KeepsIds(specials: seq<Special>) {
    forall j :: 0 <= j < |specials| ==>
      RecognisedAs(specials, DecodedText(specials, j), FirstId(specials, specials[j].text))
  }

  predicate TakesAcute(z: cstr) { z != [] && Acute(z[|z| - 1]).Some? }

  /** No decoded text ends in a letter that takes an accent, unless the text it stands for does. */
  ghost predicate KeepsEnds(specials: seq<Special>) {
    forall j :: 0 <= j < |specials| ==> TakesAcute(DecodedText(specials, j)) ==> TakesAcute(specials[j].text)
  }

  /** The two agree as far as both go. */
  ghost predicate Agree(x: cstr, y: cstr) { forall k :: 0 <= k < |x| && k < |y| ==> x[k] == y[k] }

  /** No special text can run into a decoded text. */
  ghost predicate NoOverlap(specials: seq<Special>) {
    forall i, j, d :: 0 <= i < |specials| && 0 <= j < |specials| && 0 <= d < |specials[i].text|
        && Agree(specials[i].text[d..], DecodedText(specials, j))
      ==> d == 0 && specials[i].text == DecodedText(specials, j)
  }

  // ---------------------------------------------------------------- the cut of a suffix

  lemma OccursInSuffix(s: cstr, m: nat, q: nat, z: cstr)
    requires m <= |s|
    ensures OccursAt(s[m..], q, z) <==> OccursAt(s, m + q, z)
  {
    if m + q + |z| <= |s| {
      assert s[m..][q..q + |z|] == s[m + q..m + q + |z|];
    }
  }

  lemma ChosenInSuffix(specials: seq<Special>, s: cstr, m: nat, pos: nat, q: nat, j: nat)
    requires m <= |s|
    ensures Chosen(specials, s[m..], pos, q, j) <==> Chosen(specials, s, m + pos, m + q, j)
  {
    hide OccursAt;
    forall r: nat, k: nat ensures SpecialAt(specials, s[m..], r, k) <==> SpecialAt(specials, s, m + r, k) {
      if k < |specials| {
        OccursInSuffix(s, m, r, specials[k].text);
      }
    }
    if Chosen(specials, s[m..], pos, q, j) {
      forall r: nat, k: nat | m + pos <= r && SpecialAt(specials, s, r, k) ensures Precedes(specials, m + q, j, r, k) {
        assert SpecialAt(specials, s[m..], r - m, k);
      }
    }
    if Chosen(specials, s, m + pos, m + q, j) {
      forall r: nat, k: nat | pos <= r && SpecialAt(specials, s[m..], r, k) ensures Precedes(specials, q, j, r, k) {
        assert SpecialAt(specials, s, m + r, k);
      }
    }
  }

  lemma NextInSuffix(specials: seq<Special>, s: cstr, m: nat, pos: nat)
    requires m <= |s|
    ensures NextSpecial(specials, s, m + pos)
      == match NextSpecial(specials, s[m..], pos) case None => None case Some((q, j)) => Some((m + q, j))
  {
    hide Chosen;
    match NextSpecial(specials, s[m..], pos)
    case Some((q, j)) =>
      ChosenInSuffix(specials, s, m, pos, q, j);
      ChosenIsNext(specials, s, m + pos, m + q, j);
    case None =>
      if NextSpecial(specials, s, m + pos).Some? {
        var (q, j) := NextSpecial(specials, s, m + pos).value;
        ChosenIsBehind(specials, s, m + pos, q, j);
        ChosenInSuffix(specials, s, m, pos, q - m, j);
      }
  }

  lemma ChosenIsBehind(specials: seq<Special>, s: cstr, pos: nat, q: nat, j: nat)
    requires Chosen(specials, s, pos, q, j)
    ensures pos <= q && j < |specials| && q + |specials[j].text| <= |s|
  {
  }

  /** The chunks from m on are those of the suffix by itself. */
  lemma {:induction false} SuffixChunks(specials: seq<Special>, s: cstr, m: nat, pos: nat)
    requires NoEmptyText(specials) && m + pos <= |s|
    ensures Chunks(specials, s, m + pos) == Chunks(specials, s[m..], pos)
    decreases |s| - m - pos
  {
    hide NextSpecial;
    if m + pos < |s| {
      NextInSuffix(specials, s, m, pos);
      match NextSpecial(specials, s[m..], pos)
      case None =>
        assert s[m + pos..] == s[m..][pos..];
      case Some((q, j)) =>
        SuffixChunks(specials, s, m, q + |specials[j].text|);
        assert s[m + pos..m + q] == s[m..][pos..q];
    }
  }

  // ---------------------------------------------------------------- the cut of the respelled input

  /** The chunk as it is found again. */
  function Rechunked(specials: seq<Special>, c: Chunk): Chunk {
    match c
    case Plain(text) => c
    case Token(special) => Token(Special(Respelled(specials, c), special.id))
  }

  function RechunkedAll(specials: seq<Special>, chunks: seq<Chunk>): seq<Chunk> {
    if chunks == [] then [] else [Rechunked(specials, chunks[0])] + RechunkedAll(specials, chunks[1..])
  }

  lemma RechunkedCons(specials: seq<Special>, c: Chunk, rest: seq<Chunk>)
    ensures RechunkedAll(specials, [c] + rest) == [Rechunked(specials, c)] + RechunkedAll(specials, rest)
  {
    assert ([c] + rest)[1..] == rest;
  }

  lemma {:induction false} SameIds(t: Tables, chunks: seq<Chunk>)
    ensures ChunksIds(t, RechunkedAll(t.specials, chunks)) == ChunksIds(t, chunks)
  {
    hide TextIds, Respelled;
    if chunks != [] {
      SameIds(t, chunks[1..]);
      ChunksIdsCons(t, Rechunked(t.specials, chunks[0]), RechunkedAll(t.specials, chunks[1..]));
    }
  }

  /** A chosen token is respelled to the decoded text of its entry. */
  lemma ChosenDecodes(specials: seq<Special>, s: cstr, pos: nat, q: nat, j: nat)
    requires Chosen(specials, s, pos, q, j)
    ensures DecodedText(specials, j) == Respelled(specials, Token(specials[j]))
  {
    ChosenIsFirst(specials, s, pos, q, j);
  }

  /** In front of the chosen token nothing occurs, whatever stands behind. */
  lemma NothingEarlier(specials: seq<Special>, s: cstr, pos: nat, q: nat, j: nat, behind: cstr, e: nat, i: nat)
    requires Chosen(specials, s, pos, q, j) && i < |specials| && specials[i].text != []
    requires e + |specials[i].text| <= q - pos
    ensures !SpecialAt(specials, s[pos..q] + behind, e, i)
  {
    var p, y := s[pos..q], specials[i].text;
    assert !SpecialAt(specials, s, pos + e, i) by {
      assert SpecialAt(specials, s, pos + e, i) ==> Precedes(specials, q, j, pos + e, i);
    }
    SliceOfSlice(s, pos, q, e, e + |y|);
    assert (p + behind)[e..e + |y|] == p[e..e + |y|];
  }

  /** No special text occurs in front of the respelled token, and there none but its own. */
  lemma NothingBefore(specials: seq<Special>, s: cstr, pos: nat, q: nat, j: nat, rest: cstr, e: nat, i: nat)
    requires NoOverlap(specials) && Chosen(specials, s, pos, q, j)
    requires SpecialAt(specials, s[pos..q] + (DecodedText(specials, j) + rest), e, i) && specials[i].text != []
    ensures e >= q - pos && (e == q - pos ==> specials[i].text == DecodedText(specials, j))
  {
    hide NoOverlap, DecodedText, Chosen;
    ChosenIsBehind(specials, s, pos, q, j);
    var p, z, y := s[pos..q], DecodedText(specials, j), specials[i].text;
    var r := p + (z + rest);
    if e + |y| <= |p| {
      NothingEarlier(specials, s, pos, q, j, z + rest, e, i);
    } else if e <= |p| {
      var d := |p| - e;
      forall k | 0 <= k < |y[d..]| && k < |z| ensures y[d..][k] == z[k] {
        assert r[e..e + |y|][d + k] == r[|p| + k];
      }
      OverlapIsWhole(specials, i, j, d);
    }
  }

  lemma OverlapIsWhole(specials: seq<Special>, i: nat, j: nat, d: nat)
    requires NoOverlap(specials) && i < |specials| && j < |specials| && d < |specials[i].text|
    requires Agree(specials[i].text[d..], DecodedText(specials, j))
    ensures d == 0 && specials[i].text == DecodedText(specials, j)
  {
  }

  lemma FrontOccurs(z: cstr, rest: cstr)
    ensures OccursAt(z + rest, 0, z)
  {
    assert (z + rest)[0..|z|] == z;
  }

  lemma RespelledChosen(specials: seq<Special>, s: cstr, pos: nat, q: nat, j: nat, rest: cstr, k: nat)
    requires NoEmptyText(specials) && NoOverlap(specials) && Chosen(specials, s, pos, q, j)
    requires FirstWithText(specials, DecodedText(specials, j), k)
    ensures Chosen(specials, s[pos..q] + (DecodedText(specials, j) + rest), 0, q - pos, k)
  {
    hide NoOverlap, DecodedText, OccursAt;
    ChosenIsBehind(specials, s, pos, q, j);
    var p, z := s[pos..q], DecodedText(specials, j);
    var r := p + (z + rest);
    assert OccursAt(r, |p|, z) by {
      assert r[|p|..] == z + rest;
      OccursInSuffix(r, |p|, 0, z);
      FrontOccurs(z, rest);
    }
    forall e: nat, i: nat | SpecialAt(specials, r, e, i) ensures Precedes(specials, |p|, k, e, i) {
      NothingBefore(specials, s, pos, q, j, rest, e, i);
    }
  }

  /** The first special token of the respelled input is the respelled token. */
  lemma RespelledNext(specials: seq<Special>, s: cstr, pos: nat, q: nat, j: nat, rest: cstr) returns (k: nat)
    requires NoEmptyText(specials) && NoOverlap(specials) && KeepsIds(specials) && Chosen(specials, s, pos, q, j)
    ensures var z := DecodedText(specials, j);
      && NextSpecial(specials, s[pos..q] + (z + rest), 0) == Some((q - pos, k))
      && k < |specials| && specials[k] == Special(z, specials[j].id)
  {
    hide NoOverlap, NoEmptyText, DecodedText, Chosen, OccursAt;
    ChosenIsBehind(specials, s, pos, q, j);
    ChosenIsFirst(specials, s, pos, q, j);
    var z := DecodedText(specials, j);
    assert RecognisedAs(specials, z, specials[j].id);
    k :| FirstWithText(specials, z, k) && specials[k].id == specials[j].id;
    RespelledChosen(specials, s, pos, q, j, rest, k);
    ChosenIsNext(specials, s[pos..q] + (z + rest), 0, q - pos, k);
  }

  lemma RespelledPlain(specials: seq<Special>, s: cstr, pos: nat)
    requires NoEmptyText(specials) && pos < |s| && NextSpecial(specials, s, pos).None?
    ensures Chunks(specials, s[pos..], 0) == [Plain(s[pos..])]
  {
    hide NextSpecial;
    NextInSuffix(specials, s, pos, 0);
    assert s[pos..][0..] == s[pos..];
  }

  /** The respelled input is cut at the same places. */
  lemma {:induction false} Rechunks(specials: seq<Special>, s: cstr, pos: nat)
    requires NoEmptyText(specials) && NoOverlap(specials) && KeepsIds(specials) && pos <= |s|
    ensures Chunks(specials, RespelledAll(specials, Chunks(specials, s, pos)), 0)
      == RechunkedAll(specials, Chunks(specials, s, pos))
    decreases |s| - pos
  {
    hide NextSpecial, NoOverlap, KeepsIds, DecodedText, Respelled, RespelledAll, RechunkedAll;
    RespelledNothing(specials);
    assert RechunkedAll(specials, []) == [] by { RechunkedNothing(specials); }
    if pos < |s| {
      match NextSpecial(specials, s, pos)
      case None =>
        RespelledPlain(specials, s, pos);
        RespelledCons(specials, Plain(s[pos..]), []);
        RechunkedCons(specials, Plain(s[pos..]), []);
        assert [Plain(s[pos..])] + [] == [Plain(s[pos..])];
        assert Respelled(specials, Plain(s[pos..])) == s[pos..] by { PlainStays(specials, s[pos..]); }
        assert s[pos..] + [] == s[pos..];
      case Some((q, j)) =>
        RechunksToken(specials, s, pos, q, j);
    }
  }

  lemma RechunkedNothing(specials: seq<Special>)
    ensures RechunkedAll(specials, []) == []
  {
  }

  lemma PlainStays(specials: seq<Special>, text: cstr)
    ensures Respelled(specials, Plain(text)) == text
  {
  }

  lemma {:induction false} RechunksToken(specials: seq<Special>, s: cstr, pos: nat, q: nat, j: nat)
    requires NoEmptyText(specials) && NoOverlap(specials) && KeepsIds(specials) && pos < |s|
    requires NextSpecial(specials, s, pos) == Some((q, j))
    ensures Chunks(specials, RespelledAll(specials, Chunks(specials, s, pos)), 0)
      == RechunkedAll(specials, Chunks(specials, s, pos))
    decreases |s| - pos, 0
  {
    hide NextSpecial, NoOverlap, KeepsIds, DecodedText, Respelled, RespelledAll, RechunkedAll;
    var p, token, tail := s[pos..q], Token(specials[j]), Chunks(specials, s, q + |specials[j].text|);
    var z, rest := DecodedText(specials, j), RespelledAll(specials, tail);
    var r := p + (z + rest);
    ChosenDecodes(specials, s, pos, q, j);
    Rechunks(specials, s, q + |specials[j].text|);
    var k := RespelledNext(specials, s, pos, q, j, rest);
    SuffixChunks(specials, r, |p| + |z|, 0);
    assert r[|p| + |z|..] == rest;
    assert r[0..|p|] == p;
    assert z != [] && r != [];
    RespelledCons(specials, token, tail);
    RechunkedCons(specials, token, tail);
    if pos < q {
      RespelledCons(specials, Plain(p), [token] + tail);
      RechunkedCons(specials, Plain(p), [token] + tail);
      PlainStays(specials, p);
    } else {
      assert r == z + rest;
    }
  }

  // ---------------------------------------------------------------- normal forms

  /** If the respelled input begins with an accent, so does the input. */
  lemma AccentWasThere(specials: seq<Special>, s: cstr, pos: nat)
    requires NoEmptyText(specials) && AsciiSpecials(specials) && KeepsIds(specials) && pos <= |s|
    requires var r := RespelledAll(specials, Chunks(specials, s, pos)); |r| >= 2 && r[0] == 0xcc && r[1] == 0x81
    ensures pos + 1 < |s| && s[pos] == 0xcc && s[pos + 1] == 0x81
  {
    hide NextSpecial, KeepsIds, DecodedText, Respelled, RespelledAll;
    RespelledNothing(specials);
    match NextSpecial(specials, s, pos)
    case None =>
      RespelledCons(specials, Plain(s[pos..]), []);
      assert [Plain(s[pos..])] + [] == [Plain(s[pos..])];
      PlainStays(specials, s[pos..]);
    case Some((q, j)) =>
      var p, token, tail := s[pos..q], Token(specials[j]), Chunks(specials, s, q + |specials[j].text|);
      ChosenDecodes(specials, s, pos, q, j);
      DecodedTextIsAscii(specials, j);
      RespelledCons(specials, token, tail);
      RespelledCons(specials, Plain(p), [token] + tail);
      PlainStays(specials, p);
  }

  lemma DecodedTextIsAscii(specials: seq<Special>, j: nat)
    requires NoEmptyText(specials) && AsciiSpecials(specials) && KeepsIds(specials) && j < |specials|
    ensures Ascii(DecodedText(specials, j)) && DecodedText(specials, j) != []
  {
    hide DecodedText;
    assert RecognisedAs(specials, DecodedText(specials, j), FirstId(specials, specials[j].text));
    var k :| FirstWithText(specials, DecodedText(specials, j), k);
  }

  /** Respelling leaves nothing to compose. */
  lemma {:induction false} RespelledIsNormal(specials: seq<Special>, s: cstr, pos: nat)
    requires NoEmptyText(specials) && AsciiSpecials(specials) && KeepsIds(specials) && KeepsEnds(specials)
    requires pos <= |s| && IsNormal(s)
    ensures IsNormal(RespelledAll(specials, Chunks(specials, s, pos)))
    decreases |s| - pos
  {
    hide NextSpecial, KeepsIds, KeepsEnds, AsciiSpecials, DecodedText, Respelled, RespelledAll, IsNormal;
    RespelledNothing(specials);
    if pos < |s| && NextSpecial(specials, s, pos).Some? {
      var (q, j) := NextSpecial(specials, s, pos).value;
      var p, token, end := s[pos..q], Token(specials[j]), q + |specials[j].text|;
      var tail := Chunks(specials, s, end);
      ChosenDecodes(specials, s, pos, q, j);
      RespelledCons(specials, token, tail);
      RespelledCons(specials, Plain(p), [token] + tail);
      PlainStays(specials, p);
      RespelledIsNormal(specials, s, end);
      JoinedIsNormal(specials, s, pos, q, j);
      if p == [] {
        assert p + (DecodedText(specials, j) + RespelledAll(specials, tail))
          == DecodedText(specials, j) + RespelledAll(specials, tail);
      }
    } else if pos < |s| {
      RespelledCons(specials, Plain(s[pos..]), []);
      assert [Plain(s[pos..])] + [] == [Plain(s[pos..])];
      PlainStays(specials, s[pos..]);
      assert s[pos..] + [] == s[pos..];
      PartIsNormal(s, pos, |s|);
      assert s[pos..|s|] == s[pos..];
    } else {
      PartIsNormal(s, pos, |s|);
      assert s[pos..|s|] == s[pos..];
      assert s[pos..] == [];
    }
  }

  /** Normal texts with an ASCII text between them are normal, unless an accent follows a letter that takes it. */
  lemma JoinIsNormal(p: cstr, z: cstr, rest: cstr)
    requires IsNormal(p) && Ascii(z) && z != [] && IsNormal(rest)
    requires TakesAcute(z) ==> !(|rest| >= 2 && rest[0] == 0xcc && rest[1] == 0x81)
    ensures IsNormal(p + (z + rest))
  {
    var r := p + (z + rest);
    var n := |p| + |z|;
    forall i: nat ensures !Composes(r, i) {
      if i + 2 < |p| {
        assert !Composes(p, i);
      } else if i >= n {
        assert !Composes(rest, i - n);
        assert forall d :: i <= d < |r| ==> r[d] == rest[d - n];
      } else if i + 2 < |r| && i == n - 1 {
        assert r[i + 1] == rest[0] && r[i + 2] == rest[1] && r[i] == z[|z| - 1];
      } else if i + 2 < |r| && i + 1 < |p| {
        assert r[i + 2] == z[0];
      } else if i + 2 < |r| {
        assert r[i + 1] == z[i + 1 - |p|];
      }
    }
  }

  lemma JoinedIsNormal(specials: seq<Special>, s: cstr, pos: nat, q: nat, j: nat)
    requires NoEmptyText(specials) && AsciiSpecials(specials) && KeepsIds(specials) && KeepsEnds(specials)
    requires pos < |s| && IsNormal(s) && NextSpecial(specials, s, pos) == Some((q, j))
    requires IsNormal(RespelledAll(specials, Chunks(specials, s, q + |specials[j].text|)))
    ensures IsNormal(s[pos..q]
                     + (DecodedText(specials, j) + RespelledAll(specials, Chunks(specials, s, q + |specials[j].text|))))
  {
    hide NextSpecial, Chosen, KeepsIds, KeepsEnds, DecodedText, RespelledAll, Chunks, IsNormal;
    ChosenIsBehind(specials, s, pos, q, j);
    var end := q + |specials[j].text|;
    var z, rest := DecodedText(specials, j), RespelledAll(specials, Chunks(specials, s, end));
    DecodedTextIsAscii(specials, j);
    PartIsNormal(s, pos, q);
    if TakesAcute(z) && |rest| >= 2 && rest[0] == 0xcc && rest[1] == 0x81 {
      AccentWasThere(specials, s, end);
      EndIsKept(specials, j);
      ChosenOccurs(specials, s, pos, q, j);
      NoAccentBehind(s, end);
    }
    JoinIsNormal(s[pos..q], z, rest);
  }

  lemma ChosenOccurs(specials: seq<Special>, s: cstr, pos: nat, q: nat, j: nat)
    requires Chosen(specials, s, pos, q, j) && specials[j].text != []
    ensures j < |specials| && q + |specials[j].text| <= |s|
    ensures s[q + |specials[j].text| - 1] == specials[j].text[|specials[j].text| - 1]
  {
    var y := specials[j].text;
    assert s[q..q + |y|][|y| - 1] == y[|y| - 1];
  }

  lemma NoAccentBehind(s: cstr, end: nat)
    requires IsNormal(s) && 0 < end && end + 1 < |s| && s[end] == 0xcc && s[end + 1] == 0x81
    ensures Acute(s[end - 1]).None?
  {
    assert !Composes(s, end - 1);
  }

  lemma PartIsNormal(s: cstr, pos: nat, q: nat)
    requires IsNormal(s) && pos <= q <= |s|
    ensures IsNormal(s[pos..q])
  {
    forall i: nat ensures !Composes(s[pos..q], i) {
      assert !Composes(s, pos + i);
    }
  }

  lemma EndIsKept(specials: seq<Special>, j: nat)
    requires KeepsEnds(specials) && j < |specials| && TakesAcute(DecodedText(specials, j))
    ensures TakesAcute(specials[j].text)
  {
  }

  // ---------------------------------------------------------------- stability

  /** Whatever encoding and decoding return, encoding it again gives the same ids. */
  ghost predicate Stable(t: Tables)
    requires NoEmptyText(t.specials)
  {
    forall s: cstr, out: cstr :: Encoded(t, s).Some? && Decoded(t, Encoded(t, s).value) == Some(out) ==>
      Encoded(t, out) == Encoded(t, s)
  }

  /** With aliases: one input. */
  lemma RespelledSameIds(t: Tables, s: cstr)
    requires Loaded(t) && NoOverlap(t.specials) && KeepsIds(t.specials) && KeepsEnds(t.specials)
    ensures Encoded(t, RespelledAll(t.specials, Chunks(t.specials, Normalized(s, 0), 0))) == Encoded(t, s)
  {
    hide NoOverlap, KeepsIds, KeepsEnds, Chunks, ChunksIds, RespelledAll, RechunkedAll, Normalized, IsNormal;
    var n := Normalized(s, 0);
    var r := RespelledAll(t.specials, Chunks(t.specials, n, 0));
    NormalizedIsNormal(s, 0);
    LoadedParts(t);
    RespelledIsNormal(t.specials, n, 0);
    NormalStays(r, 0);
    assert r[0..] == r;
    Rechunks(t.specials, n, 0);
    SameIds(t, Chunks(t.specials, n, 0));
  }

  /** A special text by itself must come back to its own id. */
  lemma StableKeepsIds(t: Tables, j: nat)
    requires Loaded(t) && Stable(t) && j < |t.specials|
    ensures RecognisedAs(t.specials, DecodedText(t.specials, j), FirstId(t.specials, t.specials[j].text))
  {
    hide Chunks, Loaded, FirstId, TextIds, Stable, FirstSpecial;
    LoadedParts(t);
    var y := t.specials[j].text;
    var id := FirstId(t.specials, y);
    TokenIsSpecial(t.specials, y);
    var k := FirstSpecialIsASpecial(t.specials, id);
    var z := DecodedText(t.specials, j);
    assert t.specials[k].text == z;
    AloneEncoded(t, j);
    AloneEncoded(t, k);
    DecodedOne(t, id);
    assert TokenBytes(t, id) == Some(z);
    assert Encoded(t, z) == Encoded(t, y) by { StableOn(t, y, z); }
    assert [FirstId(t.specials, z)][0] == [id][0];
    var first := FirstEntry(t.specials, k);
    FirstIdIs(t.specials, first);
    assert FirstWithText(t.specials, z, first);
  }

  lemma StableOn(t: Tables, s: cstr, out: cstr)
    requires NoEmptyText(t.specials) && Stable(t)
    requires Encoded(t, s).Some? && Decoded(t, Encoded(t, s).value) == Some(out)
    ensures Encoded(t, out) == Encoded(t, s)
  {
  }

  lemma {:induction false} FirstEntry(specials: seq<Special>, j: nat) returns (k: nat)
    requires j < |specials|
    ensures FirstWithText(specials, specials[j].text, k)
    decreases j
  {
    if m: nat :| m < j && specials[m].text == specials[j].text {
      k := FirstEntry(specials, m);
    } else {
      k := j;
    }
  }

  lemma AloneEncoded(t: Tables, j: nat)
    requires NoEmptyText(t.specials) && AsciiSpecials(t.specials) && j < |t.specials|
    ensures Encoded(t, t.specials[j].text) == Some([FirstId(t.specials, t.specials[j].text)])
  {
    hide Chunks, FirstId, TextIds;
    var z := t.specials[j].text;
    AsciiIsNormal(z, 0);
    assert Normalized(z, 0) == z;
    SpecialAlone(t.specials, j);
    var token := Token(Special(z, FirstId(t.specials, z)));
    assert Chunks(t.specials, z, 0) == [token] + [];
    ChunksIdsCons(t, token, []);
    assert [token.special.id] + [] == [token.special.id];
  }

  // ---------------------------------------------------------------- an accent behind a respelled text

  const ACCENT: cstr := [0xcc, 0x81]

  /** The text of entry j with an accent behind it: the text is chosen, and nothing behind it. */
  lemma AccentedNext(specials: seq<Special>, j: nat) returns (k: nat)
    requires NoEmptyText(specials) && AsciiSpecials(specials) && j < |specials|
    ensures var y := specials[j].text; var s := y + ACCENT;
      && NextSpecial(specials, s, 0) == Some((0, k)) && NextSpecial(specials, s, |y|) == None
      && k < |specials| && specials[k] == Special(y, FirstId(specials, y))
  {
    hide FirstId, Precedes, NoEmptyText, AsciiSpecials;
    var y := specials[j].text;
    var s := y + ACCENT;
    assert SpecialAt(specials, s, 0, j) by { assert s[0..|y|] == y; }
    NextSpecialExists(specials, s, 0, 0, j);
    var q;
    q, k := NextSpecial(specials, s, 0).value.0, NextSpecial(specials, s, 0).value.1;
    LeftmostLongest(specials, q, k, j);
    OccurrenceIsAscii(specials, s, |y|, 0, k);
    assert specials[k].text == s[0..|y|] == y;
    ChosenIsFirst(specials, s, 0, 0, k);
    forall r: nat, i: nat | |y| <= r ensures !SpecialAt(specials, s, r, i) {
      AccentIsPlain(specials, y, r, i);
    }
    NothingIsNext(specials, s, |y|);
  }

  lemma AccentIsPlain(specials: seq<Special>, y: cstr, r: nat, i: nat)
    requires NoEmptyText(specials) && AsciiSpecials(specials) && |y| <= r
    ensures !SpecialAt(specials, y + ACCENT, r, i)
  {
    if i < |specials| && r < |y| + 2 {
      var z := specials[i].text;
      assert z[0] < 0x80 <= (y + ACCENT)[r];
      if r + |z| <= |y| + 2 {
        assert (y + ACCENT)[r..r + |z|][0] == (y + ACCENT)[r];
      }
    }
  }

  /** So it is cut into one token and the accent. */
  lemma AccentedChunks(specials: seq<Special>, j: nat)
    requires NoEmptyText(specials) && AsciiSpecials(specials) && j < |specials|
    ensures Chunks(specials, specials[j].text + ACCENT, 0)
      == [Token(Special(specials[j].text, FirstId(specials, specials[j].text))), Plain(ACCENT)]
  {
    hide FirstId, NextSpecial;
    var y := specials[j].text;
    var k := AccentedNext(specials, j);
    assert (y + ACCENT)[|y|..] == ACCENT;
  }

  lemma LeftmostLongest(specials: seq<Special>, q: nat, k: nat, j: nat)
    requires k < |specials| && j < |specials| && Precedes(specials, q, k, 0, j)
    ensures q == 0 && |specials[j].text| <= |specials[k].text|
  {
  }

  /** No special text reaches beyond the ASCII part of s. */
  lemma OccurrenceIsAscii(specials: seq<Special>, s: cstr, n: nat, q: nat, k: nat)
    requires NoEmptyText(specials) && AsciiSpecials(specials) && n < |s| && s[n] >= 0x80
    requires q <= n && SpecialAt(specials, s, q, k)
    ensures q + |specials[k].text| <= n
  {
    var z := specials[k].text;
    forall i | 0 <= i < |z| ensures s[q + i] == z[i] {
      assert s[q..q + |z|][i] == z[i];
    }
    if q + |z| > n {
      assert n == q + (n - q);
    }
  }

  /** The accent joins the last letter, and no part of it is left. */
  lemma {:induction false} AccentIsComposed(z: cstr, i: nat)
    requires Ascii(z) && TakesAcute(z) && i < |z|
    ensures 0xcc !in Normalized(z + ACCENT, i)
    decreases |z| - i
  {
    var s := z + ACCENT;
    if i < |z| - 1 {
      AccentIsComposed(z, i + 1);
    } else {
      assert Composes(s, i) && Normalized(s, i + 3) == [];
    }
  }

  /** Where an input has no first byte of an accent, its respelled form has none. */
  lemma {:induction false} NoAccentRespelled(specials: seq<Special>, s: cstr, pos: nat)
    requires NoEmptyText(specials) && AsciiSpecials(specials) && KeepsIds(specials) && pos <= |s| && 0xcc !in s
    ensures 0xcc !in RespelledAll(specials, Chunks(specials, s, pos))
    decreases |s| - pos
  {
    hide NextSpecial, KeepsIds, AsciiSpecials, DecodedText, Respelled, RespelledAll;
    RespelledNothing(specials);
    if pos < |s| {
      match NextSpecial(specials, s, pos)
      case None =>
        RespelledCons(specials, Plain(s[pos..]), []);
        assert [Plain(s[pos..])] + [] == [Plain(s[pos..])];
        PlainStays(specials, s[pos..]);
      case Some((q, j)) =>
        var p, token, tail := s[pos..q], Token(specials[j]), Chunks(specials, s, q + |specials[j].text|);
        ChosenDecodes(specials, s, pos, q, j);
        DecodedTextIsAscii(specials, j);
        RespelledCons(specials, token, tail);
        RespelledCons(specials, Plain(p), [token] + tail);
        PlainStays(specials, p);
        NoAccentRespelled(specials, s, q + |specials[j].text|);
    }
  }

  /** What a special text with an accent behind it is encoded and decoded to. */
  lemma AccentedDecodes(t: Tables, j: nat)
    requires Loaded(t) && j < |t.specials| && !TakesAcute(t.specials[j].text) && TextIds(t, ACCENT, 0).Some?
    ensures var s := t.specials[j].text + ACCENT;
      Encoded(t, s).Some? && Decoded(t, Encoded(t, s).value) == Some(DecodedText(t.specials, j) + ACCENT)
  {
    hide Loaded, FirstId, TextIds, Decoded, Chunks, RespelledAll;
    LoadedParts(t);
    var y := t.specials[j].text;
    var s := y + ACCENT;
    AccentIsNormal(y);
    NormalStays(s, 0);
    assert s[0..] == s;
    AccentedChunks(t.specials, j);
    var token := Token(Special(y, FirstId(t.specials, y)));
    assert [Plain(ACCENT)] == [Plain(ACCENT)] + [] && [token, Plain(ACCENT)] == [token] + [Plain(ACCENT)];
    ChunksIdsCons(t, Plain(ACCENT), []);
    ChunksIdsCons(t, token, [Plain(ACCENT)]);
    DecodesRespelled(t, s);
    RespelledNothing(t.specials);
    RespelledCons(t.specials, Plain(ACCENT), []);
    RespelledCons(t.specials, token, [Plain(ACCENT)]);
    assert ACCENT + [] == ACCENT;
  }

  lemma AccentIsNormal(y: cstr)
    requires Ascii(y) && y != [] && !TakesAcute(y)
    ensures IsNormal(y + ACCENT)
  {
    var s := y + ACCENT;
    forall i: nat ensures !Composes(s, i) {
      if i + 2 < |s| {
        assert s[i] == y[i];
      }
    }
  }

  /** An accent behind a special text must not join what it is respelled to. */
  lemma StableKeepsEnd(t: Tables, j: nat)
    requires Loaded(t) && Stable(t) && KeepsIds(t.specials) && TextIds(t, ACCENT, 0).Some?
    requires j < |t.specials| && TakesAcute(DecodedText(t.specials, j))
    ensures TakesAcute(t.specials[j].text)
  {
    hide Loaded, Stable, KeepsIds, DecodedText, TextIds, Decoded, Chunks, RespelledAll, Encoded;
    if !TakesAcute(t.specials[j].text) {
      LoadedParts(t);
      var z := DecodedText(t.specials, j);
      var s, out := t.specials[j].text + ACCENT, z + ACCENT;
      AccentedDecodes(t, j);
      StableOn(t, s, out);
      DecodesRespelled(t, out);
      DecodedTextIsAscii(t.specials, j);
      AccentIsComposed(z, 0);
      assert 0xcc in out by { assert out[|z|] == 0xcc; }
      NoAccentRespelled(t.specials, Normalized(out, 0), 0);
    }
  }

  /**
   * For a table in which no special text can run into a decoded one, the ids are stable on every input if and only if
   * each decoded text is encoded to its id, and ends in a letter that takes an accent only where its own text does.
   */
  lemma StableIff(t: Tables)
    requires Loaded(t) && NoOverlap(t.specials) && TextIds(t, ACCENT, 0).Some?
    ensures Stable(t) <==> KeepsIds(t.specials) && KeepsEnds(t.specials)
  {
    hide Loaded, NoOverlap, Encoded, Decoded, TextIds, RespelledAll, Chunks, DecodedText, RecognisedAs;
    LoadedParts(t);
    if Stable(t) {
      forall j | 0 <= j < |t.specials|
        ensures RecognisedAs(t.specials, DecodedText(t.specials, j), FirstId(t.specials, t.specials[j].text))
      {
        StableKeepsIds(t, j);
      }
      forall j | 0 <= j < |t.specials| && TakesAcute(DecodedText(t.specials, j))
        ensures TakesAcute(t.specials[j].text)
      {
        StableKeepsEnd(t, j);
      }
    }
    if KeepsIds(t.specials) && KeepsEnds(t.specials) {
      StableIfKept(t);
    }
  }

  lemma StableIfKept(t: Tables)
    requires Loaded(t) && NoOverlap(t.specials) && KeepsIds(t.specials) && KeepsEnds(t.specials)
    ensures Stable(t)
  {
    hide Loaded, NoOverlap, KeepsIds, KeepsEnds, Encoded, Decoded, RespelledAll, Chunks;
    LoadedParts(t);
    forall s: cstr, out: cstr | Encoded(t, s).Some? && Decoded(t, Encoded(t, s).value) == Some(out)
      ensures Encoded(t, out) == Encoded(t, s)
    {
      DecodesRespelled(t, s);
      RespelledSameIds(t, s);
      assert out == RespelledAll(t.specials, Chunks(t.specials, Normalized(s, 0), 0));
    }
  }

  /** Without respelling there is no further condition, not even on overlaps. */
  lemma StableIfOneTextPerId(t: Tables)
    requires Loaded(t) && OneTextPerId(t)
    ensures Stable(t)
  {
    hide OneTextPerId, Encoded, Decoded;
    forall s: cstr, out: cstr | Encoded(t, s).Some? && Decoded(t, Encoded(t, s).value) == Some(out)
      ensures Encoded(t, out) == Encoded(t, s)
    {
      EncodingIsStable(t, s, Encoded(t, s).value);
      assert out == Normalized(s, 0);
    }
  }

  // ---------------------------------------------------------------- texts in angle brackets

  /** An angle bracket at each end, and none of these inside. */
  predicate Bracketed(z: cstr) {
    && |z| >= 2 && z[0] == 0x3c && z[|z| - 1] == 0x3e
    && forall k :: 0 < k < |z| - 1 ==> z[k] != 0x3c && z[k] != 0x3e
  }

  /** Texts in angle brackets cannot run into each other, and take no accent. */
  lemma BracketedIsEnough(specials: seq<Special>)
    requires (forall j :: 0 <= j < |specials| ==> Bracketed(specials[j].text)) && KeepsIds(specials)
    ensures NoOverlap(specials) && KeepsEnds(specials)
  {
    hide DecodedText, Bracketed, Agree, TakesAcute, RecognisedAs, FirstId;
    forall j | 0 <= j < |specials|
      ensures Bracketed(DecodedText(specials, j)) && !TakesAcute(DecodedText(specials, j))
    {
      var k := EntryOf(specials, DecodedText(specials, j), FirstId(specials, specials[j].text));
      assert Bracketed(specials[k].text);
      BracketedTakesNoAcute(DecodedText(specials, j));
    }
    forall i, j, d | 0 <= i < |specials| && 0 <= j < |specials| && 0 <= d < |specials[i].text|
        && Agree(specials[i].text[d..], DecodedText(specials, j))
      ensures d == 0 && specials[i].text == DecodedText(specials, j)
    {
      BracketedOverlap(specials[i].text, DecodedText(specials, j), d);
    }
  }

  lemma EntryOf(specials: seq<Special>, z: cstr, id: nat) returns (k: nat)
    requires RecognisedAs(specials, z, id)
    ensures k < |specials| && specials[k] == Special(z, id)
  {
    k :| FirstWithText(specials, z, k) && specials[k].id == id;
  }

  lemma BracketedTakesNoAcute(z: cstr)
    requires Bracketed(z)
    ensures !TakesAcute(z)
  {
  }

  lemma BracketedOverlap(y: cstr, z: cstr, d: nat)
    requires Bracketed(y) && Bracketed(z) && d < |y| && Agree(y[d..], z)
    ensures d == 0 && y == z
  {
    assert y[d..][0] == z[0];
    assert y[d..] == y;
  }
}
