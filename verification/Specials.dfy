/** Special tokens in the input (encode_special in src/q3_tokenizer.c): the leftmost occurrence, the longest text. */
module Specials {
  import opened Wrappers
  import opened CStrings

  datatype Special = Special(text: cstr, id: nat)

  predicate OccursAt(s: cstr, q: nat, z: cstr) { q + |z| <= |s| && s[q..q + |z|] == z }

  /** strstr(s + pos, z), as a position in s. */
  function StrStr(s: cstr, pos: nat, z: cstr): (r: Option<nat>)
    requires pos <= |s|
    ensures r.Some? ==>
      pos <= r.value && OccursAt(s, r.value, z) && forall k :: pos <= k < r.value ==> !OccursAt(s, k, z)
    ensures r.None? ==> forall k :: pos <= k ==> !OccursAt(s, k, z)
    decreases |s| - pos
  {
    if OccursAt(s, pos, z) then Some(pos)
    else if pos == |s| then None
    else StrStr(s, pos + 1, z)
  }

  /** Some text of the table occurs at q. */
  ghost predicate SpecialAt(specials: seq<Special>, s: cstr, q: nat, j: int) {
    0 <= j < |specials| && OccursAt(s, q, specials[j].text)
  }

  /** Entry j at position q comes before entry k at position r: further left, or longer, or earlier in the table. */
  predicate Precedes(specials: seq<Special>, q: nat, j: nat, r: nat, k: nat)
    requires j < |specials| && k < |specials|
  {
    || q < r
    || (q == r && |specials[k].text| < |specials[j].text|)
    || (q == r && |specials[k].text| == |specials[j].text| && j <= k)
  }

  /** Entry j at position q is the choice for the input from pos on. */
  ghost predicate Chosen(specials: seq<Special>, s: cstr, pos: nat, q: nat, j: nat) {
    && pos <= q && SpecialAt(specials, s, q, j)
    && forall r: nat, k: nat :: pos <= r && SpecialAt(specials, s, r, k) ==> Precedes(specials, q, j, r, k)
  }

  ghost predicate NoSpecialFrom(specials: seq<Special>, s: cstr, pos: nat) {
    forall r: nat, k: nat :: pos <= r ==> !SpecialAt(specials, s, r, k)
  }

  ghost function NextSpecial(specials: seq<Special>, s: cstr, pos: nat): (r: Option<(nat, nat)>)
    ensures r.Some? ==> Chosen(specials, s, pos, r.value.0, r.value.1)
  {
    if exists q: nat, j: nat :: Chosen(specials, s, pos, q, j) then
      var q: nat, j: nat :| Chosen(specials, s, pos, q, j);
      Some((q, j))
    else None
  }

  lemma ChosenIsNext(specials: seq<Special>, s: cstr, pos: nat, q: nat, j: nat)
    requires Chosen(specials, s, pos, q, j)
    ensures NextSpecial(specials, s, pos) == Some((q, j))
  {
    var (r, k) := NextSpecial(specials, s, pos).value;
    assert Precedes(specials, q, j, r, k) && Precedes(specials, r, k, q, j);
  }

  lemma NothingIsNext(specials: seq<Special>, s: cstr, pos: nat)
    requires NoSpecialFrom(specials, s, pos)
    ensures NextSpecial(specials, s, pos) == None
  {
  }

  /** The best among the first n entries. */
  ghost predicate BestOf(specials: seq<Special>, s: cstr, pos: nat, n: nat, best: Option<(nat, nat)>) {
    match best
    case None => forall r: nat, k: nat :: pos <= r && k < n ==> !SpecialAt(specials, s, r, k)
    case Some((q, j)) =>
      && pos <= q && j < n && SpecialAt(specials, s, q, j)
      && forall r: nat, k: nat :: pos <= r && k < n && SpecialAt(specials, s, r, k) ==> Precedes(specials, q, j, r, k)
  }

  /** One entry of the table is compared with the best so far. */
  lemma BestStep(specials: seq<Special>, s: cstr, pos: nat, n: nat, best: Option<(nat, nat)>, found: Option<nat>)
    requires pos <= |s| && n < |specials| && BestOf(specials, s, pos, n, best)
    requires found == StrStr(s, pos, specials[n].text)
    ensures var better := found.Some? && match best
        case None => true
        case Some((q, j)) => found.value < q || (found.value == q && |specials[n].text| > |specials[j].text|);
      BestOf(specials, s, pos, n + 1, if better then Some((found.value, n)) else best)
  {
    forall r: nat | pos <= r && SpecialAt(specials, s, r, n) ensures found.Some? && found.value <= r {
    }
    if found.Some? {
      assert SpecialAt(specials, s, found.value, n);
    }
  }

  /** The loop over the table. */
  method ChooseSpecial(specials: seq<Special>, s: cstr, pos: nat) returns (best: Option<(nat, nat)>)
    requires pos <= |s|
    ensures best == NextSpecial(specials, s, pos)
    ensures best.None? ==> NoSpecialFrom(specials, s, pos)
  {
    best := None;
    for j := 0 to |specials|
      invariant BestOf(specials, s, pos, j, best)
    {
      var z := specials[j].text;
      var q := StrStr(s, pos, z);
      BestStep(specials, s, pos, j, best, q);
      if q.Some? {
        match best {
          case None =>
            best := Some((q.value, j));
          case Some((at, k)) =>
            if q.value < at || (q.value == at && |z| > |specials[k].text|) {
              best := Some((q.value, j));
            }
        }
      }
    }
    match best {
      case None => NothingIsNext(specials, s, pos);
      case Some((q, j)) => ChosenIsNext(specials, s, pos, q, j);
    }
  }

  /** Whenever some special text occurs from pos on, there is a choice. */
  lemma {:induction false} BestExists(specials: seq<Special>, s: cstr, pos: nat, n: nat)
    returns (best: Option<(nat, nat)>)
    requires pos <= |s| && n <= |specials|
    ensures BestOf(specials, s, pos, n, best)
    decreases n
  {
    if n == 0 {
      best := None;
    } else {
      best := BestExists(specials, s, pos, n - 1);
      var found := StrStr(s, pos, specials[n - 1].text);
      BestStep(specials, s, pos, n - 1, best, found);
      if found.Some? && (best.None? || found.value < best.value.0
          || (found.value == best.value.0 && |specials[n - 1].text| > |specials[best.value.1].text|)) {
        best := Some((found.value, n - 1));
      }
    }
  }

  lemma NextSpecialExists(specials: seq<Special>, s: cstr, pos: nat, r: nat, k: nat)
    requires pos <= r && SpecialAt(specials, s, r, k)
    ensures NextSpecial(specials, s, pos).Some?
    ensures var (q, j) := NextSpecial(specials, s, pos).value; Precedes(specials, q, j, r, k)
  {
    var best := BestExists(specials, s, pos, |specials|);
    assert best.Some?;
    ChosenIsNext(specials, s, pos, best.value.0, best.value.1);
  }

  // ---------------------------------------------------------------- the cut of the input

  datatype Chunk = Plain(text: cstr) | Token(special: Special)

  ghost predicate NoEmptyText(specials: seq<Special>) {
    forall j :: 0 <= j < |specials| ==> specials[j].text != []
  }

  /** The input from pos on, as plain segments and special tokens. */
  ghost function Chunks(specials: seq<Special>, s: cstr, pos: nat): seq<Chunk>
    requires NoEmptyText(specials) && pos <= |s|
    decreases |s| - pos
  {
    if pos == |s| then []
    else
      match NextSpecial(specials, s, pos)
      case None => [Plain(s[pos..])]
      case Some((q, j)) =>
        var rest := [Token(specials[j])] + Chunks(specials, s, q + |specials[j].text|);
        if pos < q then [Plain(s[pos..q])] + rest else rest
  }

  function TextOf(c: Chunk): cstr {
    match c case Plain(text) => text case Token(special) => special.text
  }

  function TextsOf(chunks: seq<Chunk>): (r: seq<cstr>)
    ensures |r| == |chunks| && forall i :: 0 <= i < |chunks| ==> r[i] == TextOf(chunks[i])
  {
    seq(|chunks|, i requires 0 <= i < |chunks| => TextOf(chunks[i]))
  }

  lemma TextsOfCons(c: Chunk, rest: seq<Chunk>)
    ensures Flatten(TextsOf([c] + rest)) == TextOf(c) + Flatten(TextsOf(rest))
  {
    assert TextsOf([c] + rest) == [TextOf(c)] + TextsOf(rest);
    FlattenCons(TextOf(c), TextsOf(rest));
  }

  /** The chunks together are the input. */
  lemma {:induction false} ChunksCutInput(specials: seq<Special>, s: cstr, pos: nat)
    requires NoEmptyText(specials) && pos <= |s|
    ensures Flatten(TextsOf(Chunks(specials, s, pos))) == s[pos..]
    decreases |s| - pos, 1
  {
    hide NextSpecial, Flatten, TextsOf, NoEmptyText;
    NoChunks();
    if pos < |s| {
      match NextSpecial(specials, s, pos)
      case None =>
        TextsOfCons(Plain(s[pos..]), []);
        assert [Plain(s[pos..])] + [] == [Plain(s[pos..])];
      case Some((q, j)) =>
        CutAtToken(specials, s, pos, q, j);
    }
  }

  lemma {:induction false} CutAtToken(specials: seq<Special>, s: cstr, pos: nat, q: nat, j: nat)
    requires NoEmptyText(specials) && pos < |s| && NextSpecial(specials, s, pos) == Some((q, j))
    ensures Flatten(TextsOf(Chunks(specials, s, pos))) == s[pos..]
    decreases |s| - pos, 0
  {
    hide NextSpecial, Flatten, TextsOf;
    var end := q + |specials[j].text|;
    var rest := Chunks(specials, s, end);
    ChunksCutInput(specials, s, end);
    TextsOfCons(Token(specials[j]), rest);
    TextsOfCons(Plain(s[pos..q]), [Token(specials[j])] + rest);
    assert s[q..] == s[q..end] + s[end..] && s[pos..] == s[pos..q] + s[q..];
  }

  lemma NoChunks()
    ensures Flatten(TextsOf([])) == []
  {
  }

  /** Where chunk i begins, counted from the first chunk. */
  function ChunkStart(chunks: seq<Chunk>, i: nat): nat
    requires i < |chunks|
  {
    if i == 0 then 0 else |TextOf(chunks[0])| + ChunkStart(chunks[1..], i - 1)
  }

  /** What a chunk at position p may be: a special token, leftmost and longest, or text in which no special begins. */
  ghost predicate ChunkOk(specials: seq<Special>, s: cstr, p: nat, c: Chunk) {
    && TextOf(c) != [] && OccursAt(s, p, TextOf(c))
    && match c
       case Plain(text) => forall r: nat, k: nat :: p <= r < p + |text| ==> !SpecialAt(specials, s, r, k)
       case Token(special) =>
         special in specials && forall k: nat :: SpecialAt(specials, s, p, k) ==> |specials[k].text| <= |special.text|
  }

  lemma ChosenChunkOk(specials: seq<Special>, s: cstr, pos: nat, q: nat, j: nat)
    requires NoEmptyText(specials) && Chosen(specials, s, pos, q, j)
    ensures ChunkOk(specials, s, q, Token(specials[j]))
    ensures pos < q ==> ChunkOk(specials, s, pos, Plain(s[pos..q]))
  {
    forall k: nat | SpecialAt(specials, s, q, k) ensures |specials[k].text| <= |specials[j].text| {
      assert Precedes(specials, q, j, q, k);
    }
    forall r: nat, k: nat | pos <= r && SpecialAt(specials, s, r, k) ensures q <= r {
      assert Precedes(specials, q, j, r, k);
    }
  }

  lemma RestIsPlain(specials: seq<Special>, s: cstr, pos: nat)
    requires pos < |s| && NextSpecial(specials, s, pos).None?
    ensures ChunkOk(specials, s, pos, Plain(s[pos..]))
  {
    forall r: nat, k: nat | pos <= r ensures !SpecialAt(specials, s, r, k) {
      if SpecialAt(specials, s, r, k) {
        NextSpecialExists(specials, s, pos, r, k);
      }
    }
  }

  /**
   * Every chunk is what it may be: in particular no special text begins inside a plain segment, not even one that
   * ends beyond it.
   */
  lemma {:induction false} EveryChunkOk(specials: seq<Special>, s: cstr, pos: nat, i: nat)
    requires NoEmptyText(specials) && pos <= |s| && i < |Chunks(specials, s, pos)|
    ensures var chunks := Chunks(specials, s, pos); ChunkOk(specials, s, pos + ChunkStart(chunks, i), chunks[i])
    decreases |s| - pos, 1
  {
    hide ChunkOk, NextSpecial, ChunkStart;
    match NextSpecial(specials, s, pos)
    case None =>
      RestIsPlain(specials, s, pos);
      FirstStart(Chunks(specials, s, pos));
    case Some((q, j)) =>
      ChosenChunkOk(specials, s, pos, q, j);
      var rest := [Token(specials[j])] + Chunks(specials, s, q + |specials[j].text|);
      if pos == q {
        FromTokenOk(specials, s, pos, q, j, i);
      } else if i > 0 {
        FromTokenOk(specials, s, pos, q, j, i - 1);
        StartInRest(Plain(s[pos..q]), rest, i);
      } else {
        FirstStart(Chunks(specials, s, pos));
      }
  }

  /** The chunks from the chosen token on. */
  lemma {:induction false} FromTokenOk(specials: seq<Special>, s: cstr, pos: nat, q: nat, j: nat, i: nat)
    requires NoEmptyText(specials) && Chosen(specials, s, pos, q, j)
    requires i <= |Chunks(specials, s, q + |specials[j].text|)|
    ensures var rest := [Token(specials[j])] + Chunks(specials, s, q + |specials[j].text|);
      ChunkOk(specials, s, q + ChunkStart(rest, i), rest[i])
    decreases |s| - pos, 0
  {
    hide ChunkOk, NextSpecial, ChunkStart, Chunks;
    var tail := Chunks(specials, s, q + |specials[j].text|);
    if i == 0 {
      ChosenChunkOk(specials, s, pos, q, j);
      FirstStart([Token(specials[j])] + tail);
    } else {
      EveryChunkOk(specials, s, q + |specials[j].text|, i - 1);
      StartInRest(Token(specials[j]), tail, i);
    }
  }

  lemma FirstStart(chunks: seq<Chunk>)
    requires chunks != []
    ensures ChunkStart(chunks, 0) == 0
  {
  }

  lemma StartInRest(c: Chunk, rest: seq<Chunk>, i: nat)
    requires 0 < i <= |rest|
    ensures ChunkStart([c] + rest, i) == |TextOf(c)| + ChunkStart(rest, i - 1)
  {
    assert ([c] + rest)[1..] == rest;
  }

  // ---------------------------------------------------------------- where the loop would not move on

  ghost predicate IsOneByteSpecial(specials: seq<Special>, b: int) {
    exists j :: 0 <= j < |specials| && specials[j].text == [b]
  }

  /** Where the splitting loop goes from pos: behind the chosen text, or to the end. */
  ghost function NextPos(specials: seq<Special>, s: cstr, pos: nat): nat
    requires pos <= |s|
  {
    match NextSpecial(specials, s, pos) case None => |s| case Some((q, j)) => q + |specials[j].text|
  }

  /** The loop stays at pos, for ever, exactly if some special text is empty and no other begins at pos. */
  lemma StallsIff(specials: seq<Special>, s: cstr, pos: nat)
    requires pos < |s|
    ensures NextPos(specials, s, pos) >= pos
    ensures NextPos(specials, s, pos) == pos <==>
      !NoEmptyText(specials) && forall k: nat :: SpecialAt(specials, s, pos, k) ==> specials[k].text == []
  {
    if !NoEmptyText(specials) {
      var e :| 0 <= e < |specials| && specials[e].text == [];
      assert SpecialAt(specials, s, pos, e);
      NextSpecialExists(specials, s, pos, pos, e);
      var (q, j) := NextSpecial(specials, s, pos).value;
      assert q == pos;
      forall k: nat | SpecialAt(specials, s, pos, k) ensures |specials[k].text| <= |specials[j].text| {
        assert Precedes(specials, q, j, pos, k);
      }
      assert SpecialAt(specials, s, pos, j);
    }
  }

  /** So it ends on every input if and only if no special text is empty, or every single byte is a special text. */
  lemma EndsOnEveryInputIff(specials: seq<Special>)
    ensures (forall s: cstr, pos: nat :: pos < |s| ==> NextPos(specials, s, pos) > pos)
      <==> NoEmptyText(specials) || forall b: cchar :: IsOneByteSpecial(specials, b)
  {
    hide NextPos;
    if NoEmptyText(specials) || forall b: cchar :: IsOneByteSpecial(specials, b) {
      forall s: cstr, pos: nat | pos < |s| ensures NextPos(specials, s, pos) > pos {
        StallsIff(specials, s, pos);
        if !NoEmptyText(specials) {
          assert IsOneByteSpecial(specials, s[pos]);
          var j :| 0 <= j < |specials| && specials[j].text == [s[pos]];
          assert SpecialAt(specials, s, pos, j);
        }
      }
    }
    if !NoEmptyText(specials) && forall s: cstr, pos: nat :: pos < |s| ==> NextPos(specials, s, pos) > pos {
      forall b: cchar ensures IsOneByteSpecial(specials, b) {
        var s: cstr := [b];
        assert NextPos(specials, s, 0) > 0;
        StallsIff(specials, s, 0);
        var k: nat :| SpecialAt(specials, s, 0, k) && specials[k].text != [];
        assert specials[k].text == s[0..1] == [b];
      }
    }
  }
}
