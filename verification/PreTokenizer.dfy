/** The hand-written pre-tokenizer (encode_text in src/q3_tokenizer.c): where each piece of a plain segment ends. */
module PreTokenizer {
  import opened Wrappers
  import opened CStrings
  import opened ByteLevel

  // ---------------------------------------------------------------- code point classes

  predicate CpLetter(c: nat) {
    || 0x41 <= c <= 0x5a || 0x61 <= c <= 0x7a || 0xc0 <= c <= 0x2ff || 0x370 <= c <= 0x1fff
    || 0x3040 <= c <= 0x9fff || 0xa000 <= c <= 0xabff || 0xac00 <= c <= 0xd7af
  }

  predicate CpMark(c: nat) {
    0x300 <= c <= 0x36f || 0x1ab0 <= c <= 0x1aff || 0x1dc0 <= c <= 0x1dff || 0xfe20 <= c <= 0xfe2f
  }

  predicate CpNumber(c: nat) { 0x30 <= c <= 0x39 || 0x660 <= c <= 0x669 || 0x6f0 <= c <= 0x6f9 }

  predicate CpNewline(c: nat) { c == 0x0a || c == 0x0d }

  predicate CpSpace(c: nat) {
    c == 0x20 || 0x09 <= c <= 0x0d || c == 0x85 || c == 0xa0 || 0x2000 <= c <= 0x200a
  }

  predicate CpWord(c: nat) { CpLetter(c) || CpMark(c) }

  predicate CpBlank(c: nat) { CpSpace(c) && !CpNewline(c) }

  predicate CpSymbol(c: nat) { !CpSpace(c) && !CpWord(c) && !CpNumber(c) }

  /** The classes of the scanning loops. */
  datatype Class = Word | Newline | Blank | Other

  predicate InClass(k: Class, c: nat) {
    match k
    case Word => CpWord(c)
    case Newline => CpNewline(c)
    case Blank => CpBlank(c)
    case Other => CpSymbol(c)
  }

  const APOSTROPHE: nat := 0x27
  const RIGHT_QUOTE: nat := 0x2019
  const BACKSLASH: nat := 0x5c
  const EQUALS: nat := 0x3d
  const SP: nat := 0x20
  const TAB: nat := 0x09

  // ---------------------------------------------------------------- scans

  function Cp(s: cstr, p: nat): nat
    requires p < |s|
  {
    Utf8Cp(s, p).0
  }

  function After(s: cstr, p: nat): (q: nat)
    requires p < |s|
    ensures p < q <= |s|
  {
    p + Utf8Cp(s, p).1
  }

  /** The end of the run of code points of one class that starts at p. */
  function RunEnd(s: cstr, p: nat, k: Class): (q: nat)
    requires p <= |s|
    ensures p <= q <= |s|
    decreases |s| - p
  {
    if p < |s| && InClass(k, Cp(s, p)) then RunEnd(s, After(s, p), k) else p
  }

  /** The end of the run of bytes \n and \r that starts at p. */
  function LineEnds(s: cstr, p: nat): (q: nat)
    requires p <= |s|
    ensures p <= q <= |s|
    decreases |s| - p
  {
    if p < |s| && CpNewline(s[p]) then LineEnds(s, p + 1) else p
  }

  /** The end of the run of space bytes that starts at p. */
  function SpacesEnd(s: cstr, p: nat): (q: nat)
    requires p <= |s|
    ensures p <= q <= |s| && (q < |s| ==> s[q] != SPACE) && (q == p || s[p] == SPACE)
    decreases |s| - p
  {
    if p < |s| && s[p] == SPACE then SpacesEnd(s, p + 1) else p
  }

  /** A word follows at q, so the space in front of it is left to it. */
  predicate WordAt(s: cstr, q: nat) { q < |s| && CpWord(Cp(s, q)) }

  // ---------------------------------------------------------------- one piece

  predicate OneLetterSuffix(d: nat) { d in {0x73, 0x74, 0x6d, 0x64, 0x53, 0x54, 0x4d, 0x44} }

  /** r, v, R or V and then e; l and then l. */
  predicate TwoLetterSuffix(d: nat, e: nat) {
    (d in {0x72, 0x76, 0x52, 0x56} && e == 0x65) || (d == 0x6c && e == 0x6c)
  }

  /** After an apostrophe: a contraction suffix, or nothing more. */
  function ContractionEnd(s: cstr, q: nat): (r: nat)
    requires q < |s|
    ensures q <= r <= |s|
  {
    var d, dl := Cp(s, q), Utf8Cp(s, q).1;
    if OneLetterSuffix(d) then q + dl
    else if q + 2 * dl <= |s| then
      if TwoLetterSuffix(d, Cp(s, q + dl)) then After(s, q + dl) else q
    else q
  }

  /**
   * A run of blanks; but if two or more spaces stand in front of a word, the first space alone. Each further space is
   * then a piece by itself in the same way, up to the last one, which goes with the word.
   */
  function BlankEnd(s: cstr, start: nat): (r: nat)
    requires start < |s|
    ensures start < r <= |s|
  {
    var p := After(s, start);
    if Cp(s, start) == SP && p < |s| && s[p] == SPACE then
      if WordAt(s, SpacesEnd(s, p)) then p else RunEnd(s, SpacesEnd(s, p), Blank)
    else RunEnd(s, p, Blank)
  }

  function SpacePieceEnd(s: cstr, start: nat): (r: nat)
    requires start < |s| && After(s, start) < |s|
    ensures start < r <= |s|
  {
    var c, p := Cp(s, start), After(s, start);
    var d := Cp(s, p);
    if (c == SP || c == TAB) && CpWord(d) then RunEnd(s, After(s, p), Word)
    else if !CpSpace(d) && !CpNumber(d) then LineEnds(s, RunEnd(s, After(s, p), Other))
    else BlankEnd(s, start)
  }

  predicate EscapeLetter(d: nat) { d in {0x6e, 0x72, 0x74, 0x62, 0x66, 0x22, 0x5c, 0x2f, 0x75} }

  function SymbolPieceEnd(s: cstr, start: nat): (r: nat)
    requires start < |s|
    ensures start < r <= |s|
  {
    var c, p := Cp(s, start), After(s, start);
    if c == EQUALS && WordAt(s, p) then LineEnds(s, RunEnd(s, After(s, p), Word))
    else
      var q := if c == BACKSLASH && p < |s| && EscapeLetter(Cp(s, p)) then After(s, p) else p;
      LineEnds(s, RunEnd(s, q, Other))
  }

  /** The end of the piece that starts at `start`. */
  function PieceEnd(s: cstr, start: nat): (r: nat)
    requires start < |s|
    ensures start < r <= |s|
  {
    var c, p := Cp(s, start), After(s, start);
    if (c == APOSTROPHE || c == RIGHT_QUOTE) && p < |s| then ContractionEnd(s, p)
    else if CpWord(c) then RunEnd(s, p, Word)
    else if CpNumber(c) then p
    else if CpNewline(c) then RunEnd(s, p, Newline)
    else if CpSpace(c) && p < |s| then SpacePieceEnd(s, start)
    else if CpSpace(c) then RunEnd(s, p, Blank)
    else SymbolPieceEnd(s, start)
  }

  // ---------------------------------------------------------------- the cursor code

  method ScanRun(s: cstr, start: nat, k: Class) returns (p: nat)
    requires start <= |s|
    ensures p == RunEnd(s, start, k)
  {
    p := start;
    while p < |s|
      invariant p <= |s| && RunEnd(s, start, k) == RunEnd(s, p, k)
    {
      var (d, z) := Utf8Cp(s, p);
      if !InClass(k, d) {
        break;
      }
      p := p + z;
    }
  }

  method ScanLineEnds(s: cstr, start: nat) returns (p: nat)
    requires start <= |s|
    ensures p == LineEnds(s, start)
  {
    p := start;
    while p < |s| && (s[p] == 0x0a || s[p] == 0x0d)
      invariant p <= |s| && LineEnds(s, start) == LineEnds(s, p)
    {
      p := p + 1;
    }
  }

  method ScanContraction(s: cstr, q: nat) returns (p: nat)
    requires q < |s|
    ensures p == ContractionEnd(s, q)
  {
    var (d, dl) := Utf8Cp(s, q);
    p := q;
    if d == 0x73 || d == 0x74 || d == 0x6d || d == 0x64 || d == 0x53 || d == 0x54 || d == 0x4d || d == 0x44 {
      p := q + dl;
    } else if q + 2 * dl <= |s| {
      var (e, el) := Utf8Cp(s, q + dl);
      if (d == 0x72 || d == 0x76 || d == 0x52 || d == 0x56) && e == 0x65 {
        p := q + dl + el;
      } else if d == 0x6c && e == 0x6c {
        p := q + dl + el;
      }
    }
  }

  /** The loop over space bytes with its look-ahead, then the loop over the other blanks. */
  method ScanBlanks(s: cstr, start: nat) returns (p: nat)
    requires start < |s|
    ensures p == BlankEnd(s, start)
  {
    var c := Cp(s, start);
    p := After(s, start);
    ghost var first := p;
    var preserveNextSpace := false;
    if c == SP {
      while p < |s| && s[p] == SPACE
        invariant first <= p <= |s| && !preserveNextSpace
        invariant p == first || (s[first] == SPACE && p == SpacesEnd(s, first) && !WordAt(s, p))
      {
        var w := p + 1;
        while w < |s| && s[w] == SPACE
          invariant p < w <= |s| && SpacesEnd(s, p) == SpacesEnd(s, w)
        {
          w := w + 1;
        }
        if w < |s| {
          var (after, z) := Utf8Cp(s, w);
          if CpWord(after) {
            preserveNextSpace := true;
            break;
          }
        }
        p := w;
      }
    }
    if !preserveNextSpace {
      p := ScanRun(s, p, Blank);
    }
  }

  method ScanSpacePiece(s: cstr, start: nat) returns (p: nat)
    requires start < |s| && After(s, start) < |s|
    ensures p == SpacePieceEnd(s, start)
  {
    var c := Cp(s, start);
    p := After(s, start);
    var (d, z) := Utf8Cp(s, p);
    if (c == SP || c == TAB) && CpWord(d) {
      p := ScanRun(s, p + z, Word);
    } else if !CpSpace(d) && !CpNumber(d) {
      p := ScanRun(s, p + z, Other);
      p := ScanLineEnds(s, p);
    } else {
      p := ScanBlanks(s, start);
    }
  }

  method ScanSymbolPiece(s: cstr, start: nat) returns (p: nat)
    requires start < |s|
    ensures p == SymbolPieceEnd(s, start)
  {
    var c := Cp(s, start);
    p := After(s, start);
    var groupedEquals := false;
    if c == BACKSLASH && p < |s| {
      var (d, z) := Utf8Cp(s, p);
      if EscapeLetter(d) {
        p := p + z;
      }
    }
    if c == EQUALS && p < |s| {
      var (d, z) := Utf8Cp(s, p);
      if CpWord(d) {
        groupedEquals := true;
        p := ScanRun(s, p + z, Word);
      }
    }
    if !groupedEquals {
      p := ScanRun(s, p, Other);
    }
    p := ScanLineEnds(s, p);
  }

  /** One round of encode_text. */
  method ScanPiece(s: cstr, start: nat) returns (p: nat)
    requires start < |s|
    ensures p == PieceEnd(s, start)
  {
    var (c, l) := Utf8Cp(s, start);
    p := start + l;
    if (c == APOSTROPHE || c == RIGHT_QUOTE) && p < |s| {
      p := ScanContraction(s, p);
    } else if CpWord(c) {
      p := ScanRun(s, p, Word);
    } else if CpNumber(c) {
    } else if CpNewline(c) {
      p := ScanRun(s, p, Newline);
    } else if CpSpace(c) && p < |s| {
      p := ScanSpacePiece(s, start);
    } else if CpSpace(c) {
      p := ScanRun(s, p, Blank);
    } else {
      p := ScanSymbolPiece(s, start);
    }
  }

  // ---------------------------------------------------------------- all pieces

  /** The pieces of s from position p on. */
  function Pieces(s: cstr, p: nat): seq<cstr>
    requires p <= |s|
    decreases |s| - p
  {
    if p == |s| then [] else [s[p..PieceEnd(s, p)]] + Pieces(s, PieceEnd(s, p))
  }

  /** The pieces are not empty and together are the segment. */
  lemma {:induction false} PiecesCutSegment(s: cstr, p: nat)
    requires p <= |s|
    ensures Flatten(Pieces(s, p)) == s[p..]
    ensures forall i :: 0 <= i < |Pieces(s, p)| ==> Pieces(s, p)[i] != []
    decreases |s| - p
  {
    if p < |s| {
      var q := PieceEnd(s, p);
      PiecesCutSegment(s, q);
      FlattenCons(s[p..q], Pieces(s, q));
      assert s[p..] == s[p..q] + s[q..];
    }
  }

  // ---------------------------------------------------------------- digits stand alone

  /** The numbers that reach the number branch: the letter class swallows the Arabic-Indic digits before it. */
  predicate CpDigit(c: nat) { 0x30 <= c <= 0x39 }

  lemma DigitsAreNumbersOutsideWords(c: nat)
    ensures CpDigit(c) <==> CpNumber(c) && !CpWord(c)
  {
  }

  /** So two Arabic-Indic digits make one piece, where two ASCII digits make two. */
  lemma ArabicDigitsAreGrouped()
    ensures var s: cstr := [0xd9, 0xa0, 0xd9, 0xa1];
      CpNumber(Cp(s, 0)) && CpNumber(Cp(s, 2)) && PieceEnd(s, 0) == 4
  {
    var s: cstr := [0xd9, 0xa0, 0xd9, 0xa1];
    assert Utf8Cp(s, 0) == (0x660, 2) && Utf8Cp(s, 2) == (0x661, 2);
    assert RunEnd(s, 4, Word) == 4;
    assert RunEnd(s, 2, Word) == RunEnd(s, 4, Word);
  }

  /** Reading code points from p reaches `end` and meets no digit on the way. */
  ghost predicate NoDigit(s: cstr, p: nat, end: nat)
    requires p <= end <= |s|
    decreases end - p
  {
    p == end || (!CpDigit(Cp(s, p)) && After(s, p) <= end && NoDigit(s, After(s, p), end))
  }

  lemma {:induction false} NoDigitJoin(s: cstr, p: nat, q: nat, end: nat)
    requires p <= q <= end <= |s| && NoDigit(s, p, q) && NoDigit(s, q, end)
    ensures NoDigit(s, p, end)
    decreases q - p
  {
    if p < q {
      NoDigitJoin(s, After(s, p), q, end);
    }
  }

  lemma {:induction false} RunHasNoDigit(s: cstr, p: nat, k: Class)
    requires p <= |s|
    ensures NoDigit(s, p, RunEnd(s, p, k))
    decreases |s| - p
  {
    if p < |s| && InClass(k, Cp(s, p)) {
      RunHasNoDigit(s, After(s, p), k);
    }
  }

  lemma {:induction false} LineEndsHaveNoDigit(s: cstr, p: nat)
    requires p <= |s|
    ensures NoDigit(s, p, LineEnds(s, p))
    decreases |s| - p
  {
    if p < |s| && CpNewline(s[p]) {
      assert Utf8Cp(s, p) == (s[p] as nat, 1);
      LineEndsHaveNoDigit(s, p + 1);
    }
  }

  lemma {:induction false} SpacesHaveNoDigit(s: cstr, p: nat)
    requires p <= |s|
    ensures NoDigit(s, p, SpacesEnd(s, p))
    decreases |s| - p
  {
    if p < |s| && s[p] == SPACE {
      assert Utf8Cp(s, p) == (0x20, 1);
      SpacesHaveNoDigit(s, p + 1);
    }
  }

  lemma OneStep(s: cstr, p: nat)
    requires p < |s| && !CpDigit(Cp(s, p))
    ensures NoDigit(s, p, After(s, p))
  {
    assert NoDigit(s, After(s, p), After(s, p));
  }

  lemma RunAndLineEnds(s: cstr, p: nat, q: nat, k: Class)
    requires p <= q <= |s| && NoDigit(s, p, q)
    ensures NoDigit(s, p, LineEnds(s, RunEnd(s, q, k)))
  {
    var r := RunEnd(s, q, k);
    RunHasNoDigit(s, q, k);
    LineEndsHaveNoDigit(s, r);
    NoDigitJoin(s, p, q, r);
    NoDigitJoin(s, p, r, LineEnds(s, r));
  }

  lemma SpacePieceHasNoDigit(s: cstr, start: nat)
    requires start < |s| && After(s, start) < |s| && CpSpace(Cp(s, start))
    ensures NoDigit(s, start, SpacePieceEnd(s, start))
  {
    hide NoDigit, RunEnd, LineEnds;
    var c, p := Cp(s, start), After(s, start);
    var d := Cp(s, p);
    OneStep(s, start);
    if !CpDigit(d) {
      OneStep(s, p);
      NoDigitJoin(s, start, p, After(s, p));
    }
    if (c == SP || c == TAB) && CpWord(d) {
      RunHasNoDigit(s, After(s, p), Word);
      NoDigitJoin(s, start, After(s, p), RunEnd(s, After(s, p), Word));
    } else if !CpSpace(d) && !CpNumber(d) {
      RunAndLineEnds(s, start, After(s, p), Other);
    } else {
      var q := SpacesEnd(s, p);
      SpacesHaveNoDigit(s, p);
      NoDigitJoin(s, start, p, q);
      RunHasNoDigit(s, q, Blank);
      NoDigitJoin(s, start, q, RunEnd(s, q, Blank));
      RunHasNoDigit(s, p, Blank);
      NoDigitJoin(s, start, p, RunEnd(s, p, Blank));
    }
  }

  lemma ContractionHasNoDigit(s: cstr, start: nat)
    requires start < |s| && After(s, start) < |s| && !CpDigit(Cp(s, start))
    ensures NoDigit(s, start, ContractionEnd(s, After(s, start)))
  {
    hide NoDigit;
    var q := After(s, start);
    OneStep(s, start);
    if !CpDigit(Cp(s, q)) {
      OneStep(s, q);
      NoDigitJoin(s, start, q, After(s, q));
      if After(s, q) < |s| && !CpDigit(Cp(s, After(s, q))) {
        OneStep(s, After(s, q));
        NoDigitJoin(s, start, After(s, q), After(s, After(s, q)));
      }
    }
  }

  lemma SymbolPieceHasNoDigit(s: cstr, start: nat)
    requires start < |s| && !CpDigit(Cp(s, start))
    ensures NoDigit(s, start, SymbolPieceEnd(s, start))
  {
    hide NoDigit, RunEnd, LineEnds;
    var c, p := Cp(s, start), After(s, start);
    OneStep(s, start);
    if p < |s| && !CpDigit(Cp(s, p)) {
      OneStep(s, p);
      NoDigitJoin(s, start, p, After(s, p));
    }
    if c == EQUALS && WordAt(s, p) {
      RunAndLineEnds(s, start, After(s, p), Word);
    } else {
      var q := if c == BACKSLASH && p < |s| && EscapeLetter(Cp(s, p)) then After(s, p) else p;
      RunAndLineEnds(s, start, q, Other);
    }
  }

  /** A digit is a piece by itself, and no other piece has one inside. */
  lemma DigitsStandAlone(s: cstr, start: nat)
    requires start < |s|
    ensures if CpDigit(Cp(s, start)) then PieceEnd(s, start) == After(s, start)
            else NoDigit(s, start, PieceEnd(s, start))
  {
    hide NoDigit, RunEnd, LineEnds;
    var c, p := Cp(s, start), After(s, start);
    if !CpDigit(c) {
      OneStep(s, start);
      if (c == APOSTROPHE || c == RIGHT_QUOTE) && p < |s| {
        ContractionHasNoDigit(s, start);
      } else if CpSpace(c) && !CpNewline(c) && p < |s| {
        SpacePieceHasNoDigit(s, start);
      } else if CpWord(c) || CpSpace(c) {
        var k := if CpWord(c) then Word else if CpNewline(c) then Newline else Blank;
        RunHasNoDigit(s, p, k);
        NoDigitJoin(s, start, p, RunEnd(s, p, k));
      } else {
        SymbolPieceHasNoDigit(s, start);
      }
    }
  }
}
