/**
 * What the pieces of the pre-tokenizer look like, branch by branch, in code points: which runs they take, and that
 * they take all of them.
 */
module PieceShapes {
  import opened Wrappers
  import opened CStrings
  import opened ByteLevel
  import opened PreTokenizer

  /** Reading code points from p reaches q, and all of them satisfy f. */
  ghost predicate AllAre(s: cstr, p: nat, q: nat, f: nat -> bool)
    requires p <= q <= |s|
    decreases q - p
  {
    p == q || (f(Utf8Cp(s, p).0) && p + Utf8Cp(s, p).1 <= q && AllAre(s, p + Utf8Cp(s, p).1, q, f))
  }

  /** The code points from p to q satisfy f, and the one at q does not, or the text ends there. */
  ghost predicate Run(s: cstr, p: nat, q: nat, f: nat -> bool) {
    p <= q <= |s| && AllAre(s, p, q, f) && (q < |s| ==> !f(Utf8Cp(s, q).0))
  }

  /** All line ends from p to q, and none at q. */
  ghost predicate LineRun(s: cstr, p: nat, q: nat) {
    && p <= q <= |s|
    && (forall k :: p <= k < q ==> s[k] == 0x0a || s[k] == 0x0d)
    && (q < |s| ==> s[q] != 0x0a && s[q] != 0x0d)
  }

  predicate IsWord(c: nat) { CpLetter(c) || CpMark(c) }

  predicate IsNewline(c: nat) { c == 0x0a || c == 0x0d }

  predicate IsBlank(c: nat) { CpSpace(c) && !IsNewline(c) }

  predicate IsSymbol(c: nat) { !CpSpace(c) && !IsWord(c) && !CpNumber(c) }

  function ClassOf(k: Class): nat -> bool {
    match k
    case Word => IsWord
    case Newline => IsNewline
    case Blank => IsBlank
    case Other => IsSymbol
  }

  // ---------------------------------------------------------------- runs

  lemma {:induction false} RunEndIsRun(s: cstr, p: nat, k: Class)
    requires p <= |s|
    ensures Run(s, p, RunEnd(s, p, k), ClassOf(k))
    decreases |s| - p
  {
    hide Utf8Cp;
    if p < |s| && InClass(k, Cp(s, p)) {
      RunEndIsRun(s, After(s, p), k);
    }
  }

  lemma {:induction false} LineEndsIsRun(s: cstr, p: nat)
    requires p <= |s|
    ensures LineRun(s, p, LineEnds(s, p))
    decreases |s| - p
  {
    if p < |s| && CpNewline(s[p]) {
      LineEndsIsRun(s, p + 1);
    }
  }

  /** One more code point in front of a run. */
  lemma OneMore(s: cstr, p: nat, q: nat, f: nat -> bool)
    requires p < |s| && f(Utf8Cp(s, p).0) && Run(s, p + Utf8Cp(s, p).1, q, f)
    ensures Run(s, p, q, f)
  {
  }

  /** A run has one end. */
  lemma {:induction false} RunIsUnique(s: cstr, p: nat, q: nat, r: nat, f: nat -> bool)
    requires Run(s, p, q, f) && Run(s, p, r, f)
    ensures q == r
    decreases |s| - p
  {
    hide Utf8Cp;
    if p < q && p < r {
      RunIsUnique(s, p + Utf8Cp(s, p).1, q, r, f);
    }
  }

  // ---------------------------------------------------------------- words, numbers, newlines

  /** A piece that starts with a word code point is the whole run of word code points. */
  lemma WordPiece(s: cstr, start: nat)
    requires start < |s| && IsWord(Utf8Cp(s, start).0)
    ensures Run(s, start, PieceEnd(s, start), IsWord)
  {
    hide Utf8Cp;
    RunEndIsRun(s, After(s, start), Word);
    OneMore(s, start, RunEnd(s, After(s, start), Word), IsWord);
  }

  /** A number outside the word classes is a piece by itself. */
  lemma NumberPiece(s: cstr, start: nat)
    requires start < |s| && CpNumber(Utf8Cp(s, start).0) && !IsWord(Utf8Cp(s, start).0)
    ensures PieceEnd(s, start) == start + Utf8Cp(s, start).1
  {
    hide Utf8Cp;
  }

  /** A piece that starts with a newline is the whole run of newlines. */
  lemma NewlinePiece(s: cstr, start: nat)
    requires start < |s| && IsNewline(Utf8Cp(s, start).0)
    ensures Run(s, start, PieceEnd(s, start), IsNewline)
  {
    hide Utf8Cp;
    RunEndIsRun(s, After(s, start), Newline);
    OneMore(s, start, RunEnd(s, After(s, start), Newline), IsNewline);
  }

  // ---------------------------------------------------------------- blanks

  /** A space or tab directly in front of a word takes the whole word, and nothing else. */
  lemma BlankBeforeWord(s: cstr, start: nat)
    requires start < |s| && (Utf8Cp(s, start).0 == 0x20 || Utf8Cp(s, start).0 == 0x09)
    requires var p := start + Utf8Cp(s, start).1; p < |s| && IsWord(Utf8Cp(s, p).0)
    ensures var p := start + Utf8Cp(s, start).1;
      p < PieceEnd(s, start) && Run(s, p, PieceEnd(s, start), IsWord)
  {
    hide Utf8Cp;
    var p := After(s, start);
    RunEndIsRun(s, After(s, p), Word);
    OneMore(s, p, RunEnd(s, After(s, p), Word), IsWord);
  }

  lemma AsciiCp(s: cstr, p: nat)
    requires p < |s| && s[p] < 0x80
    ensures Utf8Cp(s, p) == (s[p] as nat, 1)
  {
  }

  /** A blank in front of a symbol takes the run of symbols and the line ends behind it. */
  lemma BlankBeforeSymbol(s: cstr, start: nat) returns (m: nat)
    requires start < |s| && IsBlank(Utf8Cp(s, start).0)
    requires var p := start + Utf8Cp(s, start).1; p < |s| && IsSymbol(Utf8Cp(s, p).0)
    ensures Run(s, start + Utf8Cp(s, start).1, m, IsSymbol) && LineRun(s, m, PieceEnd(s, start))
  {
    hide Utf8Cp;
    var p := After(s, start);
    m := RunEnd(s, After(s, p), Other);
    RunEndIsRun(s, After(s, p), Other);
    OneMore(s, p, m, IsSymbol);
    LineEndsIsRun(s, m);
  }

  /**
   * Any other blank in front of a word takes the first code point of the word, and goes on with symbols: the code
   * treats that code point like a symbol.
   */
  lemma OtherBlankBeforeWord(s: cstr, start: nat) returns (m: nat)
    requires start < |s| && IsBlank(Utf8Cp(s, start).0) && Utf8Cp(s, start).0 != 0x20 && Utf8Cp(s, start).0 != 0x09
    requires var p := start + Utf8Cp(s, start).1; p < |s| && IsWord(Utf8Cp(s, p).0) && !CpNumber(Utf8Cp(s, p).0)
    requires var p := start + Utf8Cp(s, start).1; !CpSpace(Utf8Cp(s, p).0)
    ensures var p := start + Utf8Cp(s, start).1;
      Run(s, p + Utf8Cp(s, p).1, m, IsSymbol) && LineRun(s, m, PieceEnd(s, start))
  {
    hide Utf8Cp;
    var p := After(s, start);
    m := RunEnd(s, After(s, p), Other);
    RunEndIsRun(s, After(s, p), Other);
    LineEndsIsRun(s, m);
  }

  /** A space in front of one or more spaces up to m, and a word at m. */
  ghost predicate SpacesUpTo(s: cstr, start: nat, m: nat) {
    && start < |s| && Utf8Cp(s, start).0 == 0x20
    && start + Utf8Cp(s, start).1 < m < |s| && (forall k :: start + Utf8Cp(s, start).1 <= k < m ==> s[k] == 0x20)
    && s[m] != 0x20 && IsWord(Utf8Cp(s, m).0)
  }

  /** Two or more spaces in front of a word: the first space is a piece by itself. */
  lemma SpacesBeforeWord(s: cstr, start: nat, m: nat)
    requires SpacesUpTo(s, start, m)
    ensures PieceEnd(s, start) == start + Utf8Cp(s, start).1
  {
    var p := After(s, start);
    AsciiCp(s, p);
    SpacesEndIs(s, p, m);
    hide Utf8Cp;
  }

  lemma {:induction false} SpacesEndIs(s: cstr, p: nat, m: nat)
    requires p <= m <= |s| && (forall k :: p <= k < m ==> s[k] == 0x20) && (m < |s| ==> s[m] != 0x20)
    ensures SpacesEnd(s, p) == m
    decreases m - p
  {
    if p < m {
      SpacesEndIs(s, p + 1, m);
    }
  }

  /** The code points of a run of space bytes are blanks. */
  lemma {:induction false} SpacesThenBlanks(s: cstr, p: nat, q: nat)
    requires p <= |s| && Run(s, SpacesEnd(s, p), q, IsBlank)
    ensures Run(s, p, q, IsBlank)
    decreases |s| - p
  {
    if p < |s| && s[p] == 0x20 {
      AsciiCp(s, p);
      SpacesThenBlanks(s, p + 1, q);
    }
  }

  /**
   * A blank in front of a blank, a newline, a number that a space does not take for a word, or the end: the whole run
   * of blanks; unless it is the case of the spaces in front of a word.
   */
  lemma BlankRun(s: cstr, start: nat)
    requires start < |s| && IsBlank(Utf8Cp(s, start).0) && forall m: nat :: !SpacesUpTo(s, start, m)
    requires var p := start + Utf8Cp(s, start).1;
      p < |s| ==>
        && (CpSpace(Utf8Cp(s, p).0) || CpNumber(Utf8Cp(s, p).0))
        && !((Utf8Cp(s, start).0 == 0x20 || Utf8Cp(s, start).0 == 0x09) && IsWord(Utf8Cp(s, p).0))
    ensures Run(s, start, PieceEnd(s, start), IsBlank)
  {
    hide Utf8Cp;
    var p := After(s, start);
    var q := PieceEnd(s, start);
    if p < |s| && Cp(s, start) == 0x20 && s[p] == 0x20 {
      var m := SpacesEnd(s, p);
      SpacesEndAll(s, p);
      assert !SpacesUpTo(s, start, m);
      RunEndIsRun(s, m, Blank);
      SpacesThenBlanks(s, p, q);
    } else {
      RunEndIsRun(s, p, Blank);
    }
    OneMore(s, start, q, IsBlank);
  }

  lemma {:induction false} SpacesEndAll(s: cstr, p: nat)
    requires p <= |s|
    ensures forall k :: p <= k < SpacesEnd(s, p) ==> s[k] == 0x20
    decreases |s| - p
  {
    if p < |s| && s[p] == 0x20 {
      SpacesEndAll(s, p + 1);
    }
  }

  // ---------------------------------------------------------------- apostrophes

  /** Whether an apostrophe with something behind it starts the piece. */
  predicate IsApostrophe(c: nat) { c == 0x27 || c == 0x2019 }

  /**
   * After an apostrophe one of s t m d S T M D is taken; so are re ve Re Ve and ll; anything else is left. The code
   * looks for the second letter only if the text has room for two more code points as long as the first.
   */
  lemma ApostrophePiece(s: cstr, start: nat)
    requires start < |s| && IsApostrophe(Utf8Cp(s, start).0) && start + Utf8Cp(s, start).1 < |s|
    ensures var p := start + Utf8Cp(s, start).1;
      var d, n := Utf8Cp(s, p).0, Utf8Cp(s, p).1;
      PieceEnd(s, start) ==
        if d in {0x73, 0x74, 0x6d, 0x64, 0x53, 0x54, 0x4d, 0x44} then p + n
        else if p + 2 * n <= |s| && d in {0x72, 0x76, 0x52, 0x56} && Utf8Cp(s, p + n).0 == 0x65
        then p + n + Utf8Cp(s, p + n).1
        else if p + 2 * n <= |s| && d == 0x6c && Utf8Cp(s, p + n).0 == 0x6c then p + n + Utf8Cp(s, p + n).1
        else p
  {
    hide Utf8Cp;
  }

  // ---------------------------------------------------------------- symbols

  /** An apostrophe counts as a symbol only at the end of the text. */
  ghost predicate StartsSymbol(s: cstr, start: nat) {
    && start < |s| && IsSymbol(Utf8Cp(s, start).0)
    && (IsApostrophe(Utf8Cp(s, start).0) ==> start + Utf8Cp(s, start).1 == |s|)
  }

  /** An equals sign in front of a word takes the word and the line ends behind it. */
  lemma EqualsWord(s: cstr, start: nat) returns (m: nat)
    requires start < |s| && Utf8Cp(s, start).0 == 0x3d
    requires var p := start + Utf8Cp(s, start).1; p < |s| && IsWord(Utf8Cp(s, p).0)
    ensures Run(s, start + Utf8Cp(s, start).1, m, IsWord) && LineRun(s, m, PieceEnd(s, start))
  {
    hide Utf8Cp;
    var p := After(s, start);
    m := RunEnd(s, After(s, p), Word);
    RunEndIsRun(s, After(s, p), Word);
    OneMore(s, p, m, IsWord);
    LineEndsIsRun(s, m);
  }

  /** A backslash takes one of n r t b f " \ / u, then symbols and line ends. */
  lemma BackslashPiece(s: cstr, start: nat) returns (m: nat)
    requires start < |s| && Utf8Cp(s, start).0 == 0x5c
    requires var p := start + Utf8Cp(s, start).1;
      p < |s| && Utf8Cp(s, p).0 in {0x6e, 0x72, 0x74, 0x62, 0x66, 0x22, 0x5c, 0x2f, 0x75}
    ensures var p := start + Utf8Cp(s, start).1;
      Run(s, p + Utf8Cp(s, p).1, m, IsSymbol) && LineRun(s, m, PieceEnd(s, start))
  {
    hide Utf8Cp;
    var p := After(s, start);
    m := RunEnd(s, After(s, p), Other);
    RunEndIsRun(s, After(s, p), Other);
    LineEndsIsRun(s, m);
  }

  /** Any other symbol: the whole run of symbols, then the line ends. */
  lemma SymbolPiece(s: cstr, start: nat) returns (m: nat)
    requires StartsSymbol(s, start)
    requires var c, p := Utf8Cp(s, start).0, start + Utf8Cp(s, start).1;
      p < |s| ==>
        && !(c == 0x3d && IsWord(Utf8Cp(s, p).0))
        && !(c == 0x5c && Utf8Cp(s, p).0 in {0x6e, 0x72, 0x74, 0x62, 0x66, 0x22, 0x5c, 0x2f, 0x75})
    ensures Run(s, start, m, IsSymbol) && LineRun(s, m, PieceEnd(s, start))
  {
    hide Utf8Cp;
    var p := After(s, start);
    m := RunEnd(s, p, Other);
    RunEndIsRun(s, p, Other);
    OneMore(s, start, m, IsSymbol);
    LineEndsIsRun(s, m);
  }

  // ---------------------------------------------------------------- an example

  /** Two words of small letters with a space between them, like "hello world", are cut in front of the space. */
  lemma TwoWords(s: cstr, n: nat)
    requires 0 < n && n + 1 < |s| && s[n] == 0x20
    requires forall k :: 0 <= k < |s| && k != n ==> 0x61 <= s[k] <= 0x7a
    ensures Pieces(s, 0) == [s[..n], s[n..]]
  {
    hide Utf8Cp, PieceEnd, Pieces, Run, CpLetter;
    AsciiRun(s, 0, n);
    AsciiRun(s, n + 1, |s|);
    LetterIsWord(s, 0);
    LetterIsWord(s, n + 1);
    AsciiCp(s, n);
    WordPiece(s, 0);
    BlankBeforeWord(s, n);
    RunIsUnique(s, 0, n, PieceEnd(s, 0), IsWord);
    RunIsUnique(s, n + 1, |s|, PieceEnd(s, n), IsWord);
    NextPiece(s, 0);
    NextPiece(s, n);
    NextPiece(s, |s|);
    assert s[n..|s|] == s[n..] && s[0..n] == s[..n];
  }

  lemma LetterIsWord(s: cstr, p: nat)
    requires p < |s| && 0x61 <= s[p] <= 0x7a
    ensures IsWord(Utf8Cp(s, p).0)
  {
    AsciiCp(s, p);
  }

  lemma NextPiece(s: cstr, p: nat)
    requires p <= |s|
    ensures Pieces(s, p) == if p == |s| then [] else [s[p..PieceEnd(s, p)]] + Pieces(s, PieceEnd(s, p))
  {
  }

  /** A run of ASCII letters up to a blank or the end. */
  lemma {:induction false} AsciiRun(s: cstr, p: nat, q: nat)
    requires p <= q <= |s| && (forall k :: p <= k < q ==> 0x61 <= s[k] <= 0x7a) && (q < |s| ==> s[q] == 0x20)
    ensures Run(s, p, q, IsWord)
    decreases q - p
  {
    if p < q {
      AsciiCp(s, p);
      AsciiRun(s, p + 1, q);
      OneMore(s, p, q, IsWord);
    } else if q < |s| {
      AsciiCp(s, q);
    }
  }

  // ---------------------------------------------------------------- the classes

  /** The first and last letters of each range, and their neighbours. */
  lemma LetterEdges()
    ensures forall c: nat ::
      CpLetter(c) <==>
        || 0x41 <= c <= 0x5a || 0x61 <= c <= 0x7a || 0xc0 <= c <= 0x2ff || 0x370 <= c <= 0x1fff
        || 0x3040 <= c <= 0xabff || 0xac00 <= c <= 0xd7af
  {
  }

  /** Marks, numbers and spaces, one by one at the edges of their ranges. */
  lemma OtherEdges()
    ensures CpMark(0x300) && CpMark(0x36f) && !CpMark(0x2ff) && !CpMark(0x370) && CpMark(0x1ab0) && CpMark(0x1aff)
    ensures !CpMark(0x1aaf) && !CpMark(0x1b00) && CpMark(0x1dc0) && CpMark(0x1dff) && !CpMark(0x1dbf) && !CpMark(0x1e00)
    ensures CpMark(0xfe20) && CpMark(0xfe2f) && !CpMark(0xfe1f) && !CpMark(0xfe30)
    ensures CpNumber(0x30) && CpNumber(0x39) && !CpNumber(0x2f) && !CpNumber(0x3a) && CpNumber(0x660) && CpNumber(0x669)
    ensures !CpNumber(0x65f) && !CpNumber(0x66a) && CpNumber(0x6f0) && CpNumber(0x6f9) && !CpNumber(0x6ef)
    ensures !CpNumber(0x6fa)
    ensures CpSpace(0x09) && CpSpace(0x0a) && CpSpace(0x0b) && CpSpace(0x0c) && CpSpace(0x0d) && !CpSpace(0x08)
    ensures !CpSpace(0x0e) && CpSpace(0x20) && CpSpace(0x85) && CpSpace(0xa0) && CpSpace(0x2000) && CpSpace(0x200a)
    ensures !CpSpace(0x1fff) && !CpSpace(0x200b) && !CpSpace(0x3000)
  {
  }
}
