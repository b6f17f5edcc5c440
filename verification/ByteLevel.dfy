/**
 * Byte-level symbols (src/q3_tokenizer.c): every byte has a printable code point, and a string becomes the UTF-8 text
 * of its bytes' code points. Decoding undoes it.
 */
module ByteLevel {
  import opened Wrappers
  import opened CStrings

  // ---------------------------------------------------------------- bytes and code points

  /** Bytes that are their own code point. */
  predicate Kept(b: int) {
    33 <= b <= 126 || 161 <= b <= 172 || 174 <= b <= 255
  }

  /** How many bytes below b are not kept. */
  function Skipped(b: nat): (n: nat)
    ensures n <= b
  {
    if b == 0 then 0 else Skipped(b - 1) + if Kept(b - 1) then 0 else 1
  }

  function CodePoint(b: byte): nat {
    if Kept(b) then b else 0x100 + Skipped(b)
  }

  /** The table of kept bytes. */
  method MarkKept() returns (used: array<bool>)
    ensures fresh(used) && used.Length == 256 && forall j :: 0 <= j < 256 ==> used[j] == Kept(j)
  {
    used := new bool[256](_ => false);
    for i := 33 to 127
      invariant forall j :: 0 <= j < 256 ==> used[j] == (33 <= j < i)
    {
      used[i] := true;
    }
    for i := 161 to 173
      invariant forall j :: 0 <= j < 256 ==> used[j] == (33 <= j <= 126 || 161 <= j < i)
    {
      used[i] := true;
    }
    for i := 174 to 256
      invariant forall j :: 0 <= j < 256 ==> used[j] == (33 <= j <= 126 || 161 <= j <= 172 || 174 <= j < i)
    {
      used[i] := true;
    }
  }

  /** bmap's table of code points, filled in one pass with a running next free code point. */
  method FillByteMap() returns (u: array<nat>)
    ensures fresh(u) && u.Length == 256 && forall b: byte :: u[b] == CodePoint(b)
  {
    var used := MarkKept();
    u := new nat[256](_ => 0);
    var next := 0x100;
    for i := 0 to 256
      invariant next == 0x100 + Skipped(i)
      invariant forall b: byte :: b < i ==> u[b] == CodePoint(b)
      invariant forall j :: 0 <= j < 256 ==> used[j] == Kept(j)
    {
      if used[i] {
        u[i] := i;
      } else {
        // Every candidate from 0x100 on is above the used bytes, so the first one tried is free.
        var taken := true;
        while next < 0x1_0000 && taken
          invariant next == 0x100 + Skipped(i)
          decreases taken
        {
          taken := false;
          for j := 0 to 256
            invariant !taken
          {
            if used[j] && j == next {
              taken := true;
              break;
            }
          }
        }
        u[i] := next;
        next := next + 1;
      }
    }
  }

  lemma {:induction false} SkippedMonotone(a: nat, b: nat)
    requires a <= b
    ensures Skipped(a) <= Skipped(b)
    decreases b
  {
    if a < b {
      SkippedMonotone(a, b - 1);
    }
  }

  lemma {:induction false} SkippedOnKeptRun(a: nat, b: nat)
    requires a <= b && forall j :: a <= j < b ==> Kept(j)
    ensures Skipped(b) == Skipped(a)
    decreases b
  {
    if a < b {
      SkippedOnKeptRun(a, b - 1);
    }
  }

  lemma {:induction false} SkippedOnOtherRun(a: nat, b: nat)
    requires a <= b && forall j :: a <= j < b ==> !Kept(j)
    ensures Skipped(b) == Skipped(a) + (b - a)
    decreases b
  {
    if a < b {
      SkippedOnOtherRun(a, b - 1);
    }
  }

  lemma SkippedTotal()
    ensures Skipped(256) == 68
  {
    SkippedOnOtherRun(0, 33);
    SkippedOnKeptRun(33, 127);
    SkippedOnOtherRun(127, 161);
    SkippedOnKeptRun(161, 173);
    SkippedOnOtherRun(173, 174);
    SkippedOnKeptRun(174, 256);
  }

  /** 68 bytes are not kept, so the code points end at 0x143. */
  lemma CodePointBound(b: byte)
    ensures 33 <= CodePoint(b) < 0x144
  {
    if !Kept(b) {
      SkippedTotal();
      SkippedMonotone(b + 1, 256);
    }
  }

  lemma CodePointInjective(a: byte, b: byte)
    requires CodePoint(a) == CodePoint(b)
    ensures a == b
  {
    if !Kept(a) && !Kept(b) {
      if a < b {
        SkippedMonotone(a + 1, b);
      } else if b < a {
        SkippedMonotone(b + 1, a);
      }
    }
  }

  /** byte_for_codepoint */
  method ByteForCodePoint(cp: nat) returns (r: Option<byte>)
    ensures r == ByteOf(cp)
  {
    if Kept(cp) {
      ByteOfKept(cp);
      return Some(cp);
    }
    if 0x100 <= cp <= 0x1ff {
      var skipped := 0;
      for b := 0 to 256
        invariant skipped == Skipped(b)
        invariant forall a: byte :: a < b ==> CodePoint(a) != cp
      {
        if !Kept(b) {
          if 0x100 + skipped == cp {
            ByteOfCodePoint(b);
            return Some(b);
          }
          skipped := skipped + 1;
        }
      }
      return None;
    }
    forall b: byte ensures CodePoint(b) != cp {
      CodePointBound(b);
    }
    return None;
  }

  /** The byte with this code point. */
  ghost function ByteOf(cp: nat): (r: Option<byte>)
    ensures r.Some? ==> CodePoint(r.value) == cp
    ensures r.None? ==> forall b: byte :: CodePoint(b) != cp
  {
    if exists b: byte :: CodePoint(b) == cp then
      var b: byte :| CodePoint(b) == cp;
      Some(b)
    else None
  }

  lemma ByteOfCodePoint(b: byte)
    ensures ByteOf(CodePoint(b)) == Some(b)
  {
    CodePointInjective(b, ByteOf(CodePoint(b)).value);
  }

  lemma ByteOfKept(cp: nat)
    requires Kept(cp)
    ensures ByteOf(cp) == Some(cp)
  {
    ByteOfCodePoint(cp);
  }

  // ---------------------------------------------------------------- UTF-8

  /** put_utf8 below 0x800, which is as far as byte-level code points go. */
  function PutUtf8(cp: nat): cstr
    requires 0 < cp < 0x800
  {
    if cp < 0x80 then [cp] else [0xc0 + cp / 64, 0x80 + cp % 64]
  }

  /** The bits of c below the mask. */
  function Low(c: int, mask: nat): nat
    requires mask > 0
  {
    c % mask
  }

  predicate Continuation(c: cchar) { 0x80 <= c <= 0xbf }

  /** utf8_cp at position p: the code point and the number of bytes it takes; a malformed byte stands for itself. */
  function Utf8Cp(s: cstr, p: nat): (r: (nat, nat))
    requires p < |s|
    ensures 1 <= r.1 && p + r.1 <= |s|
  {
    var c, n := s[p], |s| - p;
    if c < 0x80 then (c, 1)
    else if 0xc2 <= c <= 0xdf && n >= 2 && Continuation(s[p + 1]) then (Low(c, 32) * 64 + Low(s[p + 1], 64), 2)
    else if 0xe0 <= c <= 0xef && n >= 3 && Continuation(s[p + 1]) && Continuation(s[p + 2]) then
      (Low(c, 16) * 4096 + Low(s[p + 1], 64) * 64 + Low(s[p + 2], 64), 3)
    else if 0xf0 <= c <= 0xf4 && n >= 4 && Continuation(s[p + 1]) && Continuation(s[p + 2])
      && Continuation(s[p + 3]) then
      (Low(c, 8) * 262144 + Low(s[p + 1], 64) * 4096 + Low(s[p + 2], 64) * 64 + Low(s[p + 3], 64), 4)
    else (c, 1)
  }

  // ---------------------------------------------------------------- symbols

  const SPACE: cchar := 0x20

  function Symbol(b: byte): cstr {
    CodePointBound(b);
    PutUtf8(CodePoint(b))
  }

  function Symbols(s: seq<byte>): (r: seq<cstr>)
    ensures |r| == |s| && forall i :: 0 <= i < |s| ==> r[i] == Symbol(s[i])
  {
    seq(|s|, i requires 0 <= i < |s| => Symbol(s[i]))
  }

  /** bytelevel */
  function ByteLevelText(s: seq<byte>): cstr { Flatten(Symbols(s)) }

  /** The symbol width encode_piece reads off a first byte. */
  function WidthOf(u: cchar): nat { if u < 128 then 1 else if u < 224 then 2 else 3 }

  /**
   * What the merge loop and the decoder rely on: symbols are self-delimiting, decode to their byte, and hold no
   * space.
   */
  lemma SymbolShape(b: byte)
    ensures var u := Symbol(b);
      && 1 <= |u| <= 2 && WidthOf(u[0]) == |u|
      && SPACE !in u
      && (u[0] < 0x80 <==> Kept(b) && b < 0x80)
      && (u[0] < 0x80 ==> u == [b as cchar])
      && (u[0] >= 0x80 ==> 0xc2 <= u[0] <= 0xc5 && Continuation(u[1]))
  {
    CodePointBound(b);
  }

  lemma SymbolDecodes(b: byte, x: cstr, p: nat)
    requires p + |Symbol(b)| <= |x| && x[p..p + |Symbol(b)|] == Symbol(b)
    ensures p < |x| && Utf8Cp(x, p) == (CodePoint(b), |Symbol(b)|)
  {
    SymbolShape(b);
    CodePointBound(b);
    var u := Symbol(b);
    assert x[p] == u[0];
    if |u| == 2 {
      assert x[p + 1] == u[1];
    }
  }

  lemma SymbolsConcat(a: seq<byte>, b: seq<byte>)
    ensures ByteLevelText(a + b) == ByteLevelText(a) + ByteLevelText(b)
  {
    assert Symbols(a + b) == Symbols(a) + Symbols(b);
    FlattenConcat(Symbols(a), Symbols(b));
  }

  lemma ByteLevelStep(s: seq<byte>)
    requires s != []
    ensures ByteLevelText(s) == Symbol(s[0]) + ByteLevelText(s[1..])
  {
    assert Symbols(s)[1..] == Symbols(s[1..]);
  }

  lemma ByteLevelEnds(s: seq<byte>)
    ensures ByteLevelText(s) == [] <==> s == []
  {
    if s != [] {
      ByteLevelStep(s);
      SymbolShape(s[0]);
    }
  }

  method ToByteLevel(u: array<nat>, s: seq<byte>) returns (x: cstr)
    requires u.Length == 256 && forall b: byte :: u[b] == CodePoint(b)
    ensures x == ByteLevelText(s)
  {
    x := [];
    for i := 0 to |s|
      invariant x == ByteLevelText(s[..i])
    {
      CodePointBound(s[i]);
      x := x + PutUtf8(u[s[i]]);
      SymbolsConcat(s[..i], [s[i]]);
      ByteLevelStep([s[i]]);
      assert s[..i + 1] == s[..i] + [s[i]];
    }
    assert s[..|s|] == s;
  }

  // ---------------------------------------------------------------- decoding

  /** The decoder's inner loop from position p on; None for a code point that stands for no byte. */
  ghost function DecodeFrom(x: cstr, p: nat): Option<seq<byte>>
    requires p <= |x|
    decreases |x| - p
  {
    if p == |x| then Some([])
    else
      var (cp, z) := Utf8Cp(x, p);
      match ByteOf(cp)
      case None => None
      case Some(b) =>
        Before([b], DecodeFrom(x, p + z))
  }

  /** Byte-level text decodes to the bytes it was made of. */
  lemma {:induction false} DecodesByteLevel(x: cstr, p: nat, s: seq<byte>)
    requires p <= |x| && x[p..] == ByteLevelText(s)
    ensures DecodeFrom(x, p) == Some(s)
    decreases |s|
  {
    hide Utf8Cp, ByteOf, CodePoint, Symbol, ByteLevelText;
    ByteLevelEnds(s);
    if s != [] {
      ByteLevelStep(s);
      var u := Symbol(s[0]);
      SymbolShape(s[0]);
      assert x[p..p + |u|] == x[p..][..|u|] == u;
      SymbolDecodes(s[0], x, p);
      ByteOfCodePoint(s[0]);
      assert x[p + |u|..] == x[p..][|u|..];
      DecodesByteLevel(x, p + |u|, s[1..]);
      assert s == [s[0]] + s[1..];
    }
  }

  method DecodeText(x: cstr) returns (r: Option<seq<byte>>)
    ensures r == DecodeFrom(x, 0)
  {
    var out: seq<byte> := [];
    var p := 0;
    BeforeNothing(DecodeFrom(x, 0));
    while p < |x|
      invariant p <= |x|
      invariant DecodeFrom(x, 0) == Before(out, DecodeFrom(x, p))
    {
      var (cp, z) := Utf8Cp(x, p);
      var b := ByteForCodePoint(cp);
      if b.None? {
        return None;
      }
      BeforeAssoc(out, [b.value], DecodeFrom(x, p + z));
      out := out + [b.value];
      p := p + z;
    }
    assert out + [] == out;
    return Some(out);
  }
}
