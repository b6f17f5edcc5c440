/** The bytes a JSON string stands for, escape by escape, in plain numbers. */
module JsonEscapes {
  import opened Wrappers
  import opened CStrings
  import opened ByteLevel
  import opened Utf8
  import opened Json

  /** The character x is the hexadecimal digit d, in either case. */
  predicate IsHex(x: int, d: int) {
    (0 <= d <= 9 && x == 0x30 + d) || (10 <= d <= 15 && (x == 0x61 + d - 10 || x == 0x41 + d - 10))
  }

  /** A backslash, the letter u, and the four digits of the code stand at p. */
  predicate UnicodeAt(t: cstr, p: nat, code: nat) {
    && p + 6 <= |t| && t[p] == 0x5c && t[p + 1] == 0x75
    && IsHex(t[p + 2], code / 4096) && IsHex(t[p + 3], code / 256 % 16)
    && IsHex(t[p + 4], code / 16 % 16) && IsHex(t[p + 5], code % 16)
  }

  lemma DigitValue(x: cchar, d: nat)
    requires IsHex(x, d)
    ensures HexDigit(x) == Some(d)
  {
  }

  lemma FourDigits(t: cstr, p: nat, code: nat)
    requires code < 0x1_0000 && UnicodeAt(t, p, code)
    ensures HexFrom(t, p + 2, 4, 0) == Some(code)
  {
    hide HexDigit, IsHex;
    DigitValue(t[p + 2], code / 4096);
    DigitValue(t[p + 3], code / 256 % 16);
    DigitValue(t[p + 4], code / 16 % 16);
    DigitValue(t[p + 5], code % 16);
    var a, b := code / 4096, code / 256;
    assert b == a * 16 + b % 16 && code / 16 == b * 16 + code / 16 % 16;
    assert HexFrom(t, p + 6, 0, code) == Some(code);
    assert HexFrom(t, p + 5, 1, code / 16) == HexFrom(t, p + 6, 0, code);
    assert HexFrom(t, p + 4, 2, b) == HexFrom(t, p + 5, 1, code / 16);
    assert HexFrom(t, p + 3, 3, a) == HexFrom(t, p + 4, 2, b);
  }

  /**
   * A unicode escape of a code from 1 to 0xffff stands for one UTF-8 sequence of one, two or three bytes, which reads
   * back as exactly that code. The rest of the string follows it.
   */
  lemma UnicodeEscape(t: cstr, p: nat, code: nat) returns (u: cstr)
    requires 1 <= code < 0x1_0000 && UnicodeAt(t, p, code)
    ensures |u| == (if code < 0x80 then 1 else if code < 0x800 then 2 else 3) && Utf8Cp(u, 0) == (code, |u|)
    ensures StringBody(t, p + 6).Success? ==>
      StringBody(t, p) == Success((u + StringBody(t, p + 6).value.0, StringBody(t, p + 6).value.1))
    ensures StringBody(t, p + 6).Failure? ==> StringBody(t, p) == StringBody(t, p + 6)
  {
    hide HexFrom, IsHex, Utf8Cp;
    FourDigits(t, p, code);
    if code < 0x80 {
      u := [code];
      ReadsOne(u, 0);
    } else if code < 0x800 {
      u := [0xc0 + code / 64, 0x80 + code % 64];
      ReadsTwo(u, 0, code);
    } else {
      u := [0xe0 + code / 4096, 0x80 + code / 64 % 64, 0x80 + code % 64];
      ReadsThree(u, 0, code);
    }
    assert ParseChar(t, p) == Success((u, p + 6));
  }

  /** The code 0 stands for a NUL byte. */
  lemma NulEscape(t: cstr, p: nat)
    requires UnicodeAt(t, p, 0) && StringBody(t, p + 6).Success?
    ensures StringBody(t, p) == Success(([0] + StringBody(t, p + 6).value.0, StringBody(t, p + 6).value.1))
  {
    hide HexFrom, IsHex;
    FourDigits(t, p, 0);
  }

  /** So the parsed text ends in front of it. */
  lemma NulEndsText(t: cstr, p: nat, q: nat)
    requires p + 1 <= q && q + 6 <= |t| && t[p] == 0x22 && UnicodeAt(t, q, 0)
    requires (forall k :: p < k < q ==> t[k] >= 0x20 && t[k] != 0x22 && t[k] != 0x5c) && StringBody(t, q + 6).Success?
    ensures ParseString(t, p) == Success((t[p + 1..q], StringBody(t, q + 6).value.1))
  {
    NulEscape(t, q);
    var rest := [0] + StringBody(t, q + 6).value.0;
    PlainThen(t, p + 1, q, rest, StringBody(t, q + 6).value.1);
    CutAtNul(t[p + 1..q], StringBody(t, q + 6).value.0);
  }

  lemma {:induction false} PlainThen(t: cstr, p: nat, q: nat, rest: seq<byte>, end: nat)
    requires p <= q <= |t| && forall k :: p <= k < q ==> t[k] >= 0x20 && t[k] != 0x22 && t[k] != 0x5c
    requires StringBody(t, q) == Success((rest, end))
    ensures StringBody(t, p) == Success((t[p..q] + rest, end))
    decreases q - p
  {
    if p < q {
      PlainThen(t, p + 1, q, rest, end);
      assert [t[p] as byte] + (t[p + 1..q] + rest) == t[p..q] + rest;
    } else {
      assert t[p..q] + rest == rest;
    }
  }

  lemma {:induction false} CutAtNul(s: cstr, more: seq<byte>)
    ensures CString(s + ([0] + more)) == s
  {
    var raw: seq<byte> := s + ([0] + more);
    if s != [] {
      CutAtNul(s[1..], more);
      assert raw[1..] == s[1..] + ([0] + more);
      assert s == [s[0]] + s[1..];
    }
  }

  /** Backspace, tab, newline, form feed, carriage return, quote, slash and backslash. */
  lemma LetterEscapes(t: cstr, p: nat, b: byte)
    requires p + 2 <= |t| && t[p] == 0x5c && StringBody(t, p + 2).Success?
    requires (t[p + 1] as int, b) in {(0x62, 8), (0x74, 9), (0x6e, 10), (0x66, 12), (0x72, 13), (0x22, 0x22),
                                      (0x2f, 0x2f), (0x5c, 0x5c)}
    ensures StringBody(t, p) == Success(([b] + StringBody(t, p + 2).value.0, StringBody(t, p + 2).value.1))
  {
  }

  /** Any other byte from 0x20 on stands for itself; the closing quote ends the string. */
  lemma PlainBytes(t: cstr, p: nat)
    requires p < |t| && t[p] >= 0x20 && t[p] != 0x5c
    ensures t[p] == 0x22 ==> StringBody(t, p) == Success(([], p + 1))
    ensures t[p] != 0x22 && StringBody(t, p + 1).Success? ==>
      StringBody(t, p) == Success(([t[p] as byte] + StringBody(t, p + 1).value.0, StringBody(t, p + 1).value.1))
  {
  }

  /** Control characters, unknown escapes, and escapes that are cut off or hold no digits are errors. */
  lemma StringErrors(t: cstr, p: nat)
    requires p < |t|
    ensures t[p] < 0x20 ==> StringBody(t, p) == Failure(ControlCharacter)
    ensures t[p] == 0x5c && p + 1 == |t| ==> StringBody(t, p) == Failure(BadEscape)
    ensures t[p] == 0x5c && p + 1 < |t| && t[p + 1] !in {0x22, 0x2f, 0x5c, 0x62, 0x66, 0x6e, 0x72, 0x74, 0x75} ==>
      StringBody(t, p) == Failure(BadEscapeCharacter)
    ensures t[p] == 0x5c && p + 1 < |t| && t[p + 1] == 0x75 && p + 6 > |t| ==> StringBody(t, p) == Failure(BadUnicode)
  {
    hide HexFrom;
  }
}
