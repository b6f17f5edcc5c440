/** The UTF-8 reader of the tokenizer against the encoding of each code point, and what it makes of anything else. */
module Utf8 {
  import opened Wrappers
  import opened CStrings
  import opened ByteLevel

  /** Two bytes: codes of eight to eleven bits. */
  lemma ReadsTwo(s: cstr, p: nat, code: nat)
    requires 0x80 <= code < 0x800 && p + 2 <= |s|
    requires s[p] == 0xc0 + code / 64 && s[p + 1] == 0x80 + code % 64
    ensures Utf8Cp(s, p) == (code, 2)
  {
  }

  /** Three bytes: codes of up to sixteen bits, surrogates like any other. */
  lemma ReadsThree(s: cstr, p: nat, code: nat)
    requires 0x800 <= code < 0x1_0000 && p + 3 <= |s|
    requires s[p] == 0xe0 + code / 4096 && s[p + 1] == 0x80 + code / 64 % 64 && s[p + 2] == 0x80 + code % 64
    ensures Utf8Cp(s, p) == (code, 3)
  {
    assert code / 64 / 64 == code / 4096;
    assert code / 64 == code / 4096 * 64 + code / 64 % 64;
  }

  /** Four bytes: codes up to 0x10ffff. */
  lemma ReadsFour(s: cstr, p: nat, code: nat)
    requires 0x1_0000 <= code < 0x11_0000 && p + 4 <= |s|
    requires s[p] == 0xf0 + code / 262144 && s[p + 1] == 0x80 + code / 4096 % 64
    requires s[p + 2] == 0x80 + code / 64 % 64 && s[p + 3] == 0x80 + code % 64
    ensures Utf8Cp(s, p) == (code, 4)
  {
    FourParts(code);
    FromParts(s, p, code / 262144, code / 4096 % 64, code / 64 % 64, code % 64);
  }

  lemma FourParts(code: nat)
    requires code < 0x11_0000
    ensures code / 262144 <= 4
    ensures code == code / 262144 * 262144 + code / 4096 % 64 * 4096 + code / 64 % 64 * 64 + code % 64
  {
    assert code / 64 == code / 4096 * 64 + code / 64 % 64;
    assert code / 4096 == code / 262144 * 64 + code / 4096 % 64;
  }

  lemma FromParts(s: cstr, p: nat, a: nat, b: nat, c: nat, d: nat)
    requires a <= 4 && b < 64 && c < 64 && d < 64 && p + 4 <= |s|
    requires s[p] == 0xf0 + a && s[p + 1] == 0x80 + b && s[p + 2] == 0x80 + c && s[p + 3] == 0x80 + d
    ensures Utf8Cp(s, p) == (a * 262144 + b * 4096 + c * 64 + d, 4)
  {
    assert Low(s[p], 8) == a && Low(s[p + 1], 64) == b && Low(s[p + 2], 64) == c && Low(s[p + 3], 64) == d;
  }

  /** One byte below 0x80 is its own code; so is a byte that starts no complete sequence. */
  lemma ReadsOne(s: cstr, p: nat)
    requires p < |s|
    requires var c, n := s[p], |s| - p;
      || c < 0x80 || 0x80 <= c <= 0xc1 || c >= 0xf5
      || (0xc2 <= c <= 0xdf && (n < 2 || !(0x80 <= s[p + 1] <= 0xbf)))
      || (0xe0 <= c <= 0xef && (n < 3 || !(0x80 <= s[p + 1] <= 0xbf) || !(0x80 <= s[p + 2] <= 0xbf)))
      || (0xf0 <= c <= 0xf4
          && (n < 4 || !(0x80 <= s[p + 1] <= 0xbf) || !(0x80 <= s[p + 2] <= 0xbf) || !(0x80 <= s[p + 3] <= 0xbf)))
    ensures Utf8Cp(s, p) == (s[p] as nat, 1)
  {
  }
}
