/** The one normalisation the encoder applies (normalize_nfc in src/q3_tokenizer.c): acute accents on ten letters. */
module Nfc {
  import opened Wrappers
  import opened CStrings

  /** The second byte of the composed letter; the first is 0xc3. */
  function Acute(base: cchar): Option<cchar> {
    match base
    case 0x61 => Some(0xa1)
    case 0x65 => Some(0xa9)
    case 0x69 => Some(0xad)
    case 0x6f => Some(0xb3)
    case 0x75 => Some(0xba)
    case 0x41 => Some(0x81)
    case 0x45 => Some(0x89)
    case 0x49 => Some(0x8d)
    case 0x4f => Some(0x93)
    case 0x55 => Some(0x9a)
    case _ => None
  }

  /** A base letter and the combining acute accent stand at i. */
  predicate Composes(s: cstr, i: nat) {
    i + 2 < |s| && s[i + 1] == 0xcc && s[i + 2] == 0x81 && Acute(s[i]).Some?
  }

  function Normalized(s: cstr, i: nat): cstr
    requires i <= |s|
    decreases |s| - i
  {
    if i == |s| then []
    else if Composes(s, i) then [0xc3, Acute(s[i]).value] + Normalized(s, i + 3)
    else [s[i]] + Normalized(s, i + 1)
  }

  /** The search through the table of composed letters. */
  method FindAcute(base: cchar) returns (r: Option<cchar>)
    ensures r == Acute(base)
  {
    var table: seq<(cchar, cchar)> := [(0x61, 0xa1), (0x65, 0xa9), (0x69, 0xad), (0x6f, 0xb3), (0x75, 0xba),
                                       (0x41, 0x81), (0x45, 0x89), (0x49, 0x8d), (0x4f, 0x93), (0x55, 0x9a)];
    for j := 0 to |table|
      invariant forall k :: 0 <= k < j ==> table[k].0 != base
    {
      if base == table[j].0 {
        return Some(table[j].1);
      }
    }
    assert forall k :: 0 <= k < 10 ==> table[k].0 != base;
    assert base !in {table[0].0, table[1].0, table[2].0, table[3].0, table[4].0};
    assert base !in {table[5].0, table[6].0, table[7].0, table[8].0, table[9].0};
    return None;
  }

  method NormalizeNfc(s: cstr) returns (out: cstr)
    ensures out == Normalized(s, 0)
  {
    hide Acute;
    out := [];
    var i := 0;
    while i < |s|
      invariant i <= |s| && out + Normalized(s, i) == Normalized(s, 0)
    {
      ghost var rest := Normalized(s, i);
      var composed: Option<cchar> := None;
      if i + 2 < |s| && s[i + 1] == 0xcc && s[i + 2] == 0x81 {
        composed := FindAcute(s[i]);
      }
      if composed.Some? {
        assert rest == [0xc3, composed.value] + Normalized(s, i + 3);
        Assoc(out, [0xc3, composed.value], Normalized(s, i + 3));
        out := out + [0xc3, composed.value];
        i := i + 3;
      } else {
        assert rest == [s[i]] + Normalized(s, i + 1);
        Assoc(out, [s[i]], Normalized(s, i + 1));
        out := out + [s[i]];
        i := i + 1;
      }
    }
  }

  // ---------------------------------------------------------------- normal forms

  /** Nothing is left to compose. */
  ghost predicate IsNormal(s: cstr) { forall i: nat :: !Composes(s, i) }

  lemma NormalizedStart(s: cstr, i: nat)
    requires i < |s|
    ensures var r := Normalized(s, i); r != [] && (r[0] == 0xc3 || r[0] == s[i])
    ensures Normalized(s, i)[0] == 0xcc ==> s[i] == 0xcc && Normalized(s, i) == [s[i]] + Normalized(s, i + 1)
    ensures Normalized(s, i)[0] == 0x81 ==> s[i] == 0x81
  {
  }

  lemma {:induction false} NormalizedIsNormal(s: cstr, i: nat)
    requires i <= |s|
    ensures IsNormal(Normalized(s, i))
    decreases |s| - i
  {
    var r := Normalized(s, i);
    if i < |s| {
      var step := if Composes(s, i) then 3 else 1;
      var n := if Composes(s, i) then 2 else 1;
      var rest := Normalized(s, i + step);
      NormalizedIsNormal(s, i + step);
      forall k: nat ensures !Composes(r, k) {
        if k >= n {
          assert forall d :: k <= d < |r| ==> r[d] == rest[d - n];
          assert !Composes(rest, k - n);
        } else if !Composes(s, i) && |r| > 2 {
          NormalizedStart(s, i + 1);
          if i + 2 < |s| {
            NormalizedStart(s, i + 2);
          }
          assert r[1] == rest[0] && r[2] == rest[1];
        }
      }
    }
  }

  lemma {:induction false} NormalStays(s: cstr, i: nat)
    requires IsNormal(s) && i <= |s|
    ensures Normalized(s, i) == s[i..]
    decreases |s| - i
  {
    if i < |s| {
      NormalStays(s, i + 1);
    }
  }

  /** Normalising twice is normalising once. */
  lemma NormalizeTwice(s: cstr)
    ensures Normalized(Normalized(s, 0), 0) == Normalized(s, 0)
  {
    NormalizedIsNormal(s, 0);
    NormalStays(Normalized(s, 0), 0);
  }
}
