/** NUL-terminated strings: sequences of non-zero bytes, and what strcmp-style code sees of a counted string. */
module CStrings {
  import opened Wrappers

  type cchar = c: int | 0 < c < 256 witness 1
  type cstr = seq<cchar>

  /** The C string at the start of a counted, NUL-terminated copy: everything before the first NUL. */
  function CString(raw: seq<byte>): (s: cstr)
    ensures |s| <= |raw| && (forall i :: 0 <= i < |s| ==> s[i] == raw[i])
    ensures |s| < |raw| ==> raw[|s|] == 0
  {
    if raw == [] || raw[0] == 0 then [] else [raw[0] as cchar] + CString(raw[1..])
  }

  /** One sequence after the other. */
  function Flatten<T>(parts: seq<seq<T>>): seq<T> {
    if parts == [] then [] else parts[0] + Flatten(parts[1..])
  }

  lemma {:induction false} FlattenConcat<T>(a: seq<seq<T>>, b: seq<seq<T>>)
    ensures Flatten(a + b) == Flatten(a) + Flatten(b)
  {
    if a == [] {
      assert a + b == b;
    } else {
      FlattenConcat(a[1..], b);
      assert (a + b)[1..] == a[1..] + b;
      assert (a + b)[0] == a[0];
    }
  }

  lemma FlattenCons<T>(a: seq<T>, rest: seq<seq<T>>)
    ensures Flatten([a] + rest) == a + Flatten(rest)
  {
    assert ([a] + rest)[1..] == rest;
  }

  // ---------------------------------------------------------------- output so far, and what may still fail

  /** Output already produced, in front of what the rest produces. */
  function Before<T>(out: seq<T>, rest: Option<seq<T>>): Option<seq<T>> {
    match rest case None => None case Some(xs) => Some(out + xs)
  }

  function Both<T>(first: Option<seq<T>>, second: Option<seq<T>>): Option<seq<T>> {
    match first case None => None case Some(xs) => Before(xs, second)
  }

  lemma BeforeNothing<T>(rest: Option<seq<T>>)
    ensures Before([], rest) == rest
  {
    if rest.Some? {
      assert [] + rest.value == rest.value;
    }
  }

  lemma BeforeAssoc<T>(a: seq<T>, b: seq<T>, rest: Option<seq<T>>)
    ensures Before(a, Before(b, rest)) == Before(a + b, rest)
  {
    if rest.Some? {
      assert a + (b + rest.value) == a + b + rest.value;
    }
  }

  lemma BothAssoc<T>(a: Option<seq<T>>, b: Option<seq<T>>, c: Option<seq<T>>)
    ensures Both(a, Both(b, c)) == Both(Both(a, b), c)
  {
    if a.Some? && b.Some? {
      BeforeAssoc(a.value, b.value, c);
    }
  }
}
