/** The open-addressing vocabulary hash of src/q3_tokenizer.c: insertion with growth, and lookup. */
module VocabTable {
  import opened Wrappers
  import opened CStrings

  const INITIAL_SLOTS: nat := 524288

  datatype Slot = Slot(key: cstr, id: nat)

  // ---------------------------------------------------------------- hashing and probing

  function XorByte(a: byte, c: byte): byte { ((a as bv8) ^ (c as bv8)) as int }

  /** hs: 64-bit FNV-1a. Only the low byte takes part in the exclusive or. */
  function Hash(s: cstr): nat {
    if s == [] then 1469598103934665603
    else
      var h := Hash(s[..|s| - 1]);
      (h - h % 256 + XorByte(h % 256, s[|s| - 1])) * 1099511628211 % U64_MODULUS
  }

  /** The sizes the table takes. Each is a power of two, so the C code's mask with size - 1 is the remainder. */
  function Grown(k: nat): (n: nat)
    ensures n >= INITIAL_SLOTS && n % 2 == 0
  {
    if k == 0 then INITIAL_SLOTS else 2 * Grown(k - 1)
  }

  ghost predicate TableSize(n: nat) { exists k: nat :: n == Grown(k) }

  function Start(s: cstr, n: nat): (i: nat)
    requires n > 0
    ensures i < n
  {
    Hash(s) % n
  }

  function Next(i: nat, n: nat): nat
    requires i < n
  {
    if i + 1 < n then i + 1 else 0
  }

  /** The slot d probes after slot i. */
  function Along(i: nat, d: nat, n: nat): (j: nat)
    requires i < n && d < n
    ensures j < n
  {
    if i + d < n then i + d else i + d - n
  }

  /** How many probes lead from slot i to slot j. */
  function Distance(i: nat, j: nat, n: nat): (d: nat)
    requires i < n && j < n
    ensures d < n && Along(i, d, n) == j
  {
    if j >= i then j - i else j - i + n
  }

  // ---------------------------------------------------------------- tables

  /** Every slot a probe for the key of slot j passes on its way is occupied. */
  ghost predicate Reachable(t: seq<Option<Slot>>, j: nat)
    requires j < |t| && t[j].Some?
  {
    var i := Start(t[j].value.key, |t|);
    forall d :: 0 <= d < Distance(i, j, |t|) ==> t[Along(i, d, |t|)].Some?
  }

  ghost predicate Holds(t: seq<Option<Slot>>, j: int, s: cstr) {
    0 <= j < |t| && t[j].Some? && t[j].value.key == s
  }

  ghost predicate NoKeyTwice(t: seq<Option<Slot>>) {
    forall i, j, s :: Holds(t, i, s) && Holds(t, j, s) ==> i == j
  }

  /** The table stands for the map m. */
  ghost predicate Represents(t: seq<Option<Slot>>, m: map<cstr, nat>) {
    && (forall j :: 0 <= j < |t| && t[j].Some? ==>
          t[j].value.key in m && m[t[j].value.key] == t[j].value.id && Reachable(t, j))
    && (forall s :: s in m ==> Has(t, |t|, s))
    && NoKeyTwice(t)
  }

  /** One of the first n slots has the key. */
  ghost predicate Has(t: seq<Option<Slot>>, n: int, s: cstr) { exists j :: j < n && Holds(t, j, s) }

  lemma HeldIsBound(t: seq<Option<Slot>>, m: map<cstr, nat>, j: nat, s: cstr)
    requires Represents(t, m) && Holds(t, j, s)
    ensures s in m && m[s] == t[j].value.id
  {
  }

  function Occupied(t: seq<Option<Slot>>): (c: nat)
    ensures c <= |t|
  {
    if t == [] then 0 else Occupied(t[..|t| - 1]) + if t[|t| - 1].Some? then 1 else 0
  }

  lemma {:induction false} OccupiedAfterFill(t: seq<Option<Slot>>, j: nat, e: Slot)
    requires j < |t|
    ensures Occupied(t[j := Some(e)]) == Occupied(t) + if t[j].None? then 1 else 0
  {
    var n, u := |t| - 1, t[j := Some(e)];
    if j == n {
      assert u[..n] == t[..n];
    } else {
      OccupiedAfterFill(t[..n], j, e);
      assert u[..n] == t[..n][j := Some(e)];
    }
  }

  lemma {:induction false} FreeSlotExists(t: seq<Option<Slot>>) returns (j: nat)
    requires Occupied(t) < |t|
    ensures j < |t| && t[j].None?
  {
    var n := |t| - 1;
    if t[n].None? {
      j := n;
    } else {
      j := FreeSlotExists(t[..n]);
    }
  }

  lemma {:induction false} AllFree(t: seq<Option<Slot>>)
    requires forall j :: 0 <= j < |t| ==> t[j] == None
    ensures Occupied(t) == 0
  {
    if t != [] {
      AllFree(t[..|t| - 1]);
    }
  }

  /** Where a probe for s that has passed d slots without meeting s or a free slot stands. */
  ghost predicate Probed(t: seq<Option<Slot>>, s: cstr, d: nat)
    requires |t| > 0 && d <= |t|
  {
    forall e :: 0 <= e < d ==> var j := Along(Start(s, |t|), e, |t|); t[j].Some? && t[j].value.key != s
  }

  /** A probe that reaches a free slot proves that the key is absent. */
  lemma FreeMeansAbsent(t: seq<Option<Slot>>, m: map<cstr, nat>, s: cstr, d: nat)
    requires Represents(t, m) && d < |t| && Probed(t, s, d) && t[Along(Start(s, |t|), d, |t|)].None?
    ensures s !in m
  {
    if s in m {
      var j :| Holds(t, j, s);
      assert Reachable(t, j);
      var far := Distance(Start(s, |t|), j, |t|);
    }
  }

  lemma FillRepresents(t: seq<Option<Slot>>, m: map<cstr, nat>, s: cstr, d: nat, id: nat)
    requires Represents(t, m) && d < |t| && Probed(t, s, d) && t[Along(Start(s, |t|), d, |t|)].None?
    ensures Represents(t[Along(Start(s, |t|), d, |t|) := Some(Slot(s, id))], m[s := id])
  {
    FreeMeansAbsent(t, m, s, d);
    var at := Along(Start(s, |t|), d, |t|);
    var u := t[at := Some(Slot(s, id))];
    forall j | 0 <= j < |u| && u[j].Some? ensures Reachable(u, j) {
      if j != at {
        assert Reachable(t, j);
      }
    }
    forall k | k in m[s := id] ensures Has(u, |u|, k) {
      if k == s {
        assert Holds(u, at, s);
      } else {
        var j :| Holds(t, j, k);
        assert Holds(u, j, k);
      }
    }
    forall i, j, k | Holds(u, i, k) && Holds(u, j, k) ensures i == j {
      if i != at && j != at {
        assert Holds(t, i, k) && Holds(t, j, k);
      }
    }
  }

  lemma ReplaceRepresents(t: seq<Option<Slot>>, m: map<cstr, nat>, s: cstr, at: nat, id: nat)
    requires Represents(t, m) && Holds(t, at, s)
    ensures Represents(t[at := Some(Slot(s, id))], m[s := id])
  {
    var u := t[at := Some(Slot(s, id))];
    forall j | 0 <= j < |u| && u[j].Some? ensures Reachable(u, j) {
      assert Reachable(t, j);
    }
    forall i, k ensures Holds(u, i, k) <==> Holds(t, i, k) {
    }
    forall k | k in m[s := id] ensures Has(u, |u|, k) {
      assert k in m;
      var j :| Holds(t, j, k);
      assert Holds(u, j, k);
    }
    forall j | 0 <= j < |u| && u[j].Some?
      ensures var k := u[j].value.key; k in m[s := id] && m[s := id][k] == u[j].value.id
    {
      assert Holds(t, j, u[j].value.key);
    }
  }

  /** Steps left before a probe must meet a free slot. */
  lemma ProbeStopsAtFree(t: seq<Option<Slot>>, s: cstr, d: nat, free: nat)
    requires d <= |t| && free < |t| && t[free].None? && Probed(t, s, d)
    ensures d <= Distance(Start(s, |t|), free, |t|)
  {
    var far := Distance(Start(s, |t|), free, |t|);
    assert Along(Start(s, |t|), far, |t|) == free;
  }

  // ---------------------------------------------------------------- growth

  lemma NextSize(n: nat)
    requires n == 0 || TableSize(n)
    ensures TableSize(if n != 0 then n * 2 else INITIAL_SLOTS)
  {
    if n == 0 {
      assert INITIAL_SLOTS == Grown(0);
    } else {
      var k: nat :| n == Grown(k);
      assert n * 2 == Grown(k + 1);
    }
  }

  lemma SizeIsEven(n: nat)
    requires TableSize(n)
    ensures n % 2 == 0
  {
  }

  lemma EmptyRepresents(t: seq<Option<Slot>>)
    requires forall j :: 0 <= j < |t| ==> t[j] == None
    ensures Represents(t, map[])
  {
  }

  lemma {:induction false} OccupiedStep(t: seq<Option<Slot>>, i: nat)
    requires i < |t|
    ensures Occupied(t[..i + 1]) == Occupied(t[..i]) + if t[i].Some? then 1 else 0
    ensures Occupied(t[..i]) <= Occupied(t)
    decreases |t| - i
  {
    assert t[..i + 1][..i] == t[..i];
    if i + 1 < |t| {
      OccupiedStep(t, i + 1);
    } else {
      assert t[..i + 1] == t;
    }
  }

  /** `moved` holds the bindings of the first i slots of the table t for m. */
  ghost predicate MovedUpTo(t: seq<Option<Slot>>, i: nat, m: map<cstr, nat>, moved: map<cstr, nat>) {
    forall s :: (s in moved <==> Has(t, i, s)) && (s in moved ==> s in m && moved[s] == m[s])
  }

  lemma NothingMoved(t: seq<Option<Slot>>, m: map<cstr, nat>)
    ensures MovedUpTo(t, 0, m, map[])
  {
  }

  lemma NotYetMoved(t: seq<Option<Slot>>, i: nat, m: map<cstr, nat>, moved: map<cstr, nat>)
    requires Represents(t, m) && i < |t| && t[i].Some? && MovedUpTo(t, i, m, moved)
    ensures t[i].value.key !in moved
    ensures MovedUpTo(t, i + 1, m, moved[t[i].value.key := t[i].value.id])
  {
    var e := t[i].value;
    assert Holds(t, i, e.key);
    forall s ensures Has(t, i + 1, s) <==> Has(t, i, s) || s == e.key {
      if Has(t, i + 1, s) {
        var j :| j < i + 1 && Holds(t, j, s);
        assert j == i || (j < i && Holds(t, j, s));
      }
    }
  }

  lemma SkipOne(t: seq<Option<Slot>>, i: nat, m: map<cstr, nat>, moved: map<cstr, nat>)
    requires i < |t| && t[i].None? && MovedUpTo(t, i, m, moved)
    ensures MovedUpTo(t, i + 1, m, moved)
  {
    forall s ensures Has(t, i + 1, s) <==> Has(t, i, s) {
      if Has(t, i + 1, s) {
        var j :| j < i + 1 && Holds(t, j, s);
        assert j < i && Holds(t, j, s);
      }
    }
  }

  lemma AllMoved(t: seq<Option<Slot>>, m: map<cstr, nat>, moved: map<cstr, nat>)
    requires Represents(t, m) && MovedUpTo(t, |t|, m, moved)
    ensures moved == m
  {
    assert forall s :: s in m ==> Has(t, |t|, s) && s in moved;
  }

  // ---------------------------------------------------------------- the table object

  class Vocabulary {
    var slots: array<Option<Slot>>
    var count: nat
    ghost var entries: map<cstr, nat>

    ghost predicate Valid()
      reads this, slots
    {
      && (slots.Length == 0 || TableSize(slots.Length))
      && Occupied(slots[..]) == count && count * 2 <= slots.Length
      && Represents(slots[..], entries)
    }

    constructor ()
      ensures Valid() && entries == map[] && fresh(slots)
    {
      slots, count, entries := new [0](_ => None), 0, map[];
    }

    /** The probe loop shared by insertion, growth and lookup. */
    static method Probe(t: array<Option<Slot>>, s: cstr) returns (i: nat, ghost d: nat)
      requires Occupied(t[..]) < t.Length
      ensures d < t.Length && Probed(t[..], s, d) && i == Along(Start(s, t.Length), d, t.Length)
      ensures t[i].None? || Holds(t[..], i, s)
    {
      ghost var free := FreeSlotExists(t[..]);
      i, d := Start(s, t.Length), 0;
      while t[i].Some? && t[i].value.key != s
        invariant d < t.Length && i == Along(Start(s, t.Length), d, t.Length) && Probed(t[..], s, d)
        decreases t.Length - d
      {
        ProbeStopsAtFree(t[..], s, d + 1, free);
        i, d := Next(i, t.Length), d + 1;
      }
    }

    /** Growth: a table of twice the size with every binding moved over. */
    method Grow()
      requires Valid()
      modifies this
      ensures Valid() && entries == old(entries) && count == old(count) && fresh(slots)
      ensures count * 2 < slots.Length
    {
      hide Represents, Holds, TableSize, Occupied, Probed, Start, Along, Hash, MovedUpTo;
      var size := if slots.Length != 0 then slots.Length * 2 else INITIAL_SLOTS;
      NextSize(slots.Length);
      var n := new Option<Slot>[size](_ => None);
      AllFree(n[..]);
      ghost var moved: map<cstr, nat> := map[];
      assert Represents(n[..], moved) by { EmptyRepresents(n[..]); }
      assert slots[..0] == [] && Occupied([]) == 0 by { AllFree([]); }
      NothingMoved(slots[..], entries);
      for i := 0 to slots.Length
        invariant Valid() && unchanged(this) && unchanged(slots)
        invariant Represents(n[..], moved) && Occupied(n[..]) == Occupied(slots[..i]) && fresh(n) && n.Length == size
        invariant MovedUpTo(slots[..], i, entries, moved)
      {
        OccupiedStep(slots[..], i);
        ghost var all, before := slots[..], n[..];
        if slots[i].Some? {
          var e := slots[i].value;
          NotYetMoved(all, i, entries, moved);
          var j, d := Probe(n, e.key);
          assert n[j].None? by {
            if n[j].Some? {
              HeldIsBound(before, moved, j, e.key);
            }
          }
          FillRepresents(before, moved, e.key, d, e.id);
          OccupiedAfterFill(before, j, e);
          n[j] := Some(e);
          assert n[..] == before[j := Some(e)];
          moved := moved[e.key := e.id];
        } else {
          SkipOne(all, i, entries, moved);
        }
      }
      assert slots[..slots.Length] == slots[..];
      AllMoved(slots[..], entries, moved);
      slots := n;
    }

    /** addv */
    method Add(s: cstr, id: nat)
      requires Valid()
      modifies this, slots
      ensures Valid() && entries == old(entries)[s := id] && (slots == old(slots) || fresh(slots))
    {
      if count * 2 >= slots.Length {
        Grow();
      }
      Place(s, id);
    }

    /** The part of addv after growth: the table is less than half full. */
    method Place(s: cstr, id: nat)
      requires Valid() && count * 2 < slots.Length
      modifies this, slots
      ensures Valid() && entries == old(entries)[s := id] && slots == old(slots)
    {
      hide Represents, Holds, TableSize, Occupied, Probed, Start, Along, Hash;
      SizeIsEven(slots.Length);
      var i, d := Probe(slots, s);
      ghost var before := slots[..];
      OccupiedAfterFill(before, i, Slot(s, id));
      if slots[i].None? {
        FillRepresents(before, entries, s, d, id);
        count := count + 1;
      } else {
        ReplaceRepresents(before, entries, s, i, id);
      }
      slots[i] := Some(Slot(s, id));
      assert slots[..] == before[i := Some(Slot(s, id))];
      entries := entries[s := id];
    }

    /** lookup, with None for -1 */
    method Lookup(s: cstr) returns (r: Option<nat>)
      requires Valid()
      ensures r == if s in entries then Some(entries[s]) else None
    {
      if slots.Length == 0 {
        return None;
      }
      var i, d := Probe(slots, s);
      if slots[i].Some? {
        return Some(slots[i].value.id);
      }
      FreeMeansAbsent(slots[..], entries, s, d);
      return None;
    }
  }
}
