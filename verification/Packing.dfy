/** Ragged packing of the suffixes of a decision batch (q3_decide_run in src/q3_decide.cu). */
module Packing {

  datatype Item = Item(branch: nat, tokens: seq<nat>, candidates: seq<nat>)

  /** The host arrays handed to the packed pass; one entry per packed token, and one offset per item and the end. */
  datatype Pack = Pack(ids: seq<nat>, positions: seq<nat>, branch: seq<nat>, local: seq<nat>, offsets: seq<nat>)

  /** How many tokens the first k items have: where item k starts. */
  function Begin(items: seq<Item>, k: nat): nat
    requires k <= |items|
  {
    if k == 0 then 0 else Begin(items, k - 1) + |items[k - 1].tokens|
  }

  lemma {:induction false} BeginMonotone(items: seq<Item>, j: nat, k: nat)
    requires j <= k <= |items|
    ensures Begin(items, j) <= Begin(items, k)
    decreases k
  {
    if j < k {
      BeginMonotone(items, j, k - 1);
    }
  }

  /** Packed token t is local token `at` of item k. */
  ghost predicate IsToken(items: seq<Item>, t: nat, k: nat, at: nat) {
    k < |items| && at < |items[k].tokens| && t == Begin(items, k) + at
  }

  /** Every packed index belongs to one local token of one item. */
  lemma {:induction false} TokenExists(items: seq<Item>, t: nat, n: nat) returns (k: nat, at: nat)
    requires n <= |items| && t < Begin(items, n)
    ensures IsToken(items, t, k, at) && k < n
    decreases n
  {
    if t >= Begin(items, n - 1) {
      k, at := n - 1, t - Begin(items, n - 1);
    } else {
      k, at := TokenExists(items, t, n - 1);
    }
  }

  /** And to no other: packing is one-to-one. */
  lemma TokenUnique(items: seq<Item>, t: nat, k: nat, at: nat, m: nat, to: nat)
    requires IsToken(items, t, k, at) && IsToken(items, t, m, to)
    ensures k == m && at == to
  {
    if k < m {
      BeginMonotone(items, k + 1, m);
    } else if m < k {
      BeginMonotone(items, m + 1, k);
    }
  }

  lemma TokenInside(items: seq<Item>, t: nat, k: nat, at: nat)
    requires IsToken(items, t, k, at)
    ensures t < Begin(items, |items|)
  {
    BeginMonotone(items, k + 1, |items|);
  }

  /** Entry t of the arrays describes local token `at` of item k. */
  ghost predicate Describes(items: seq<Item>, prefixLen: nat, p: Pack, t: nat, k: nat, at: nat)
    requires IsToken(items, t, k, at) && t < |p.ids| == |p.positions| == |p.branch| == |p.local|
  {
    && p.ids[t] == items[k].tokens[at] && p.branch[t] == items[k].branch
    && p.local[t] == at && p.positions[t] == prefixLen + at
  }

  ghost predicate DescribedUpTo(items: seq<Item>, prefixLen: nat, p: Pack, n: nat)
    requires n <= |p.ids| == |p.positions| == |p.branch| == |p.local|
  {
    forall t: nat, k: nat, at: nat :: IsToken(items, t, k, at) && t < n ==> Describes(items, prefixLen, p, t, k, at)
  }

  ghost predicate PackOk(items: seq<Item>, prefixLen: nat, p: Pack) {
    var total := Begin(items, |items|);
    && |p.ids| == |p.positions| == |p.branch| == |p.local| == total
    && |p.offsets| == |items| + 1 && (forall k :: 0 <= k <= |items| ==> p.offsets[k] == Begin(items, k))
    && DescribedUpTo(items, prefixLen, p, total)
  }

  lemma NothingDescribed(items: seq<Item>, prefixLen: nat, p: Pack)
    requires |p.ids| == |p.positions| == |p.branch| == |p.local|
    ensures DescribedUpTo(items, prefixLen, p, 0)
  {
  }

  lemma OffsetsAdded(items: seq<Item>, prefixLen: nat, before: Pack, p: Pack)
    requires |p.ids| == |p.positions| == |p.branch| == |p.local| && p == before.(offsets := p.offsets)
    requires DescribedUpTo(items, prefixLen, before, |p.ids|)
    ensures DescribedUpTo(items, prefixLen, p, |p.ids|)
  {
    forall t: nat, k: nat, at: nat | IsToken(items, t, k, at) && t < |p.ids|
      ensures Describes(items, prefixLen, p, t, k, at)
    {
      assert Describes(items, prefixLen, before, t, k, at);
    }
  }

  /** One more entry: local token j of item b. */
  lemma OneMore(items: seq<Item>, prefixLen: nat, before: Pack, after: Pack, b: nat, j: nat)
    requires b < |items| && j < |items[b].tokens|
    requires |before.ids| == |before.positions| == |before.branch| == |before.local| == Begin(items, b) + j
    requires DescribedUpTo(items, prefixLen, before, Begin(items, b) + j)
    requires after.ids == before.ids + [items[b].tokens[j]] && after.branch == before.branch + [items[b].branch]
    requires after.local == before.local + [j] && after.positions == before.positions + [prefixLen + j]
    ensures DescribedUpTo(items, prefixLen, after, Begin(items, b) + j + 1)
  {
    forall t: nat, k: nat, at: nat | IsToken(items, t, k, at) && t < Begin(items, b) + j + 1
      ensures Describes(items, prefixLen, after, t, k, at)
    {
      if t < Begin(items, b) + j {
        assert Describes(items, prefixLen, before, t, k, at);
      } else {
        assert IsToken(items, t, b, j);
        TokenUnique(items, t, k, at, b, j);
      }
    }
  }

  ghost predicate Long(p: Pack, n: nat) { |p.ids| == |p.positions| == |p.branch| == |p.local| == n }

  /** The inner loop: the tokens of item b behind the cursor. */
  method PackTokens(items: seq<Item>, prefixLen: nat, b: nat, before: Pack) returns (p: Pack)
    requires b < |items| && PackedUpTo(items, prefixLen, before, Begin(items, b))
    ensures PackedUpTo(items, prefixLen, p, Begin(items, b + 1))
  {
    hide Describes, IsToken, DescribedUpTo, Begin;
    p := before;
    BeginStep(items, b);
    for j := 0 to |items[b].tokens|
      invariant Long(p, Begin(items, b) + j) && DescribedUpTo(items, prefixLen, p, Begin(items, b) + j)
    {
      ghost var last := p;
      p := Pack(p.ids + [items[b].tokens[j]], p.positions + [prefixLen + j], p.branch + [items[b].branch],
                p.local + [j], p.offsets);
      OneMore(items, prefixLen, last, p, b, j);
    }
  }

  lemma BeginStep(items: seq<Item>, b: nat)
    requires b < |items|
    ensures Begin(items, b + 1) == Begin(items, b) + |items[b].tokens|
  {
  }

  /** The cursor loop; fails when a handle is out of range. */
  method PackItems(items: seq<Item>, prefixLen: nat, maxBranches: nat) returns (ok: bool, p: Pack)
    ensures ok <==> forall k :: 0 <= k < |items| ==> items[k].branch < maxBranches
    ensures ok ==> PackOk(items, prefixLen, p)
  {
    hide Describes, IsToken, DescribedUpTo, Begin, Long;
    var cursor := 0;
    var offsets: seq<nat> := [];
    p := Pack([], [], [], [], []);
    NothingPacked(items, prefixLen, p);
    for b := 0 to |items|
      invariant cursor == Begin(items, b) && |offsets| == b
      invariant forall k :: 0 <= k < b ==> items[k].branch < maxBranches
      invariant forall k :: 0 <= k < b ==> offsets[k] == Begin(items, k)
      invariant PackedUpTo(items, prefixLen, p, cursor)
    {
      if items[b].branch >= maxBranches {
        return false, p;
      }
      offsets := offsets + [cursor];
      p := PackTokens(items, prefixLen, b, p);
      BeginStep(items, b);
      cursor := cursor + |items[b].tokens|;
    }
    offsets := offsets + [cursor];
    ghost var last := p;
    p := p.(offsets := offsets);
    Finished(items, prefixLen, last, p);
    return true, p;
  }

  ghost predicate PackedUpTo(items: seq<Item>, prefixLen: nat, p: Pack, n: nat) {
    Long(p, n) && DescribedUpTo(items, prefixLen, p, n)
  }

  lemma NothingPacked(items: seq<Item>, prefixLen: nat, p: Pack)
    requires p == Pack([], [], [], [], [])
    ensures PackedUpTo(items, prefixLen, p, Begin(items, 0)) && Begin(items, 0) == 0
  {
    NothingDescribed(items, prefixLen, p);
  }

  lemma Finished(items: seq<Item>, prefixLen: nat, before: Pack, p: Pack)
    requires PackedUpTo(items, prefixLen, before, Begin(items, |items|)) && p == before.(offsets := p.offsets)
    requires |p.offsets| == |items| + 1 && forall k :: 0 <= k <= |items| ==> p.offsets[k] == Begin(items, k)
    ensures PackOk(items, prefixLen, p)
  {
    OffsetsAdded(items, prefixLen, before, p);
  }
}
