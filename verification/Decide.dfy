/**
 * One decision batch over a sealed prefix (src/q3_decide.cu, src/q3_forward.cu): validation, packing, the packed pass
 * with two-segment attention, and the choice of a candidate. Each item gets what running the prefix and its own suffix
 * alone would give.
 */
module Decide {
  import opened Forward
  import opened Prefix
  import opened Packing
  import opened Wrappers

  const MAX_BRANCHES: nat := 32
  const MAX_CANDIDATES: nat := 30

  datatype DecideError = BadBranchCount | NotSealed | BadCandidateCount | InvalidItem | BatchTooLarge | InvalidHandle

  datatype Outcome = Outcome(logits: seq<real>, best: nat)

  /** Rows an attention kernel sees for a token: the prefix rows of the layer, then its branch's suffix rows. */
  function Visible<R>(prefixSlab: seq<R>, prefixLen: nat, prefixCapacity: nat, arena: seq<R>, b: nat, l: nat, lp: nat,
                      layers: nat, capacity: nat): seq<R>
    requires l * prefixCapacity + prefixLen <= |prefixSlab|
    requires Address(b, l, 0, layers, capacity) + lp + 1 <= |arena|
  {
    prefixSlab[l * prefixCapacity..l * prefixCapacity + prefixLen]
      + arena[Address(b, l, 0, layers, capacity)..Address(b, l, 0, layers, capacity) + lp + 1]
  }

  /** What the arena and the batch must be like. */
  ghost predicate Batch(items: seq<Item>, branches: nat, capacity: nat) {
    && (forall k :: 0 <= k < |items| ==> items[k].branch < branches && 0 < |items[k].tokens| <= capacity)
    && (forall j, k :: 0 <= j < k < |items| ==> items[j].branch != items[k].branch)
  }

  /** The packed pass's state for one layer: hidden row t is that of its token in its own run. */
  ghost predicate HiddenOk<H, Q, R>(net: Net<H, Q, R>, prefix: seq<nat>, items: seq<Item>, hidden: seq<H>, l: nat) {
    && |hidden| == Begin(items, |items|)
    && forall t: nat, k: nat, at: nat :: IsToken(items, t, k, at) && t < |hidden| ==>
         hidden[t] == OwnHidden(net, prefix, items, l, k, at)
  }

  /** The hidden row of a suffix token when the prefix and this suffix run alone. */
  function OwnHidden<H, Q, R>(net: Net<H, Q, R>, prefix: seq<nat>, items: seq<Item>, l: nat, k: nat, at: nat): H
    requires k < |items| && at < |items[k].tokens|
  {
    Hidden(net, prefix + items[k].tokens, l, |prefix| + at)
  }

  function OwnRow<H, Q, R>(net: Net<H, Q, R>, prefix: seq<nat>, items: seq<Item>, l: nat, k: nat, at: nat): R
    requires k < |items| && at < |items[k].tokens|
  {
    net.row(l, OwnHidden(net, prefix, items, l, k, at), |prefix| + at)
  }

  // ---------------------------------------------------------------- scatter

  /** Token (k, at) has its row in its branch's slab of this layer. */
  ghost predicate Scattered<H, Q, R>(net: Net<H, Q, R>, prefix: seq<nat>, items: seq<Item>, arena: seq<R>, l: nat,
                                     capacity: nat, k: nat, at: nat)
    requires k < |items| && at < |items[k].tokens|
  {
    var a := Address(items[k].branch, l, at, net.layers, capacity);
    a < |arena| && arena[a] == OwnRow(net, prefix, items, l, k, at)
  }

  /** Distinct handles have distinct slabs: no two packed tokens are scattered to one address. */
  lemma ScatterTargetsDiffer(items: seq<Item>, branches: nat, l: nat, layers: nat, capacity: nat,
                             t: nat, k: nat, at: nat, s: nat, m: nat, to: nat)
    requires Batch(items, branches, capacity) && l < layers && t != s
    requires IsToken(items, t, k, at) && IsToken(items, s, m, to)
    ensures Address(items[k].branch, l, at, layers, capacity) != Address(items[m].branch, l, to, layers, capacity)
  {
    if Address(items[k].branch, l, at, layers, capacity) == Address(items[m].branch, l, to, layers, capacity) {
      AddressInjective(items[k].branch, l, at, items[m].branch, l, to, layers, capacity);
    }
  }

  /** kv_scatter_kernel: every token writes its row into its branch's slab. */
  method Scatter<H, Q, R>(net: Net<H, Q, R>, ghost prefix: seq<nat>, ghost items: seq<Item>, pack: Pack, rows: seq<R>,
                          arena: array<R>, ghost branches: nat, l: nat, capacity: nat)
    requires Batch(items, branches, capacity) && PackOk(items, |prefix|, pack) && l < net.layers
    requires arena.Length == branches * net.layers * capacity && |rows| == |pack.ids|
    requires forall t: nat, k: nat, at: nat :: IsToken(items, t, k, at) && t < |rows| ==>
      rows[t] == OwnRow(net, prefix, items, l, k, at)
    modifies arena
    ensures forall k: nat, at: nat :: k < |items| && at < |items[k].tokens| ==>
      Scattered(net, prefix, items, arena[..], l, capacity, k, at)
  {
    hide OwnRow, PackOk;
    PackSizes(items, |prefix|, pack);
    for t := 0 to |rows|
      invariant forall s: nat, k: nat, at: nat :: IsToken(items, s, k, at) && s < t ==>
        Scattered(net, prefix, items, arena[..], l, capacity, k, at)
    {
      ghost var k, at := TokenExists(items, t, |items|);
      PackEntry(items, |prefix|, pack, t, k, at);
      AddressInside(items[k].branch, l, at, branches, net.layers, capacity);
      ghost var before := arena[..];
      arena[Address(pack.branch[t], l, pack.local[t], net.layers, capacity)] := rows[t];
      forall s: nat, m: nat, to: nat | IsToken(items, s, m, to) && s < t + 1
        ensures Scattered(net, prefix, items, arena[..], l, capacity, m, to)
      {
        if s < t {
          assert Scattered(net, prefix, items, before, l, capacity, m, to);
          ScatterTargetsDiffer(items, branches, l, net.layers, capacity, t, k, at, s, m, to);
        } else {
          TokenUnique(items, t, k, at, m, to);
        }
      }
    }
    forall k: nat, at: nat | k < |items| && at < |items[k].tokens|
      ensures Scattered(net, prefix, items, arena[..], l, capacity, k, at)
    {
      var t := Begin(items, k) + at;
      assert IsToken(items, t, k, at);
      TokenInside(items, t, k, at);
    }
  }

  lemma PackSizes(items: seq<Item>, prefixLen: nat, p: Pack)
    requires PackOk(items, prefixLen, p)
    ensures |p.ids| == |p.positions| == |p.branch| == |p.local| == Begin(items, |items|)
    ensures |p.offsets| == |items| + 1 && forall k :: 0 <= k <= |items| ==> p.offsets[k] == Begin(items, k)
  {
  }

  lemma PackEntry(items: seq<Item>, prefixLen: nat, p: Pack, t: nat, k: nat, at: nat)
    requires PackOk(items, prefixLen, p) && IsToken(items, t, k, at) && t < |p.ids|
    ensures |p.ids| == |p.positions| == |p.branch| == |p.local| && Describes(items, prefixLen, p, t, k, at)
  {
  }

  // ---------------------------------------------------------------- attention

  /** The two segments a token sees are exactly the rows its own run would have computed up to its position. */
  lemma VisibleIsOwn<H, Q, R>(net: Net<H, Q, R>, prefix: seq<nat>, items: seq<Item>, slab: seq<R>, prefixCapacity: nat,
                              arena: seq<R>, branches: nat, l: nat, capacity: nat, k: nat, at: nat)
    requires Batch(items, branches, capacity) && l < net.layers && |arena| == branches * net.layers * capacity
    requires SlabHolds(net, slab, prefixCapacity, prefix) && k < |items| && at < |items[k].tokens|
    requires forall j: nat :: j < |items[k].tokens| ==> Scattered(net, prefix, items, arena, l, capacity, k, j)
    ensures l * prefixCapacity + |prefix| <= |slab|
    ensures Address(items[k].branch, l, 0, net.layers, capacity) + at + 1 <= |arena|
    ensures Visible(slab, |prefix|, prefixCapacity, arena, items[k].branch, l, at, net.layers, capacity)
      == Rows(net, prefix + items[k].tokens, l, |prefix| + at + 1)
  {
    hide SlabHolds, Batch, Scattered, Hidden, Address;
    var own := prefix + items[k].tokens;
    var base := Address(items[k].branch, l, 0, net.layers, capacity);
    assert l * prefixCapacity + |prefix| <= |slab|
      && slab[l * prefixCapacity..l * prefixCapacity + |prefix|] == Rows(net, prefix, l, |prefix|) by {
      PrefixSegment(net, prefix, slab, prefixCapacity, l);
    }
    RowsOfPrefix(net, prefix, items[k].tokens, l);
    assert base + at + 1 <= |arena| by {
      BatchItem(items, branches, capacity, k);
      AddressInside(items[k].branch, l, at, branches, net.layers, capacity);
      AddressStep(items[k].branch, l, at, net.layers, capacity);
    }
    forall a | base <= a <= base + at ensures arena[a] == Rows(net, own, l, |prefix| + at + 1)[|prefix| + a - base] {
      ScatteredRow(net, prefix, items, arena, branches, l, capacity, k, a - base, |prefix| + at + 1);
    }
    SegmentsJoin(slab[l * prefixCapacity..l * prefixCapacity + |prefix|], arena, base, at,
                 Rows(net, own, l, |prefix| + at + 1),
                 Rows(net, own, l, |prefix|));
  }

  lemma AddressStep(b: nat, l: nat, at: nat, layers: nat, capacity: nat)
    ensures Address(b, l, at, layers, capacity) == Address(b, l, 0, layers, capacity) + at
  {
  }

  /** The row of a scattered token, among the rows of its own run. */
  lemma ScatteredRow<H, Q, R>(net: Net<H, Q, R>, prefix: seq<nat>, items: seq<Item>, arena: seq<R>, branches: nat,
                              l: nat,
                              capacity: nat, k: nat, at: nat, n: nat)
    requires Batch(items, branches, capacity) && l < net.layers && |arena| == branches * net.layers * capacity
    requires k < |items| && at < |items[k].tokens| && Scattered(net, prefix, items, arena, l, capacity, k, at)
    requires |prefix| + at < n <= |prefix + items[k].tokens|
    ensures Address(items[k].branch, l, 0, net.layers, capacity) + at < |arena|
    ensures arena[Address(items[k].branch, l, 0, net.layers, capacity) + at]
      == Rows(net, prefix + items[k].tokens, l, n)[|prefix| + at]
  {
    hide Hidden;
    BatchItem(items, branches, capacity, k);
    AddressInside(items[k].branch, l, at, branches, net.layers, capacity);
    AddressStep(items[k].branch, l, at, net.layers, capacity);
  }

  lemma SegmentsJoin<R>(front: seq<R>, arena: seq<R>, base: nat, at: nat, all: seq<R>, head: seq<R>)
    requires base + at + 1 <= |arena| && |all| == |front| + at + 1 && front == head
    requires |head| == |front| && forall j :: 0 <= j < |head| ==> head[j] == all[j]
    requires forall a :: base <= a <= base + at ==> arena[a] == all[|front| + a - base]
    ensures front + arena[base..base + at + 1] == all
  {
    var back := arena[base..base + at + 1];
    forall i | 0 <= i < |all| ensures (front + back)[i] == all[i] {
      if i >= |front| {
        var a := base + i - |front|;
        assert back[i - |front|] == arena[a] == all[|front| + a - base];
      }
    }
  }

  lemma PrefixSegment<H, Q, R>(net: Net<H, Q, R>, prefix: seq<nat>, slab: seq<R>, prefixCapacity: nat, l: nat)
    requires SlabHolds(net, slab, prefixCapacity, prefix) && l < net.layers
    ensures l * prefixCapacity + |prefix| <= |slab|
    ensures slab[l * prefixCapacity..l * prefixCapacity + |prefix|] == Rows(net, prefix, l, |prefix|)
  {
    LayerInside(l, net.layers, prefixCapacity);
    assert LayerHolds(net, slab, prefixCapacity, prefix, l);
  }

  lemma BatchItem(items: seq<Item>, branches: nat, capacity: nat, k: nat)
    requires Batch(items, branches, capacity) && k < |items|
    ensures items[k].branch < branches && 0 < |items[k].tokens| <= capacity
  {
  }

  /** The first n rows and queries are those of their tokens in their own runs. */
  ghost predicate RowsOk<H, Q, R>(net: Net<H, Q, R>, prefix: seq<nat>, items: seq<Item>, l: nat, queries: seq<Q>,
                                  rows: seq<R>) {
    && |queries| == |rows|
    && forall t: nat, k: nat, at: nat :: IsToken(items, t, k, at) && t < |rows| ==>
         && rows[t] == OwnRow(net, prefix, items, l, k, at)
         && queries[t] == net.query(l, OwnHidden(net, prefix, items, l, k, at), |prefix| + at)
  }

  lemma OneMoreRow<H, Q, R>(net: Net<H, Q, R>, prefix: seq<nat>, items: seq<Item>, l: nat, queries: seq<Q>,
                            rows: seq<R>,
                            k: nat, at: nat)
    requires RowsOk(net, prefix, items, l, queries, rows) && IsToken(items, |rows|, k, at)
    ensures RowsOk(net, prefix, items, l, queries + [net.query(l, OwnHidden(net, prefix, items, l, k, at),
                                                               |prefix| + at)],
                   rows + [OwnRow(net, prefix, items, l, k, at)])
  {
    hide OwnHidden, OwnRow;
    forall m: nat, to: nat | IsToken(items, |rows|, m, to) ensures m == k && to == at {
      TokenUnique(items, |rows|, k, at, m, to);
    }
  }

  /** Norm, projections and rotary embedding, row by row at each token's own position. */
  method RowWise<H, Q, R>(net: Net<H, Q, R>, ghost prefix: seq<nat>, ghost items: seq<Item>, pack: Pack, l: nat,
                          hidden: seq<H>)
    returns (queries: seq<Q>, rows: seq<R>)
    requires PackOk(items, |prefix|, pack) && HiddenOk(net, prefix, items, hidden, l)
    ensures |rows| == |hidden| && RowsOk(net, prefix, items, l, queries, rows)
  {
    hide PackOk, RowsOk, OwnHidden;
    PackSizes(items, |prefix|, pack);
    queries, rows := [], [];
    assert RowsOk(net, prefix, items, l, queries, rows) by {
      NoRows(net, prefix, items, l);
    }
    for t := 0 to |hidden|
      invariant |rows| == t && RowsOk(net, prefix, items, l, queries, rows)
    {
      ghost var k, at := TokenExists(items, t, |items|);
      PackEntry(items, |prefix|, pack, t, k, at);
      OneMoreRow(net, prefix, items, l, queries, rows, k, at);
      queries := queries + [net.query(l, hidden[t], pack.positions[t])];
      rows := rows + [net.row(l, hidden[t], pack.positions[t])];
    }
  }

  lemma NoRows<H, Q, R>(net: Net<H, Q, R>, prefix: seq<nat>, items: seq<Item>, l: nat)
    ensures RowsOk(net, prefix, items, l, [], [])
  {
  }

  /** The first |next| hidden rows of the next layer. */
  ghost predicate NextOk<H, Q, R>(net: Net<H, Q, R>, prefix: seq<nat>, items: seq<Item>, next: seq<H>, l: nat) {
    forall t: nat, k: nat, at: nat :: IsToken(items, t, k, at) && t < |next| ==>
      next[t] == OwnHidden(net, prefix, items, l, k, at)
  }

  lemma OneMoreHidden<H, Q, R>(net: Net<H, Q, R>, prefix: seq<nat>, items: seq<Item>, next: seq<H>, l: nat, k: nat,
                               at: nat)
    requires NextOk(net, prefix, items, next, l) && IsToken(items, |next|, k, at)
    ensures NextOk(net, prefix, items, next + [OwnHidden(net, prefix, items, l, k, at)], l)
  {
    hide OwnHidden;
    forall m: nat, to: nat | IsToken(items, |next|, m, to) ensures m == k && to == at {
      TokenUnique(items, |next|, k, at, m, to);
    }
  }

  /** attention_segmented_kernel and the rest of the layer, token by token. */
  method Attend<H, Q, R>(net: Net<H, Q, R>, ghost prefix: seq<nat>, ghost items: seq<Item>, pack: Pack,
                         slab: seq<R>, prefixLen: nat, prefixCapacity: nat,
                         arena: seq<R>, ghost branches: nat, l: nat, capacity: nat, hidden: seq<H>, queries: seq<Q>,
                         ghost rows: seq<R>)
    returns (next: seq<H>)
    requires Batch(items, branches, capacity) && PackOk(items, |prefix|, pack) && l < net.layers
    requires SlabHolds(net, slab, prefixCapacity, prefix) && prefixLen == |prefix|
    requires |arena| == branches * net.layers * capacity && HiddenOk(net, prefix, items, hidden, l)
    requires |rows| == |hidden| && RowsOk(net, prefix, items, l, queries, rows)
    requires forall k: nat, at: nat :: k < |items| && at < |items[k].tokens| ==>
      Scattered(net, prefix, items, arena, l, capacity, k, at)
    ensures |next| == |hidden| && NextOk(net, prefix, items, next, l + 1)
  {
    hide PackOk, Batch, SlabHolds, Scattered, Visible, OwnHidden, OwnRow, NextOk, Rows;
    PackSizes(items, |prefix|, pack);
    next := [];
    assert NextOk(net, prefix, items, next, l + 1) by {
      NoneNext(net, prefix, items, l + 1);
    }
    for t := 0 to |hidden|
      invariant |next| == t && NextOk(net, prefix, items, next, l + 1)
    {
      ghost var k, at := TokenExists(items, t, |items|);
      PackEntry(items, |prefix|, pack, t, k, at);
      VisibleIsOwn(net, prefix, items, slab, prefixCapacity, arena, branches, l, capacity, k, at);
      var seen := Visible(slab, prefixLen, prefixCapacity, arena, pack.branch[t], l, pack.local[t], net.layers,
                          capacity);
      OwnStep(net, prefix, items, l, k, at, hidden[t], queries[t], seen);
      OneMoreHidden(net, prefix, items, next, l + 1, k, at);
      next := next + [net.block(l, hidden[t], queries[t], seen)];
    }
  }

  lemma NoneNext<H, Q, R>(net: Net<H, Q, R>, prefix: seq<nat>, items: seq<Item>, l: nat)
    ensures NextOk(net, prefix, items, [], l)
  {
  }

  /** run_layer_packed */
  method RunLayerPacked<H, Q, R>(net: Net<H, Q, R>, ghost prefix: seq<nat>, ghost items: seq<Item>, pack: Pack,
                                 slab: seq<R>, prefixLen: nat, prefixCapacity: nat,
                                 arena: array<R>, ghost branches: nat, l: nat, capacity: nat, hidden: seq<H>)
    returns (next: seq<H>)
    requires Batch(items, branches, capacity) && PackOk(items, |prefix|, pack) && l < net.layers
    requires SlabHolds(net, slab, prefixCapacity, prefix) && prefixLen == |prefix|
    requires arena.Length == branches * net.layers * capacity && HiddenOk(net, prefix, items, hidden, l)
    modifies arena
    ensures HiddenOk(net, prefix, items, next, l + 1)
  {
    hide PackOk, Batch, SlabHolds, Scattered, OwnHidden, OwnRow;
    PackSizes(items, |prefix|, pack);
    var queries, rows := RowWise(net, prefix, items, pack, l, hidden);
    Scatter(net, prefix, items, pack, rows, arena, branches, l, capacity);
    next := Attend(net, prefix, items, pack, slab, prefixLen, prefixCapacity, arena[..], branches, l, capacity, hidden,
                   queries, rows);
  }

  lemma OwnStep<H, Q, R>(net: Net<H, Q, R>, prefix: seq<nat>, items: seq<Item>, l: nat, k: nat, at: nat, h: H, q: Q,
                         seen: seq<R>)
    requires k < |items| && at < |items[k].tokens| && h == OwnHidden(net, prefix, items, l, k, at)
    requires q == net.query(l, h, |prefix| + at)
    requires seen == Rows(net, prefix + items[k].tokens, l, |prefix| + at + 1)
    ensures net.block(l, h, q, seen) == OwnHidden(net, prefix, items, l + 1, k, at)
  {
  }

  /**
   * q3_forward_run_packed: whatever the arena held before, each item's gathered row is the last row of the prefix
   * followed by its own suffix, run alone. The prefix slab is only read.
   */
  method RunPacked<H, Q, R>(net: Net<H, Q, R>, ghost prefix: seq<nat>, items: seq<Item>, pack: Pack,
                            slab: seq<R>, prefixLen: nat, prefixCapacity: nat, arena: array<R>, ghost branches: nat,
                            capacity: nat)
    returns (perBranch: seq<H>)
    requires Batch(items, branches, capacity) && PackOk(items, |prefix|, pack)
    requires SlabHolds(net, slab, prefixCapacity, prefix) && prefixLen == |prefix|
    requires arena.Length == branches * net.layers * capacity
    modifies arena
    ensures |perBranch| == |items|
    ensures forall k :: 0 <= k < |items| ==> perBranch[k] == AloneRow(net, prefix, items[k].tokens)
  {
    hide SlabHolds, Scattered, Batch, PackOk, AloneRow;
    PackSizes(items, |prefix|, pack);
    var hidden: seq<H> := seq(|pack.ids|, t requires 0 <= t < |pack.ids| => net.embed(pack.ids[t]));
    assert HiddenOk(net, prefix, items, hidden, 0) by {
      EmbeddingOk(net, prefix, items, pack, hidden);
    }
    for l := 0 to net.layers
      invariant HiddenOk(net, prefix, items, hidden, l)
    {
      hidden := RunLayerPacked(net, prefix, items, pack, slab, prefixLen, prefixCapacity, arena, branches, l, capacity,
                               hidden);
    }
    forall k | 0 <= k < |items| ensures items[k].tokens != [] {
      BatchItem(items, branches, capacity, k);
    }
    perBranch := GatherLastRows(net, prefix, items, pack, hidden);
  }

  /** gather_last_rows_kernel, behind the final normalisation: the row of each item's last token. */
  method GatherLastRows<H, Q, R>(net: Net<H, Q, R>, ghost prefix: seq<nat>, items: seq<Item>, pack: Pack, hidden: seq<H>)
    returns (perBranch: seq<H>)
    requires (forall k :: 0 <= k < |items| ==> items[k].tokens != []) && PackOk(items, |prefix|, pack)
    requires HiddenOk(net, prefix, items, hidden, net.layers)
    ensures |perBranch| == |items|
    ensures forall k :: 0 <= k < |items| ==> perBranch[k] == AloneRow(net, prefix, items[k].tokens)
  {
    hide PackOk, HiddenOk, AloneRow;
    perBranch := [];
    for b := 0 to |items|
      invariant |perBranch| == b && forall k :: 0 <= k < b ==> perBranch[k] == AloneRow(net, prefix, items[k].tokens)
    {
      LastRow(net, prefix, items, pack, hidden, b);
      var last := pack.offsets[b + 1] - 1;
      perBranch := perBranch + [net.final(hidden[last])];
    }
  }

  lemma LastRow<H, Q, R>(net: Net<H, Q, R>, prefix: seq<nat>, items: seq<Item>, pack: Pack, hidden: seq<H>, b: nat)
    requires PackOk(items, |prefix|, pack) && HiddenOk(net, prefix, items, hidden, net.layers)
    requires b < |items| && items[b].tokens != []
    ensures b + 1 < |pack.offsets| && 0 < pack.offsets[b + 1] <= |hidden|
    ensures net.final(hidden[pack.offsets[b + 1] - 1]) == AloneRow(net, prefix, items[b].tokens)
  {
    hide Hidden;
    var last, at := pack.offsets[b + 1] - 1, |items[b].tokens| - 1;
    assert IsToken(items, last, b, at);
    TokenInside(items, last, b, at);
  }

  /** The reference: prefix and suffix in one ordinary run. */
  function AloneRow<H, Q, R>(net: Net<H, Q, R>, prefix: seq<nat>, suffix: seq<nat>): H {
    if prefix + suffix == [] then net.final(net.embed(0)) else RunAlone(net, prefix + suffix)
  }

  lemma EmbeddingOk<H, Q, R>(net: Net<H, Q, R>, prefix: seq<nat>, items: seq<Item>, pack: Pack, hidden: seq<H>)
    requires PackOk(items, |prefix|, pack) && |hidden| == |pack.ids|
    requires forall t :: 0 <= t < |hidden| ==> hidden[t] == net.embed(pack.ids[t])
    ensures HiddenOk(net, prefix, items, hidden, 0)
  {
    forall t: nat, k: nat, at: nat | IsToken(items, t, k, at) && t < |hidden|
      ensures hidden[t] == OwnHidden(net, prefix, items, 0, k, at)
    {
      PackEntry(items, |prefix|, pack, t, k, at);
    }
  }

  // ---------------------------------------------------------------- q3_decide_run

  datatype DecideResult = Accepted | Refused(error: DecideError)

  predicate BadItem(item: Item, capacity: nat, k: nat) {
    |item.tokens| == 0 || |item.tokens| > capacity || |item.candidates| != k
  }

  /** The number of tokens of all items. */
  function TokenTotal(items: seq<Item>): nat {
    if items == [] then 0 else |items[0].tokens| + TokenTotal(items[1..])
  }

  lemma {:induction false} TotalIsBegin(items: seq<Item>, n: nat)
    requires n <= |items|
    ensures Begin(items, n) + TokenTotal(items[n..]) == TokenTotal(items)
  {
    if n == 0 {
      assert items[0..] == items;
    } else {
      TotalIsBegin(items, n - 1);
      assert items[n - 1..][1..] == items[n..];
    }
  }

  /** The item loop of the validation; the token total is a 32-bit sum. */
  method CheckItems(items: seq<Item>, capacity: nat, k: nat) returns (ok: bool, packed: nat)
    ensures ok <==> forall b :: 0 <= b < |items| ==> !BadItem(items[b], capacity, k)
    ensures ok ==> packed == Begin(items, |items|) % U32_MODULUS
  {
    packed := 0;
    for b := 0 to |items|
      invariant packed == Begin(items, b) % U32_MODULUS
      invariant forall j :: 0 <= j < b ==> !BadItem(items[j], capacity, k)
    {
      if |items[b].tokens| == 0 || |items[b].tokens| > capacity || |items[b].candidates| != k {
        return false, 0;
      }
      packed := (packed + |items[b].tokens|) % U32_MODULUS;
    }
    ok := true;
  }

  lemma {:induction false} TotalBound(items: seq<Item>, capacity: nat, n: nat)
    requires n <= |items| && forall b :: 0 <= b < n ==> |items[b].tokens| <= capacity
    ensures Begin(items, n) <= n * capacity
  {
    if n > 0 {
      TotalBound(items, capacity, n - 1);
      assert n * capacity == (n - 1) * capacity + capacity;
    }
  }

  /** The largest logit, the earliest one if there are several. */
  ghost predicate IsArgmax(logits: seq<real>, best: nat) {
    && best < |logits|
    && (forall k :: 0 <= k < |logits| ==> logits[k] <= logits[best])
    && (forall k :: 0 <= k < best ==> logits[k] < logits[best])
  }

  method Argmax(logits: seq<real>) returns (best: nat)
    requires logits != []
    ensures IsArgmax(logits, best)
  {
    best := 0;
    for k := 1 to |logits|
      invariant best < k && (forall j :: 0 <= j < k ==> logits[j] <= logits[best])
      invariant forall j :: 0 <= j < best ==> logits[j] < logits[best]
    {
      if logits[k] > logits[best] {
        best := k;
      }
    }
  }

  /** The result an item would get in a batch of its own, from an ordinary run. */
  ghost predicate OwnOutcome<H, Q, R>(net: Net<H, Q, R>, prefix: seq<nat>, item: Item, r: Outcome) {
    && |r.logits| == |item.candidates|
    && (forall c :: 0 <= c < |r.logits| ==>
          r.logits[c] == net.logit(AloneRow(net, prefix, item.tokens), item.candidates[c]))
    && IsArgmax(r.logits, r.best)
  }

  /** The packed pass and the choice of a candidate for every item. */
  method RunBatch<H, Q, R>(p: PrefixKv<H, Q, R>, arena: array<R>, branches: nat, capacity: nat, items: seq<Item>,
                           pack: Pack)
    returns (results: seq<Outcome>)
    requires p.Valid() && p.Intact() && p.isSealed && arena != p.slab
    requires arena.Length == branches * p.net.layers * capacity
    requires Batch(items, branches, capacity) && PackOk(items, p.tokenCount, pack)
    requires forall k :: 0 <= k < |items| ==> items[k].candidates != []
    modifies arena
    ensures p.Valid() && p.slab[..] == old(p.slab[..])
    ensures |results| == |items|
    ensures forall k :: 0 <= k < |items| ==> OwnOutcome(p.net, p.tokens, items[k], results[k])
  {
    hide SlabHolds, PackOk, AloneRow;
    ghost var slabBefore := p.slab[..];
    var rows := RunPacked(p.net, p.tokens, items, pack, p.slab[..], p.tokenCount, p.capacity, arena, branches,
                          capacity);
    assert p.slab[..] == slabBefore;
    results := [];
    for b := 0 to |items|
      invariant |results| == b && p.slab[..] == slabBefore
      invariant forall k :: 0 <= k < b ==> OwnOutcome(p.net, p.tokens, items[k], results[k])
    {
      var cs := items[b].candidates;
      var h := rows[b];
      var net := p.net;
      var logits := seq(|cs|, c requires 0 <= c < |cs| => net.logit(h, cs[c]));
      var best := Argmax(logits);
      results := results + [Outcome(logits, best)];
    }
  }

  /**
   * q3_decide_run. Handles are distinct, as acquiring them makes them; the code does not check this. The rows of the
   * arena are counted in 32 bits, so the sum of the suffix lengths does not wrap. For every sealed and intact prefix
   * and any ragged suffixes, each accepted item gets the logits of the prefix and its own suffix run alone: no result
   * depends on another item or on what the arena held before. The prefix is not modified.
   *
   * The six checks are made in this order: the number of items, the seal, the number of candidates, each item, the
   * token total, the handles. Each refusal means that its own check fails and those before it pass.
   */
  method DecideRun<H, Q, R>(p: PrefixKv<H, Q, R>, arena: array<R>, branches: nat, capacity: nat, items: seq<Item>)
    returns (status: DecideResult, results: seq<Outcome>)
    requires p.Valid() && p.Intact() && arena != p.slab && arena.Length == branches * p.net.layers * capacity
    requires branches * capacity < U32_MODULUS
    requires forall j, k :: 0 <= j < k < |items| ==> items[j].branch != items[k].branch
    modifies arena
    ensures status == Accepted <==>
      && 1 <= |items| <= 32 && |items| <= branches && p.isSealed && 1 <= |items[0].candidates| <= 30
      && (forall k :: 0 <= k < |items| ==>
            1 <= |items[k].tokens| <= capacity && |items[k].candidates| == |items[0].candidates|)
      && TokenTotal(items) <= p.maxTokens
      && forall k :: 0 <= k < |items| ==> items[k].branch < branches
    ensures status == Refused(BadBranchCount) <==> !(1 <= |items| <= 32 && |items| <= branches)
    ensures status == Refused(NotSealed) <==> 1 <= |items| <= 32 && |items| <= branches && !p.isSealed
    ensures status == Refused(BadCandidateCount) <==>
      && 1 <= |items| <= 32 && |items| <= branches && p.isSealed
      && !(1 <= |items[0].candidates| <= 30)
    ensures status == Refused(InvalidItem) <==>
      && 1 <= |items| <= 32 && |items| <= branches && p.isSealed && 1 <= |items[0].candidates| <= 30
      && exists k :: 0 <= k < |items|
           && !(1 <= |items[k].tokens| <= capacity && |items[k].candidates| == |items[0].candidates|)
    ensures status == Refused(BatchTooLarge) <==>
      && 1 <= |items| <= 32 && |items| <= branches && p.isSealed && 1 <= |items[0].candidates| <= 30
      && (forall k :: 0 <= k < |items| ==>
            1 <= |items[k].tokens| <= capacity && |items[k].candidates| == |items[0].candidates|)
      && TokenTotal(items) > p.maxTokens
    ensures status == Refused(InvalidHandle) <==>
      && 1 <= |items| <= 32 && |items| <= branches && p.isSealed && 1 <= |items[0].candidates| <= 30
      && (forall k :: 0 <= k < |items| ==>
            1 <= |items[k].tokens| <= capacity && |items[k].candidates| == |items[0].candidates|)
      && TokenTotal(items) <= p.maxTokens
      && exists k :: 0 <= k < |items| && items[k].branch >= branches
    ensures p.Valid() && p.slab[..] == old(p.slab[..])
    ensures status != Accepted ==> results == [] && arena[..] == old(arena[..])
    ensures status == Accepted ==> |results| == |items|
    ensures status == Accepted ==> forall k :: 0 <= k < |items| ==> OwnOutcome(p.net, p.tokens, items[k], results[k])
  {
    hide SlabHolds, PackOk, OwnOutcome;
    results := [];
    if |items| == 0 || |items| > MAX_BRANCHES || |items| > branches {
      return Refused(BadBranchCount), [];
    }
    if !p.isSealed {
      return Refused(NotSealed), [];
    }
    var count := |items[0].candidates|;
    if count == 0 || count > MAX_CANDIDATES {
      return Refused(BadCandidateCount), [];
    }
    var ok, packed := CheckItems(items, capacity, count);
    if !ok {
      return Refused(InvalidItem), [];
    }
    TotalIsBegin(items, |items|);
    assert packed == Begin(items, |items|) == TokenTotal(items) by {
      assert forall b :: 0 <= b < |items| ==> !BadItem(items[b], capacity, count) ==> |items[b].tokens| <= capacity;
      TotalBound(items, capacity, |items|);
      TimesMonotone(|items|, branches, capacity);
    }
    if packed > p.maxTokens {
      return Refused(BatchTooLarge), [];
    }
    var pack;
    ok, pack := PackItems(items, p.tokenCount, branches);
    if !ok {
      return Refused(InvalidHandle), [];
    }
    assert forall k :: 0 <= k < |items| ==> !BadItem(items[k], capacity, count);
    assert Batch(items, branches, capacity);
    results := RunBatch(p, arena, branches, capacity, items, pack);
    status := Accepted;
  }
}
