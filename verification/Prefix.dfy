/** The shared prefix (src/q3_decide.cu): prefill into an owned slab, then seal. */
module Prefix {
  import opened Wrappers
  import opened Forward

  datatype PrefixError = InvalidArgument | AlreadySealed | ExceedsCapacity | ExceedsRuntime | ForwardFailed

  /** The slab holds the rows of `toks` for every layer. */
  ghost predicate SlabHolds<H, Q, R>(net: Net<H, Q, R>, slab: seq<R>, capacity: nat, toks: seq<nat>) {
    && |slab| == net.layers * capacity && |toks| <= capacity
    && forall l: nat :: l < net.layers ==> LayerHolds(net, slab, capacity, toks, l)
  }

  ghost predicate LayerHolds<H, Q, R>(net: Net<H, Q, R>, slab: seq<R>, capacity: nat, toks: seq<nat>, l: nat)
    requires |slab| == net.layers * capacity && |toks| <= capacity && l < net.layers
  {
    LayerInside(l, net.layers, capacity);
    slab[l * capacity..l * capacity + |toks|] == Rows(net, toks, l, |toks|)
  }

  lemma LayerInside(l: nat, layers: nat, capacity: nat)
    requires l < layers
    ensures l * capacity + capacity <= layers * capacity
  {
    assert (l + 1) * capacity <= layers * capacity;
  }

  /** All rows of layer l, used or not. */
  function LayerRows<R>(slab: seq<R>, capacity: nat, layers: nat, l: nat): (r: seq<R>)
    requires |slab| == layers * capacity && l < layers
    ensures |r| == capacity
  {
    LayerInside(l, layers, capacity);
    slab[l * capacity..l * capacity + capacity]
  }

  // ---------------------------------------------------------------- what a prefill leaves in the slab

  /** The number of layers whose rows are written when layer failAt fails, before or after it appends its rows. */
  function Written(failAt: nat, appended: bool, layers: nat): (w: nat)
    ensures w <= layers
  {
    if failAt >= layers then layers else if appended then failAt + 1 else failAt
  }

  /** The first w layers hold the rows of toks in front of their old rows; the other layers are as before. */
  ghost predicate Refilled<H, Q, R>(net: Net<H, Q, R>, before: seq<R>, after: seq<R>, capacity: nat, toks: seq<nat>,
                                    w: nat)
    requires |before| == |after| == net.layers * capacity && |toks| <= capacity
  {
    forall l: nat :: l < net.layers ==> LayerRefilled(net, before, after, capacity, toks, l, w)
  }

  ghost predicate LayerRefilled<H, Q, R>(net: Net<H, Q, R>, before: seq<R>, after: seq<R>, capacity: nat,
                                         toks: seq<nat>, l: nat, w: nat)
    requires |before| == |after| == net.layers * capacity && |toks| <= capacity && l < net.layers
  {
    LayerRows(after, capacity, net.layers, l)
      == if l < w then Rows(net, toks, l, |toks|) + LayerRows(before, capacity, net.layers, l)[|toks|..]
         else LayerRows(before, capacity, net.layers, l)
  }

  lemma LayerHoldsRows<H, Q, R>(net: Net<H, Q, R>, slab: seq<R>, capacity: nat, toks: seq<nat>, l: nat)
    requires |slab| == net.layers * capacity && |toks| <= capacity && l < net.layers
    ensures LayerHolds(net, slab, capacity, toks, l)
      <==> LayerRows(slab, capacity, net.layers, l)[..|toks|] == Rows(net, toks, l, |toks|)
  {
    hide Rows;
    LayerInside(l, net.layers, capacity);
    SliceOfSlice(slab, l * capacity, l * capacity + capacity, 0, |toks|);
  }

  /** A cell write inside one layer leaves the other layers alone. */
  lemma OtherLayerKept<R>(before: seq<R>, after: seq<R>, capacity: nat, layers: nat, m: nat, l: nat)
    requires |before| == |after| == layers * capacity && m < layers && l < layers && m != l
    requires forall a :: 0 <= a < |after| && !(l * capacity <= a < l * capacity + capacity) ==> after[a] == before[a]
    ensures LayerRows(after, capacity, layers, m) == LayerRows(before, capacity, layers, m)
  {
    LayerInside(m, layers, capacity);
    if m < l {
      LayerInside(m, l, capacity);
    } else {
      LayerInside(l, m, capacity);
    }
  }

  /** The copy of rows to the front of layer l. */
  lemma LayerWritten<H, Q, R>(net: Net<H, Q, R>, before: seq<R>, after: seq<R>, capacity: nat, toks: seq<nat>, l: nat)
    requires |before| == |after| == net.layers * capacity && |toks| <= capacity && l < net.layers
    requires LayerHolds(net, after, capacity, toks, l)
    requires forall a :: 0 <= a < |after| && !(l * capacity <= a < l * capacity + |toks|) ==> after[a] == before[a]
    ensures LayerRefilled(net, before, after, capacity, toks, l, l + 1)
  {
    hide LayerHolds;
    LayerInside(l, net.layers, capacity);
    LayerHoldsRows(net, after, capacity, toks, l);
    var was, now := LayerRows(before, capacity, net.layers, l), LayerRows(after, capacity, net.layers, l);
    assert now[|toks|..] == was[|toks|..];
    assert now == now[..|toks|] + now[|toks|..];
  }

  /** One more layer is written. */
  lemma RefilledNext<H, Q, R>(net: Net<H, Q, R>, start: seq<R>, before: seq<R>, after: seq<R>, capacity: nat,
                              toks: seq<nat>, l: nat)
    requires |start| == |before| == |after| == net.layers * capacity && |toks| <= capacity && l < net.layers
    requires Refilled(net, start, before, capacity, toks, l) && LayerHolds(net, after, capacity, toks, l)
    requires forall a :: 0 <= a < |after| && !(l * capacity <= a < l * capacity + |toks|) ==> after[a] == before[a]
    ensures Refilled(net, start, after, capacity, toks, l + 1)
  {
    hide LayerHolds, Rows, LayerRows;
    LayerWritten(net, before, after, capacity, toks, l);
    var w := l + 1;
    forall m: nat | m < net.layers ensures LayerRefilled(net, start, after, capacity, toks, m, w) {
      assert LayerRefilled(net, start, before, capacity, toks, m, l);
      if m != l {
        OtherLayerKept(before, after, capacity, net.layers, m, l);
      }
    }
  }

  /** After the last layer the slab holds the rows of all layers. */
  lemma RefilledHolds<H, Q, R>(net: Net<H, Q, R>, before: seq<R>, after: seq<R>, capacity: nat, toks: seq<nat>)
    requires |before| == |after| == net.layers * capacity && |toks| <= capacity
    requires Refilled(net, before, after, capacity, toks, net.layers)
    ensures SlabHolds(net, after, capacity, toks)
  {
    hide LayerHolds, Rows;
    forall l: nat | l < net.layers ensures LayerHolds(net, after, capacity, toks, l) {
      assert LayerRefilled(net, before, after, capacity, toks, l, net.layers);
      LayerHoldsRows(net, after, capacity, toks, l);
    }
  }

  // ---------------------------------------------------------------- exactly when a failed refill does harm

  function Shorter(a: seq<nat>, b: seq<nat>): (n: nat)
    ensures n <= |a| && n <= |b| && (n == |a| || n == |b|)
  {
    if |a| <= |b| then |a| else |b|
  }

  /** In the first w layers the two token lists have the same rows, as far as both go. */
  ghost predicate RowsAgree<H, Q, R>(net: Net<H, Q, R>, a: seq<nat>, b: seq<nat>, w: nat) {
    forall l: nat :: l < w ==> Rows(net, a, l, Shorter(a, b)) == Rows(net, b, l, Shorter(a, b))
  }

  /** The tokens agree as far as both lists go. */
  predicate TokensAgree(a: seq<nat>, b: seq<nat>) { a[..Shorter(a, b)] == b[..Shorter(a, b)] }

  lemma RowsFront<H, Q, R>(net: Net<H, Q, R>, toks: seq<nat>, l: nat, n: nat, m: nat)
    requires n <= m <= |toks|
    ensures Rows(net, toks, l, m)[..n] == Rows(net, toks, l, n)
  {
  }

  /** A written layer still holds the old tokens' rows if and only if the new rows over them are the same. */
  lemma WrittenLayerHoldsIff<H, Q, R>(net: Net<H, Q, R>, before: seq<R>, after: seq<R>, capacity: nat, kept: seq<nat>,
                                      toks: seq<nat>, l: nat, w: nat)
    requires |before| == |after| == net.layers * capacity && |toks| <= capacity && |kept| <= capacity && l < net.layers
    requires LayerHolds(net, before, capacity, kept, l) && LayerRefilled(net, before, after, capacity, toks, l, w)
      && l < w
    ensures LayerHolds(net, after, capacity, kept, l)
      <==> Rows(net, kept, l, Shorter(kept, toks)) == Rows(net, toks, l, Shorter(kept, toks))
  {
    hide LayerHolds, Rows, LayerRows;
    var n := Shorter(kept, toks);
    LayerHoldsRows(net, before, capacity, kept, l);
    LayerHoldsRows(net, after, capacity, kept, l);
    var first, now := LayerRows(before, capacity, net.layers, l), LayerRows(after, capacity, net.layers, l);
    var mine, theirs := Rows(net, kept, l, |kept|), Rows(net, toks, l, |toks|);
    RowsFront(net, kept, l, n, |kept|);
    RowsFront(net, toks, l, n, |toks|);
    assert now[..n] == theirs[..n];
    assert now[n..|kept|] == first[n..|kept|] == mine[n..];
    assert now[..|kept|] == theirs[..n] + mine[n..];
    assert now[..|kept|][..n] == theirs[..n];
    assert mine == mine[..n] + mine[n..];
  }

  /**
   * A slab that held the rows of kept still holds them after a refill that stopped early, if and only if the rows of
   * the two token lists agree in the written layers.
   */
  lemma StillHoldsIff<H, Q, R>(net: Net<H, Q, R>, before: seq<R>, after: seq<R>, capacity: nat, kept: seq<nat>,
                               toks: seq<nat>, w: nat)
    requires |before| == |after| == net.layers * capacity && |toks| <= capacity && w <= net.layers
    requires SlabHolds(net, before, capacity, kept) && Refilled(net, before, after, capacity, toks, w)
    ensures SlabHolds(net, after, capacity, kept) <==> RowsAgree(net, kept, toks, w)
  {
    hide LayerHolds, Rows, LayerRefilled;
    var n := Shorter(kept, toks);
    forall l: nat | l < net.layers
      ensures LayerHolds(net, after, capacity, kept, l) <==> l >= w || Rows(net, kept, l, n) == Rows(net, toks, l, n)
    {
      assert LayerRefilled(net, before, after, capacity, toks, l, w);
      if l < w {
        WrittenLayerHoldsIff(net, before, after, capacity, kept, toks, l, w);
      } else {
        LayerHoldsRows(net, before, capacity, kept, l);
        LayerHoldsRows(net, after, capacity, kept, l);
        assert LayerRows(after, capacity, net.layers, l) == LayerRows(before, capacity, net.layers, l) by {
          UnwrittenLayer(net, before, after, capacity, toks, l, w);
        }
      }
    }
    if SlabHolds(net, after, capacity, kept) {
      forall l: nat | l < w ensures Rows(net, kept, l, n) == Rows(net, toks, l, n) {
        assert LayerHolds(net, after, capacity, kept, l);
      }
    }
  }

  lemma UnwrittenLayer<H, Q, R>(net: Net<H, Q, R>, before: seq<R>, after: seq<R>, capacity: nat, toks: seq<nat>, l: nat,
                                w: nat)
    requires |before| == |after| == net.layers * capacity && |toks| <= capacity && l < net.layers
    requires LayerRefilled(net, before, after, capacity, toks, l, w) && w <= l
    ensures LayerRows(after, capacity, net.layers, l) == LayerRows(before, capacity, net.layers, l)
  {
  }

  /** What a caller can check before the call: if the tokens agree, so do the rows of every layer. */
  lemma AgreeingTokensAgreeInRows<H, Q, R>(net: Net<H, Q, R>, a: seq<nat>, b: seq<nat>, w: nat)
    requires TokensAgree(a, b)
    ensures RowsAgree(net, a, b, w)
  {
    forall l: nat | l < w ensures Rows(net, a, l, Shorter(a, b)) == Rows(net, b, l, Shorter(a, b)) {
      Causal(net, a, b, l, Shorter(a, b));
    }
  }

  /** Different tokens have different rows at every position of the first layer. */
  ghost predicate TellsTokensApart<H, Q, R>(net: Net<H, Q, R>) {
    forall t: nat, u: nat, i: nat :: net.row(0, net.embed(t), i) == net.row(0, net.embed(u), i) ==> t == u
  }

  /** For a network that tells tokens apart the condition is exact: some layer is written and the tokens differ. */
  lemma RowsAgreeIffTokensAgree<H, Q, R>(net: Net<H, Q, R>, a: seq<nat>, b: seq<nat>, w: nat)
    requires TellsTokensApart(net)
    ensures RowsAgree(net, a, b, w) <==> w == 0 || TokensAgree(a, b)
  {
    var n := Shorter(a, b);
    if TokensAgree(a, b) {
      AgreeingTokensAgreeInRows(net, a, b, w);
    } else if RowsAgree(net, a, b, w) && w > 0 {
      forall i | 0 <= i < n ensures a[..n][i] == b[..n][i] {
        assert Rows(net, a, 0, n)[i] == Rows(net, b, 0, n)[i];
        assert Hidden(net, a, 0, i) == net.embed(a[i]) && Hidden(net, b, 0, i) == net.embed(b[i]);
      }
      assert false;
    }
  }

  class PrefixKv<H, Q, R> {
    const net: Net<H, Q, R>
    const capacity: nat
    const maxTokens: nat
    const slab: array<R>
    var tokenCount: nat
    var isSealed: bool
    /** The tokens of the last successful prefill. */
    ghost var tokens: seq<nat>

    ghost predicate Valid()
      reads this
    {
      && slab.Length == net.layers * capacity && tokenCount <= capacity && |tokens| == tokenCount
      && (isSealed ==> tokenCount > 0)
    }

    /** The slab holds the rows of the tokens it is counted for. */
    ghost predicate Intact()
      reads this, slab
    {
      tokenCount > 0 ==> SlabHolds(net, slab[..], capacity, tokens)
    }

    /** The slab arrives with arbitrary contents. */
    constructor (net: Net<H, Q, R>, capacity: nat, maxTokens: nat, slab: array<R>)
      requires capacity > 0 && slab.Length == net.layers * capacity
      ensures Valid() && tokenCount == 0 && !isSealed && Intact()
      ensures this.net == net && this.capacity == capacity && this.maxTokens == maxTokens && this.slab == slab
    {
      this.net, this.capacity, this.maxTokens, this.slab := net, capacity, maxTokens, slab;
      tokenCount, isSealed, tokens := 0, false, [];
    }

    /**
     * q3_prefix_prefill. `failAt` is the layer in which the forward pass fails, if it does; `appended` tells whether
     * that layer has appended its rows by then. It may be called again before the seal. A failure inside the forward
     * pass leaves the old count over the rows of the layers written so far: an intact prefix stays intact if and only
     * if those rows agree with its own, in particular whenever the token lists agree as far as both go.
     */
    method Prefill(toks: seq<nat>, failAt: nat, appended: bool) returns (error: PrefillResult)
      requires Valid()
      modifies this`tokenCount, this`tokens, slab
      ensures Valid()
      ensures error == PrefillOutcome(toks, old(isSealed), capacity, maxTokens, failAt, net.layers)
      ensures error == Done ==> tokenCount == |toks| && tokens == toks && Intact()
      ensures error != Done ==> tokenCount == old(tokenCount) && tokens == old(tokens)
      ensures error.Rejected? && error.error != ForwardFailed ==> slab[..] == old(slab[..])
      ensures error == Done || error == Rejected(ForwardFailed) ==>
        && 0 < |toks| <= capacity
        && Refilled(net, old(slab[..]), slab[..], capacity, toks, Written(failAt, appended, net.layers))
      ensures error == Rejected(ForwardFailed) && old(Intact()) ==>
        && (Intact() <==> tokenCount == 0 || RowsAgree(net, tokens, toks, Written(failAt, appended, net.layers)))
        && (TokensAgree(tokens, toks) ==> Intact())
    {
      hide SlabHolds, Refilled, RowsAgree, TokensAgree;
      if |toks| == 0 {
        return Rejected(InvalidArgument);
      }
      if isSealed {
        return Rejected(AlreadySealed);
      }
      if |toks| > capacity {
        return Rejected(ExceedsCapacity);
      }
      if |toks| > maxTokens {
        return Rejected(ExceedsRuntime);
      }
      ghost var before := slab[..];
      ghost var w := Written(failAt, appended, net.layers);
      var ok := RunRange(toks, failAt, appended);
      if !ok {
        if tokenCount > 0 && SlabHolds(net, before, capacity, tokens) {
          StillHoldsIff(net, before, slab[..], capacity, tokens, toks, w);
          if TokensAgree(tokens, toks) {
            AgreeingTokensAgreeInRows(net, tokens, toks, w);
          }
        }
        return Rejected(ForwardFailed);
      }
      RefilledHolds(net, before, slab[..], capacity, toks);
      tokenCount, tokens := |toks|, toks;
      return Done;
    }

    /** q3_forward_run_range over all layers, writing rows through the aliasing cache. */
    method RunRange(toks: seq<nat>, failAt: nat, appended: bool) returns (ok: bool)
      requires slab.Length == net.layers * capacity && 0 < |toks| <= capacity
      modifies slab
      ensures ok <==> failAt >= net.layers
      ensures Refilled(net, old(slab[..]), slab[..], capacity, toks, Written(failAt, appended, net.layers))
    {
      ghost var before := slab[..];
      var hidden: seq<H> := seq(|toks|, i requires 0 <= i < |toks| => net.embed(toks[i]));
      for l := 0 to net.layers
        invariant |hidden| == |toks| && l <= failAt
        invariant forall i :: 0 <= i < |toks| ==> hidden[i] == Hidden(net, toks, l, i)
        invariant Refilled(net, before, slab[..], capacity, toks, l)
      {
        ok, hidden := RunLayer(toks, l, hidden, l == failAt, appended, before);
        if !ok {
          return false;
        }
      }
      return true;
    }

    /**
     * run_layer: rows of the whole chunk are appended first, then each position attends to the rows up to its own. It
     * may fail before or after the append.
     */
    method RunLayer(toks: seq<nat>, l: nat, hidden: seq<H>, fails: bool, appended: bool, ghost start: seq<R>)
      returns (ok: bool, next: seq<H>)
      requires slab.Length == net.layers * capacity && |toks| <= capacity && l < net.layers && |hidden| == |toks|
      requires forall i :: 0 <= i < |toks| ==> hidden[i] == Hidden(net, toks, l, i)
      requires |start| == slab.Length && Refilled(net, start, slab[..], capacity, toks, l)
      modifies slab
      ensures ok == !fails
      ensures Refilled(net, start, slab[..], capacity, toks, if fails && !appended then l else l + 1)
      ensures ok ==> |next| == |toks| && forall i :: 0 <= i < |toks| ==> next[i] == Hidden(net, toks, l + 1, i)
    {
      hide LayerHolds, Rows, Hidden, Refilled;
      next := [];
      if fails && !appended {
        return false, [];
      }
      ghost var before := slab[..];
      AppendRows(toks, l, hidden);
      RefilledNext(net, start, before, slab[..], capacity, toks, l);
      if fails {
        return false, [];
      }
      next := AttendLayer(toks, l, hidden);
      ok := true;
    }

    /** The copy of a layer's rows into the cache. */
    method AppendRows(toks: seq<nat>, l: nat, hidden: seq<H>)
      requires slab.Length == net.layers * capacity && |toks| <= capacity && l < net.layers && |hidden| == |toks|
      requires forall i :: 0 <= i < |toks| ==> hidden[i] == Hidden(net, toks, l, i)
      modifies slab
      ensures LayerHolds(net, slab[..], capacity, toks, l)
      ensures forall a :: 0 <= a < slab.Length && !(l * capacity <= a < l * capacity + |toks|) ==>
        slab[a] == old(slab[a])
    {
      LayerInside(l, net.layers, capacity);
      var base := l * capacity;
      ghost var rows := Rows(net, toks, l, |toks|);
      for j := 0 to |toks|
        invariant slab[base..base + j] == rows[..j]
        invariant forall a :: 0 <= a < slab.Length && !(base <= a < base + j) ==> slab[a] == old(slab[a])
      {
        slab[base + j] := net.row(l, hidden[j], j);
      }
      assert slab[..][base..base + |toks|] == rows;
    }

    /** Each position attends to the rows of the layer up to its own. */
    method AttendLayer(toks: seq<nat>, l: nat, hidden: seq<H>) returns (next: seq<H>)
      requires slab.Length == net.layers * capacity && |toks| <= capacity && l < net.layers && |hidden| == |toks|
      requires forall i :: 0 <= i < |toks| ==> hidden[i] == Hidden(net, toks, l, i)
      requires LayerHolds(net, slab[..], capacity, toks, l)
      ensures |next| == |toks| && forall i :: 0 <= i < |toks| ==> next[i] == Hidden(net, toks, l + 1, i)
    {
      LayerInside(l, net.layers, capacity);
      var base := l * capacity;
      ghost var rows := Rows(net, toks, l, |toks|);
      assert slab[base..base + |toks|] == rows;
      next := [];
      for i := 0 to |toks|
        invariant |next| == i && forall k :: 0 <= k < i ==> next[k] == Hidden(net, toks, l + 1, k)
      {
        var visible := slab[base..base + i + 1];
        assert visible == slab[base..base + |toks|][..i + 1];
        assert rows[..i + 1] == Rows(net, toks, l, i + 1);
        next := next + [net.block(l, hidden[i], net.query(l, hidden[i], i), visible)];
      }
    }

    /** q3_prefix_seal */
    method Seal() returns (ok: bool)
      requires Valid()
      modifies this`isSealed
      ensures Valid() && ok == (tokenCount > 0) && isSealed == (old(isSealed) || ok)
    {
      if tokenCount == 0 {
        return false;
      }
      isSealed := true;
      return true;
    }
  }

  lemma FirstRow<H, Q, R>(net: Net<H, Q, R>, toks: seq<nat>)
    requires toks != []
    ensures Rows(net, toks, 0, 1)[0] == net.row(0, net.embed(toks[0]), 0)
  {
    assert Hidden(net, toks, 0, 0) == net.embed(toks[0]);
  }

  /**
   * A prefix can be sealed over rows that are not its own: a second prefill before the seal that fails in a later layer
   * has overwritten the earlier layers, while the count of the first one stays and lets the seal pass.
   */
  method SealedOverForeignRows() returns (p: PrefixKv<nat, nat, nat>)
    ensures p.Valid() && p.isSealed && p.tokens == [1] && !p.Intact()
  {
    var net: Net<nat, nat, nat> := Net(2, t => t, (l, h, i) => h, (l, h, i) => h, (l, h, q, rows) => h,
                                       h => h, (h, c) => 0.0);
    var slab := new nat[2](_ => 0);
    p := new PrefixKv(net, 1, 1, slab);
    var first := p.Prefill([1], 2, false);
    ghost var before := slab[..];
    var second := p.Prefill([2], 1, false);
    var ok := p.Seal();
    assert LayerHolds(net, slab[..], 1, [2], 0) by {
      assert LayerRefilled(net, before, slab[..], 1, [2], 0, 1);
      LayerHoldsRows(net, slab[..], 1, [2], 0);
    }
    FirstRow(net, [1]);
    FirstRow(net, [2]);
    assert slab[..][0..1] == Rows(net, [2], 0, 1) && Rows(net, [2], 0, 1)[0] == 2;
    assert slab[0] == 2;
    assert Rows(net, [1], 0, 1)[0] == 1;
    assert !LayerHolds(net, slab[..], 1, [1], 0) by {
      assert slab[..][0..1][0] == 2;
    }
  }

  datatype PrefillResult = Done | Rejected(error: PrefixError)

  /** A sealed prefix rejects every further prefill, so its length and its rows are final. */
  function PrefillOutcome(toks: seq<nat>, isSealed: bool, capacity: nat, maxTokens: nat, failAt: nat, layers: nat)
    : PrefillResult
  {
    if |toks| == 0 then Rejected(InvalidArgument)
    else if isSealed then Rejected(AlreadySealed)
    else if |toks| > capacity then Rejected(ExceedsCapacity)
    else if |toks| > maxTokens then Rejected(ExceedsRuntime)
    else if failAt < layers then Rejected(ForwardFailed)
    else Done
  }
}
