/**
 * The transformer forward pass with uninterpreted row-wise operations (src/q3_forward.cu). H is a hidden row, Q a
 * query, R the key and value of one position.
 */
module Forward {

  /**
   * query and row stand for norm, projection and rotary embedding at an absolute position; block for attention over the
   * visible rows followed by everything up to the end of the layer; logit for one row of the output head.
   */
  datatype Net<!H, !Q, !R> = Net(
    layers: nat,
    embed: nat -> H,
    query: (nat, H, nat) -> Q,
    row: (nat, H, nat) -> R,
    block: (nat, H, Q, seq<R>) -> H,
    final: H -> H,
    logit: (H, nat) -> real)

  /** The hidden row of position i after l layers when `toks` is run by itself. */
  function Hidden<H, Q, R>(net: Net<H, Q, R>, toks: seq<nat>, l: nat, i: nat): H
    requires i < |toks|
    decreases l, 0
  {
    if l == 0 then net.embed(toks[i])
    else
      var h := Hidden(net, toks, l - 1, i);
      net.block(l - 1, h, net.query(l - 1, h, i), Rows(net, toks, l - 1, i + 1))
  }

  /** The key and value rows that layer l computes for the first n positions. */
  function Rows<H, Q, R>(net: Net<H, Q, R>, toks: seq<nat>, l: nat, n: nat): (r: seq<R>)
    requires n <= |toks|
    ensures |r| == n
    decreases l, 1
  {
    seq(n, j requires 0 <= j < n => net.row(l, Hidden(net, toks, l, j), j))
  }

  /** The last row, as the output head sees it. */
  function RunAlone<H, Q, R>(net: Net<H, Q, R>, toks: seq<nat>): H
    requires toks != []
  {
    net.final(Hidden(net, toks, net.layers, |toks| - 1))
  }

  /** Causality: a position depends on nothing behind it. */
  lemma {:induction false} Causal<H, Q, R>(net: Net<H, Q, R>, a: seq<nat>, b: seq<nat>, l: nat, n: nat)
    requires n <= |a| && n <= |b| && a[..n] == b[..n]
    ensures forall i :: 0 <= i < n ==> Hidden(net, a, l, i) == Hidden(net, b, l, i)
    ensures Rows(net, a, l, n) == Rows(net, b, l, n)
    decreases l
  {
    forall i | 0 <= i < n ensures Hidden(net, a, l, i) == Hidden(net, b, l, i) {
      if l == 0 {
        assert a[..n][i] == b[..n][i];
      } else {
        assert a[..i + 1] == a[..n][..i + 1] && b[..i + 1] == b[..n][..i + 1];
        Causal(net, a, b, l - 1, i + 1);
      }
    }
  }

  /** The rows of a longer run start with the rows of the shorter one. */
  lemma RowsOfPrefix<H, Q, R>(net: Net<H, Q, R>, a: seq<nat>, b: seq<nat>, l: nat)
    ensures Rows(net, a + b, l, |a|) == Rows(net, a, l, |a|)
  {
    assert (a + b)[..|a|] == a[..|a|];
    Causal(net, a + b, a, l, |a|);
  }

  // ---------------------------------------------------------------- addresses

  /** Row p of layer l of branch b in an arena [branches][layers][capacity] (the prefix slab is branch 0). */
  function Address(b: nat, l: nat, p: nat, layers: nat, capacity: nat): nat { (b * layers + l) * capacity + p }

  lemma LessTimes(a: nat, b: nat, n: nat)
    requires a < b
    ensures a * n + n <= b * n
  {
    TimesMonotone(a + 1, b, n);
    assert (a + 1) * n == a * n + n;
  }

  lemma TimesMonotone(a: nat, b: nat, n: nat)
    requires a <= b
    ensures a * n <= b * n
  {
  }

  lemma MixedRadix(a: nat, i: nat, b: nat, j: nat, n: nat)
    requires i < n && j < n && a * n + i == b * n + j
    ensures a == b && i == j
  {
    if a < b {
      LessTimes(a, b, n);
    } else if b < a {
      LessTimes(b, a, n);
    }
  }

  /** Different (branch, layer, position) triples have different addresses. */
  lemma AddressInjective(b: nat, l: nat, p: nat, c: nat, m: nat, q: nat, layers: nat, capacity: nat)
    requires l < layers && m < layers && p < capacity && q < capacity
    requires Address(b, l, p, layers, capacity) == Address(c, m, q, layers, capacity)
    ensures b == c && l == m && p == q
  {
    MixedRadix(b * layers + l, p, c * layers + m, q, capacity);
    MixedRadix(b, l, c, m, layers);
  }

  lemma BelowProduct(a: nat, i: nat, n: nat, m: nat)
    requires a < n && i < m
    ensures a * m + i < n * m
  {
    LessTimes(a, n, m);
  }

  /** Every address of a branch below the branch count is inside the arena. */
  lemma AddressInside(b: nat, l: nat, p: nat, branches: nat, layers: nat, capacity: nat)
    requires b < branches && l < layers && p < capacity
    ensures Address(b, l, p, layers, capacity) < branches * layers * capacity
  {
    BelowProduct(b, l, branches, layers);
    BelowProduct(b * layers + l, p, branches * layers, capacity);
  }
}
