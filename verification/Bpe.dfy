/** Byte-pair merging (encode_piece in src/q3_tokenizer.c): the in-place loop and the rule it follows. */
module Bpe {
  import opened Wrappers
  import opened CStrings
  import opened ByteLevel

  const INT_MAX: nat := 0x7fff_ffff

  // ---------------------------------------------------------------- ranks

  /** The text of a merge rule for a pair of symbols. */
  function PairText(a: cstr, b: cstr): cstr { a + [SPACE] + b }

  /** The position of x in the list, from position i on. */
  function IndexFrom(xs: seq<cstr>, x: cstr, i: nat): (r: Option<nat>)
    requires i <= |xs|
    ensures r.Some? ==> i <= r.value < |xs| && xs[r.value] == x && x !in xs[i..r.value]
    ensures r.None? ==> x !in xs[i..]
    decreases |xs| - i
  {
    if i == |xs| then None
    else if xs[i] == x then Some(i)
    else IndexFrom(xs, x, i + 1)
  }

  /** The rank of a pair: the index of its rule, counted over the loaded merge list. */
  function Rank(merges: seq<cstr>, a: cstr, b: cstr): Option<nat> { IndexFrom(merges, PairText(a, b), 0) }

  /** mrank, with None for -1 */
  method MergeRank(merges: seq<cstr>, a: cstr, b: cstr) returns (r: Option<nat>)
    ensures r == Rank(merges, a, b)
  {
    var x := a + [SPACE] + b;
    for i := 0 to |merges|
      invariant IndexFrom(merges, x, 0) == IndexFrom(merges, x, i)
    {
      if merges[i] == x {
        return Some(i);
      }
    }
    return None;
  }

  /** Without spaces inside symbols a rule text belongs to one pair only. */
  lemma PairTextInjective(a: cstr, b: cstr, c: cstr, d: cstr)
    requires SPACE !in a && SPACE !in c && PairText(a, b) == PairText(c, d)
    ensures a == c && b == d
  {
    var x, y := PairText(a, b), PairText(c, d);
    assert x[|a|] == SPACE && y[|c|] == SPACE;
    assert forall k :: 0 <= k < |a| ==> x[k] == a[k];
    assert forall k :: 0 <= k < |c| ==> y[k] == c[k];
    assert a == x[..|a|] && c == y[..|c|];
    assert b == x[|a| + 1..] && d == y[|c| + 1..];
  }

  // ---------------------------------------------------------------- the merge rule

  function PairRank(merges: seq<cstr>, syms: seq<cstr>, k: nat): Option<nat>
    requires k + 1 < |syms|
  {
    Rank(merges, syms[k], syms[k + 1])
  }

  /** Pair i has the least rank of all adjacent pairs, and no pair to its left has that rank. */
  ghost predicate IsBest(merges: seq<cstr>, syms: seq<cstr>, i: nat) {
    && i + 1 < |syms| && PairRank(merges, syms, i).Some?
    && forall k :: 0 <= k && k + 1 < |syms| && PairRank(merges, syms, k).Some? ==>
         var r, rk := PairRank(merges, syms, i).value, PairRank(merges, syms, k).value;
         r <= rk && (r == rk ==> i <= k)
  }

  ghost predicate NoPairLeft(merges: seq<cstr>, syms: seq<cstr>) {
    forall k :: 0 <= k && k + 1 < |syms| ==> PairRank(merges, syms, k).None?
  }

  function MergeAt(syms: seq<cstr>, i: nat): (r: seq<cstr>)
    requires i + 1 < |syms|
    ensures |r| == |syms| - 1
  {
    syms[..i] + [syms[i] + syms[i + 1]] + syms[i + 2..]
  }

  /** Merge the leftmost adjacent pair of least rank, until no pair has a rank. */
  ghost function MergeAll(merges: seq<cstr>, syms: seq<cstr>): seq<cstr>
    decreases |syms|
  {
    if exists i: nat :: IsBest(merges, syms, i) then
      var i: nat :| IsBest(merges, syms, i);
      MergeAll(merges, MergeAt(syms, i))
    else syms
  }

  lemma BestIsUnique(merges: seq<cstr>, syms: seq<cstr>, i: nat, j: nat)
    requires IsBest(merges, syms, i) && IsBest(merges, syms, j)
    ensures i == j
  {
  }

  lemma MergeAllStep(merges: seq<cstr>, syms: seq<cstr>, i: nat)
    requires IsBest(merges, syms, i)
    ensures MergeAll(merges, syms) == MergeAll(merges, MergeAt(syms, i))
  {
    forall j: nat | IsBest(merges, syms, j) ensures j == i {
      BestIsUnique(merges, syms, i, j);
    }
  }

  lemma MergeAllDone(merges: seq<cstr>, syms: seq<cstr>)
    requires NoPairLeft(merges, syms)
    ensures MergeAll(merges, syms) == syms
  {
  }

  lemma NothingToMerge(merges: seq<cstr>, syms: seq<cstr>)
    requires forall i: nat :: !IsBest(merges, syms, i)
    ensures MergeAll(merges, syms) == syms
  {
  }

  /** Of the pairs before k, pair i is the best. */
  ghost predicate BestBefore(merges: seq<cstr>, syms: seq<cstr>, k: nat, best: Option<nat>) {
    match best
    case None => forall j :: 0 <= j < k && j + 1 < |syms| ==> PairRank(merges, syms, j).None?
    case Some(i) =>
      && i < k && i + 1 < |syms| && PairRank(merges, syms, i).Some?
      && forall j :: 0 <= j < k && j + 1 < |syms| && PairRank(merges, syms, j).Some? ==>
           var r, rj := PairRank(merges, syms, i).value, PairRank(merges, syms, j).value;
           r <= rj && (r == rj ==> i <= j)
  }

  lemma BestBeforeAll(merges: seq<cstr>, syms: seq<cstr>, best: Option<nat>)
    requires |syms| > 0 && BestBefore(merges, syms, |syms| - 1, best)
    ensures match best case None => NoPairLeft(merges, syms) case Some(i) => IsBest(merges, syms, i)
  {
  }

  /** The scan of one round: the symbols are a[..c]. */
  method FindBest(merges: seq<cstr>, a: array<cstr>, c: nat) returns (best: Option<nat>)
    requires 0 < c <= a.Length && |merges| <= INT_MAX
    ensures match best case None => NoPairLeft(merges, a[..c]) case Some(i) => IsBest(merges, a[..c], i)
  {
    best := None;
    var bestRank := INT_MAX;
    var i := 0;
    ghost var syms := a[..c];
    while i + 1 < c
      invariant i + 1 <= c && BestBefore(merges, syms, i, best)
      invariant bestRank == match best case None => INT_MAX case Some(b) => PairRank(merges, syms, b).value
    {
      var r := MergeRank(merges, a[i], a[i + 1]);
      assert r == PairRank(merges, syms, i);
      if r.Some? && r.value < bestRank {
        bestRank, best := r.value, Some(i);
      }
      i := i + 1;
    }
    BestBeforeAll(merges, syms, best);
  }

  /** memmove of the symbols behind the merged pair, one to the left. */
  method CloseGap(a: array<cstr>, at: nat, c: nat)
    requires at + 1 < c <= a.Length
    modifies a
    ensures forall k :: 0 <= k < a.Length && (k <= at || k >= c - 1) ==> a[k] == old(a[k])
    ensures forall k :: at < k < c - 1 ==> a[k] == old(a[k + 1])
  {
    for i := at + 1 to c - 1
      invariant forall k :: 0 <= k < a.Length && (k <= at || k >= i) ==> a[k] == old(a[k])
      invariant forall k :: at < k < i ==> a[k] == old(a[k + 1])
    {
      a[i] := a[i + 1];
    }
  }

  /** The merge loop: a[..c0] becomes a[..c]. */
  method MergeLoop(merges: seq<cstr>, a: array<cstr>, c0: nat) returns (c: nat)
    requires c0 <= a.Length && |merges| <= INT_MAX
    modifies a
    ensures c <= c0 && a[..c] == MergeAll(merges, old(a[..c0]))
  {
    hide IsBest, NoPairLeft, MergeAll;
    c := c0;
    while c > 1
      invariant c <= c0 && MergeAll(merges, a[..c]) == MergeAll(merges, old(a[..c0]))
    {
      ghost var syms := a[..c];
      var best := FindBest(merges, a, c);
      if best.None? {
        MergeAllDone(merges, syms);
        return;
      }
      var i := best.value;
      MergeAllStep(merges, syms, i);
      a[i] := a[i] + a[i + 1];
      CloseGap(a, i, c);
      c := c - 1;
      assert a[..c] == MergeAt(syms, i);
    }
    MergeAllDone(merges, a[..c]);
  }

  // ---------------------------------------------------------------- what merging keeps

  /** The rule stops only where no adjacent pair has a rank. */
  lemma {:induction false} MergedIsFinal(merges: seq<cstr>, syms: seq<cstr>)
    ensures NoPairLeft(merges, MergeAll(merges, syms))
    decreases |syms|
  {
    if i: nat :| IsBest(merges, syms, i) {
      MergeAllStep(merges, syms, i);
      MergedIsFinal(merges, MergeAt(syms, i));
    } else {
      if k: nat :| k + 1 < |syms| && PairRank(merges, syms, k).Some? {
        var i := LeastPair(merges, syms, k, |syms| - 1);
        assert IsBest(merges, syms, i);
      }
    }
  }

  /** If some pair before n has a rank, one of them is best. */
  lemma {:induction false} LeastPair(merges: seq<cstr>, syms: seq<cstr>, k: nat, n: nat) returns (i: nat)
    requires k < n < |syms| && PairRank(merges, syms, k).Some?
    ensures BestBefore(merges, syms, n, Some(i))
    decreases n
  {
    if forall j :: 0 <= j < n - 1 ==> PairRank(merges, syms, j).None? {
      i := k;
    } else {
      var j: nat :| j < n - 1 && PairRank(merges, syms, j).Some?;
      i := LeastPair(merges, syms, j, n - 1);
      if PairRank(merges, syms, n - 1).Some? && PairRank(merges, syms, n - 1).value < PairRank(merges, syms, i).value {
        i := n - 1;
      }
    }
  }

  /** Symbols that stand for these pieces of the input. */
  ghost predicate Spell(syms: seq<cstr>, segs: seq<seq<byte>>) {
    |syms| == |segs| && forall i :: 0 <= i < |syms| ==> syms[i] == ByteLevelText(segs[i])
  }

  lemma {:induction false} FlattenJoined<T>(front: seq<seq<T>>, x: seq<T>, y: seq<T>, back: seq<seq<T>>)
    ensures Flatten(front + ([x] + ([y] + back))) == Flatten(front + ([x + y] + back))
  {
    var apart, joined := [x] + ([y] + back), [x + y] + back;
    if front == [] {
      FlattenCons(x, [y] + back);
      FlattenCons(y, back);
      FlattenCons(x + y, back);
      assert x + y + Flatten(back) == x + (y + Flatten(back));
      assert front + apart == apart && front + joined == joined;
    } else {
      FlattenJoined(front[1..], x, y, back);
      FlattenCons(front[0], front[1..] + apart);
      FlattenCons(front[0], front[1..] + joined);
      assert front + apart == [front[0]] + (front[1..] + apart);
      assert front + joined == [front[0]] + (front[1..] + joined);
    }
  }

  lemma FlattenMerged<T>(parts: seq<seq<T>>, i: nat)
    requires i + 1 < |parts|
    ensures Flatten(parts[..i] + [parts[i] + parts[i + 1]] + parts[i + 2..]) == Flatten(parts)
  {
    hide Flatten;
    var front, x, y, back := parts[..i], parts[i], parts[i + 1], parts[i + 2..];
    FlattenJoined(front, x, y, back);
    assert parts == front + ([x] + ([y] + back));
    assert front + [x + y] + back == front + ([x + y] + back);
  }

  /** Merging never changes the text the symbols make up. */
  lemma {:induction false} MergingKeepsText(merges: seq<cstr>, syms: seq<cstr>)
    ensures Flatten(MergeAll(merges, syms)) == Flatten(syms)
    decreases |syms|
  {
    if i: nat :| IsBest(merges, syms, i) {
      MergeAllStep(merges, syms, i);
      FlattenMerged(syms, i);
      MergingKeepsText(merges, MergeAt(syms, i));
    }
  }

  /** After merging, the symbols still spell contiguous pieces of the same input. */
  lemma {:induction false} MergedSpell(merges: seq<cstr>, syms: seq<cstr>, segs: seq<seq<byte>>)
    returns (out: seq<seq<byte>>)
    requires Spell(syms, segs)
    ensures Spell(MergeAll(merges, syms), out) && Flatten(out) == Flatten(segs)
    decreases |syms|
  {
    hide MergeAll, Flatten, ByteLevelText;
    if i: nat :| IsBest(merges, syms, i) {
      MergeAllStep(merges, syms, i);
      FlattenMerged(segs, i);
      SymbolsConcat(segs[i], segs[i + 1]);
      var joined := segs[..i] + [segs[i] + segs[i + 1]] + segs[i + 2..];
      assert Spell(MergeAt(syms, i), joined);
      out := MergedSpell(merges, MergeAt(syms, i), joined);
    } else {
      NothingToMerge(merges, syms);
      out := segs;
    }
  }

  lemma {:induction false} NoSpaceInSymbols(seg: seq<byte>)
    ensures SPACE !in ByteLevelText(seg)
  {
    if seg != [] {
      ByteLevelStep(seg);
      SymbolShape(seg[0]);
      NoSpaceInSymbols(seg[1..]);
    }
  }

  /** A rule that applies to two symbols was written for exactly these two symbols. */
  lemma RuleFitsPair(merges: seq<cstr>, seg: seq<byte>, b: cstr, i: nat, left: cstr, right: cstr)
    requires Rank(merges, ByteLevelText(seg), b) == Some(i)
    requires i < |merges| && merges[i] == PairText(left, right) && SPACE !in left
    ensures left == ByteLevelText(seg) && right == b
  {
    NoSpaceInSymbols(seg);
    PairTextInjective(ByteLevelText(seg), b, left, right);
  }

  /** One step through byte-level text: the width read off the first byte is the width of the next symbol. */
  lemma NextSymbol(x: cstr, i: nat, s: seq<byte>, c: nat)
    requires i <= |x| && c <= |s| && x[i..] == ByteLevelText(s[c..])
    ensures i < |x| <==> c < |s|
    ensures c < |s| ==>
      && var l := WidthOf(x[i]);
      && i + l <= |x| && x[i..i + l] == Symbol(s[c]) && x[i + l..] == ByteLevelText(s[c + 1..])
  {
    if c < |s| {
      ByteLevelStep(s[c..]);
      SymbolShape(s[c]);
      var u, rest := Symbol(s[c]), ByteLevelText(s[c + 1..]);
      assert s[c..][1..] == s[c + 1..] && s[c..][0] == s[c];
      assert x[i..] == u + rest;
      assert x[i] == x[i..][0] == u[0];
      assert x[i..i + |u|] == x[i..][..|u|] == u;
      assert x[i + |u|..] == x[i..][|u|..] == rest;
    }
  }

  /** The symbols encode_piece starts from: one per byte. */
  method SplitSymbols(x: cstr, ghost s: seq<byte>) returns (a: array<cstr>, c: nat)
    requires x == ByteLevelText(s)
    ensures fresh(a) && c == |s| && c <= a.Length && a[..c] == Symbols(s)
  {
    hide ByteLevelText;
    var cap := if |x| != 0 then |x| * 2 else 1;
    a := new cstr[cap](_ => []);
    c := 0;
    var i := 0;
    assert s[0..] == s && x[0..] == x;
    while i < |x|
      invariant i <= |x| && c <= |s| && c <= i && x[i..] == ByteLevelText(s[c..]) && a[..c] == Symbols(s)[..c]
    {
      NextSymbol(x, i, s, c);
      var l := WidthOf(x[i]);
      a[c] := x[i..i + l];
      c := c + 1;
      i := i + l;
    }
    NextSymbol(x, i, s, c);
    assert Symbols(s)[..c] == Symbols(s);
  }
}
