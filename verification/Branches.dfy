/** Branch handles into the suffix arena (src/q3_decide.cu). */
module Branches {

  function Used(flags: seq<bool>): (n: nat)
    ensures n <= |flags|
  {
    if flags == [] then 0 else Used(flags[..|flags| - 1]) + if flags[|flags| - 1] then 1 else 0
  }

  lemma {:induction false} UsedAfter(flags: seq<bool>, i: nat, value: bool)
    requires i < |flags| && flags[i] != value
    ensures Used(flags[i := value]) == if value then Used(flags) + 1 else Used(flags) - 1
    ensures !value ==> Used(flags) > 0
  {
    var n := |flags| - 1;
    if i == n {
      assert flags[i := value][..n] == flags[..n];
    } else {
      UsedAfter(flags[..n], i, value);
      assert flags[i := value][..n] == flags[..n][i := value];
    }
  }

  lemma {:induction false} AllUsed(flags: seq<bool>)
    requires forall i :: 0 <= i < |flags| ==> flags[i]
    ensures Used(flags) == |flags|
  {
    if flags != [] {
      AllUsed(flags[..|flags| - 1]);
    }
  }

  class BranchSet {
    const inUse: array<bool>
    var live: nat
    /** Handles given out and not yet returned. */
    ghost var outstanding: set<nat>

    ghost predicate Valid()
      reads this, inUse
    {
      && live == Used(inUse[..])
      && (forall b: nat :: b in outstanding <==> b < inUse.Length && inUse[b])
    }

    constructor (maxBranches: nat)
      ensures Valid() && inUse.Length == maxBranches && outstanding == {} && fresh(inUse)
    {
      inUse := new bool[maxBranches](_ => false);
      live, outstanding := 0, {};
      new;
      NoneUsed(inUse[..]);
    }

    /** q3_branch_acquire: a handle nobody holds, or None when all are held. */
    method Acquire() returns (r: int)
      requires Valid()
      modifies this, inUse
      ensures Valid()
      ensures r == -1 <==> old(live) == inUse.Length
      ensures r == -1 ==> outstanding == old(outstanding) && live == old(live)
      ensures r == -1 ==> forall b: nat :: b < inUse.Length ==> b in outstanding
      ensures r != -1 ==> 0 <= r < inUse.Length && r !in old(outstanding)
      ensures r != -1 ==> outstanding == old(outstanding) + {r} && live == old(live) + 1
      ensures r != -1 ==> forall b :: 0 <= b < r ==> b in outstanding
    {
      var flags := inUse[..];
      for b := 0 to inUse.Length
        invariant inUse[..] == flags && unchanged(this) && forall k :: 0 <= k < b ==> flags[k]
      {
        if !inUse[b] {
          UsedAfter(flags, b, true);
          UsedBelow(flags, b);
          inUse[b] := true;
          live := live + 1;
          outstanding := outstanding + {b};
          assert inUse[..] == flags[b := true];
          return b;
        }
      }
      AllUsed(flags);
      return -1;
    }

    /** q3_branch_release: invalid and free handles are ignored. */
    method Release(branch: int)
      requires Valid()
      modifies this, inUse
      ensures Valid() && outstanding == old(outstanding) - {branch}
      ensures live == if branch in old(outstanding) then old(live) - 1 else old(live)
    {
      if branch < 0 || branch >= inUse.Length {
        return;
      }
      if inUse[branch] {
        ghost var flags := inUse[..];
        UsedAfter(flags, branch, false);
        inUse[branch] := false;
        live := live - 1;
        outstanding := outstanding - {branch};
        assert inUse[..] == flags[branch := false];
      }
    }
  }

  lemma {:induction false} NoneUsed(flags: seq<bool>)
    requires forall i :: 0 <= i < |flags| ==> !flags[i]
    ensures Used(flags) == 0
  {
    if flags != [] {
      NoneUsed(flags[..|flags| - 1]);
    }
  }

  lemma {:induction false} UsedBelow(flags: seq<bool>, i: nat)
    requires i < |flags| && !flags[i]
    ensures Used(flags) < |flags|
  {
    var n := |flags| - 1;
    if i < n {
      UsedBelow(flags[..n], i);
    }
  }

  /** The used slots are counted once each. */
  lemma {:induction false} UsedIsSize(flags: seq<bool>, held: set<nat>)
    requires forall b: nat :: b in held <==> b < |flags| && flags[b]
    ensures Used(flags) == |held|
  {
    if flags == [] {
      assert held == {};
    } else {
      var n := |flags| - 1;
      var rest := held - {n};
      UsedIsSize(flags[..n], rest);
      assert held == if flags[n] then rest + {n} else rest;
    }
  }

  /** One call of a client. */
  datatype Call = Take | Give(handle: int)

  function Lowest(n: nat, held: set<nat>, i: nat): (r: nat)
    requires i <= n
    ensures i <= r <= n && (r < n ==> r !in held) && forall b :: i <= b < r ==> b in held
    decreases n - i
  {
    if i == n || i !in held then i else Lowest(n, held, i + 1)
  }

  /** What a run of calls does to the set of outstanding handles: a take adds the lowest free one, if there is one. */
  function After(n: nat, held: set<nat>, calls: seq<Call>): set<nat> {
    if calls == [] then held
    else
      var before := After(n, held, calls[..|calls| - 1]);
      match calls[|calls| - 1]
      case Take => if Lowest(n, before, 0) < n then before + {Lowest(n, before, 0)} else before
      case Give(h) => before - {h}
  }

  /** What call i of a run returns: the lowest handle free after the calls before it, or -1 when all are held. */
  ghost predicate Returned(n: nat, held: set<nat>, calls: seq<Call>, i: nat, handle: int)
    requires i < |calls|
  {
    var before := After(n, held, calls[..i]);
    match calls[i]
    case Take => handle == if Lowest(n, before, 0) < n then Lowest(n, before, 0) else -1
    case Give(h) => handle == h
  }

  /** A whole run of calls on the object follows that function; `live` counts the outstanding handles throughout. */
  method Run(s: BranchSet, calls: seq<Call>) returns (handles: seq<int>)
    requires s.Valid()
    modifies s, s.inUse
    ensures s.Valid() && s.outstanding == After(s.inUse.Length, old(s.outstanding), calls) && s.live == |s.outstanding|
    ensures |handles| == |calls|
    ensures forall i :: 0 <= i < |calls| ==> Returned(s.inUse.Length, old(s.outstanding), calls, i, handles[i])
  {
    handles := [];
    ghost var held := s.outstanding;
    assert calls[..0] == [];
    for i := 0 to |calls|
      invariant s.Valid() && |handles| == i
      invariant s.outstanding == After(s.inUse.Length, held, calls[..i])
      invariant forall k :: 0 <= k < i ==> Returned(s.inUse.Length, held, calls, k, handles[k])
    {
      assert calls[..i + 1][..i] == calls[..i];
      match calls[i]
      case Take =>
        var h := s.Acquire();
        handles := handles + [h];
      case Give(h) =>
        s.Release(h);
        handles := handles + [h];
    }
    assert calls[..|calls|] == calls;
    UsedIsSize(s.inUse[..], s.outstanding);
  }
}
