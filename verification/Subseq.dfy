/** A sequence standing at a position of another one. */
module Subseq {

  predicate SameItem<T(==)>(b: seq<T>, pos: nat, x: seq<T>, k: int)
    requires pos + |x| <= |b| && 0 <= k < |x|
  {
    b[pos + k] == x[k]
  }

  /**
   * The items x stand at position pos of b. The trigger keeps the solver from comparing items on its own; AtSlice says
   * the same with a slice.
   */
  ghost predicate At<T>(b: seq<T>, pos: nat, x: seq<T>) {
    pos + |x| <= |b| && forall k {:trigger SameItem(b, pos, x, k)} :: 0 <= k < |x| ==> SameItem(b, pos, x, k)
  }

  lemma AtSlice<T>(b: seq<T>, pos: nat, x: seq<T>)
    ensures At(b, pos, x) <==> pos + |x| <= |b| && b[pos..pos + |x|] == x
  {
    if At(b, pos, x) {
      forall k | 0 <= k < |x| ensures b[pos..pos + |x|][k] == x[k] {
        assert SameItem(b, pos, x, k);
      }
    }
    if pos + |x| <= |b| && b[pos..pos + |x|] == x {
      forall k | 0 <= k < |x| ensures SameItem(b, pos, x, k) {
        assert b[pos..pos + |x|][k] == x[k];
      }
    }
  }

  lemma AtSplit<T>(b: seq<T>, pos: nat, x: seq<T>, y: seq<T>)
    ensures At(b, pos, x + y) <==> At(b, pos, x) && At(b, pos + |x|, y)
  {
    var q := pos + |x|;
    if At(b, pos, x + y) {
      forall k | 0 <= k < |x| ensures SameItem(b, pos, x, k) {
        assert SameItem(b, pos, x + y, k);
      }
      forall k | 0 <= k < |y| ensures SameItem(b, q, y, k) {
        assert SameItem(b, pos, x + y, |x| + k);
      }
    }
    if At(b, pos, x) && At(b, pos + |x|, y) {
      forall k | 0 <= k < |x + y| ensures SameItem(b, pos, x + y, k) {
        if k < |x| {
          assert SameItem(b, pos, x, k);
        } else {
          assert SameItem(b, q, y, k - |x|);
        }
      }
    }
  }

  lemma AtInside<T>(b: seq<T>, pos: nat, x: seq<T>)
    requires At(b, pos, x)
    ensures pos + |x| <= |b|
  {
  }

  lemma AtItem<T>(b: seq<T>, pos: nat, x: seq<T>, k: nat)
    requires At(b, pos, x) && k < |x|
    ensures pos + k < |b| && b[pos + k] == x[k]
  {
    assert SameItem(b, pos, x, k);
  }
}
