/**
 * The planner's counters: every tensor with a payload is either planned or excluded, and its bytes are counted once.
 */
module PlanAccounts {
  import opened Wrappers
  import opened ResidencyPlan

  /** The bytes of the first n tensors. */
  function AllBytes(p: Policy, n: nat): nat
    requires n <= |p.model.tensors|
  {
    if n == 0 then 0 else AllBytes(p, n - 1) + p.model.tensors[n - 1].bytes
  }

  /** How many of the first n tensors have a payload. */
  function PayloadCount(p: Policy, n: nat): nat
    requires n <= |p.model.tensors|
  {
    if n == 0 then 0 else PayloadCount(p, n - 1) + if p.model.tensors[n - 1].bytes != 0 then 1 else 0
  }

  /** Every tensor with a payload is planned or excluded. */
  lemma {:induction false} TensorsAddUp(p: Policy, n: nat)
    requires n <= |p.model.tensors|
    ensures |Collected(p, n)| + ExcludedCount(p, n) == PayloadCount(p, n)
  {
    if n > 0 {
      TensorsAddUp(p, n - 1);
    }
  }

  /** So are its bytes, up to the wrap of the 64-bit counter of excluded bytes. */
  lemma {:induction false} BytesAddUp(p: Policy, n: nat) returns (wraps: nat)
    requires n <= |p.model.tensors|
    ensures TotalBytes(Collected(p, n)) + ExcludedBytes(p, n) + wraps * U64_MODULUS == AllBytes(p, n)
  {
    hide TotalBytes;
    if n == 0 {
      wraps := 0;
      NoBytes();
    } else {
      wraps := BytesAddUp(p, n - 1);
      var t := p.model.tensors[n - 1];
      CollectedAppend(p, n - 1);
      if t.bytes != 0 && p.isPle(t) {
        var before := ExcludedBytes(p, n - 1) + t.bytes;
        assert before == before / U64_MODULUS * U64_MODULUS + before % U64_MODULUS;
        wraps := wraps + before / U64_MODULUS;
      }
    }
  }

  lemma NoBytes()
    ensures TotalBytes([]) == 0
  {
  }
}
