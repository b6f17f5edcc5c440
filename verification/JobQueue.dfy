/** The bounded job queue of the server (src/server/q3_server.c): a ring buffer that is a bounded sequence. */
module JobQueue {

  /** What dequeue does: wait on the condition variable, report the end, or take a job. */
  datatype Taken<T> = MustWait | Ended | Job(job: T)

  lemma Wraps(a: nat, cap: nat)
    requires 0 < cap && a < 2 * cap
    ensures a % cap == if a < cap then a else a - cap
  {
  }

  class Ring<T> {
    const slots: array<T>
    var head: nat
    var len: nat
    var stopping: bool

    ghost predicate Valid()
      reads this, slots
    {
      slots.Length > 0 && head < slots.Length && len <= slots.Length
    }

    /** The k-th waiting job. */
    function At(k: nat): T
      requires Valid() && k < len
      reads this, slots
    {
      Wraps(head + k, slots.Length);
      slots[(head + k) % slots.Length]
    }

    ghost function Contents(): (s: seq<T>)
      requires Valid()
      reads this, slots
      ensures |s| == len
    {
      seq(len, k requires 0 <= k < len reads this, slots requires Valid() => At(k))
    }

    constructor (slots: array<T>)
      requires slots.Length > 0
      ensures Valid() && Contents() == [] && !stopping && this.slots == slots
    {
      this.slots, head, len, stopping := slots, 0, 0, false;
    }

    /** enqueue, under the queue mutex */
    method Enqueue(j: T) returns (ok: bool)
      requires Valid()
      modifies this`len, slots
      ensures Valid() && ok == (!stopping && old(len) < slots.Length)
      ensures Contents() == if ok then old(Contents()) + [j] else old(Contents())
    {
      if stopping || len >= slots.Length {
        return false;
      }
      ghost var before := Contents();
      Wraps(head + len, slots.Length);
      slots[(head + len) % slots.Length] := j;
      len := len + 1;
      forall k | 0 <= k < len ensures At(k) == (before + [j])[k] {
        Wraps(head + k, slots.Length);
      }
      assert Contents() == before + [j];
      return true;
    }

    /** dequeue, under the queue mutex, up to the point where it waits */
    method Dequeue() returns (r: Taken<T>)
      requires Valid()
      modifies this`head, this`len
      ensures Valid()
      ensures r == if old(len) > 0 then Job(old(Contents())[0]) else if stopping then Ended else MustWait
      ensures Contents() == if old(len) > 0 then old(Contents())[1..] else old(Contents())
    {
      if len == 0 && !stopping {
        return MustWait;
      }
      if len == 0 {
        return Ended;
      }
      ghost var before := Contents();
      Wraps(head, slots.Length);
      Wraps(head + 1, slots.Length);
      var j := slots[head];
      assert j == before[0];
      ghost var oldHead := head;
      head := (head + 1) % slots.Length;
      len := len - 1;
      forall k | 0 <= k < len ensures At(k) == before[1..][k] {
        Wraps(head + k, slots.Length);
        Wraps(oldHead + k + 1, slots.Length);
      }
      assert Contents() == before[1..];
      return Job(j);
    }

    /** queue_stop: what is queued stays queued. */
    method Stop()
      requires Valid()
      modifies this`stopping
      ensures Valid() && stopping && Contents() == old(Contents())
    {
      stopping := true;
    }
  }
}
