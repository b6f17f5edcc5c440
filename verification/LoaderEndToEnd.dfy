/** From a parsed model through the planner to the resident allocations of a finished load. */
module LoaderEndToEnd {
  import opened Wrappers
  import opened ResidencyPlan
  import opened PlanProperties
  import opened Loader

  const LOAD_MAX_GAP: nat := 64 * 1024
  const LOAD_MAX_SPAN: nat := 256 * 1024 * 1024

  /** The loader plans with no tensor excluded. */
  function LoaderPolicy(model: FileModel): Policy {
    Policy(model, t => false, LOAD_MAX_GAP, LOAD_MAX_SPAN)
  }

  /** The size of each staging buffer. */
  function LargestSpan(spans: seq<Span>): (r: nat)
    ensures forall s :: s in spans ==> s.bytes <= r
    ensures spans != [] ==> exists s :: s in spans && s.bytes == r
  {
    if spans == [] then 0
    else
      var front, last := spans[..|spans| - 1], spans[|spans| - 1];
      assert forall s :: s in spans <==> s in front || s == last;
      if last.bytes > LargestSpan(front) || front == [] then last.bytes else LargestSpan(front)
  }

  method ComputeLargestSpan(spans: seq<Span>) returns (r: nat)
    ensures r == LargestSpan(spans)
  {
    r := 0;
    for i := 0 to |spans|
      invariant r == LargestSpan(spans[..i])
    {
      assert spans[..i + 1][..i] == spans[..i];
      if spans[i].bytes > r {
        r := spans[i].bytes;
      }
    }
    assert spans[..|spans|] == spans;
  }

  /** The allocation that descriptor i of the resident table points at after the first k entries were allocated. */
  function DescriptorOf(entries: seq<Entry>, k: nat, i: nat): Option<nat>
    requires k <= |entries|
  {
    if k == 0 then None
    else if entries[k - 1].tensorIndex == i then Some(k - 1)
    else DescriptorOf(entries, k - 1, i)
  }

  /** The allocation loop: one allocation per entry, registered under the entry's tensor index. */
  method FillDescriptors(entries: seq<Entry>, table: array<Option<nat>>)
    requires forall i :: 0 <= i < table.Length ==> table[i] == None
    requires forall e :: e in entries ==> e.tensorIndex < table.Length
    modifies table
    ensures forall i :: 0 <= i < table.Length ==> table[i] == DescriptorOf(entries, |entries|, i)
  {
    for p := 0 to |entries|
      invariant forall i :: 0 <= i < table.Length ==> table[i] == DescriptorOf(entries, p, i)
    {
      assert entries[p] in entries;
      table[entries[p].tensorIndex] := Some(p);
    }
  }

  lemma {:induction false} DescriptorPointsAtEntry(entries: seq<Entry>, k: nat, i: nat)
    requires k <= |entries|
    ensures match DescriptorOf(entries, k, i)
      case Some(p) => p < k && entries[p].tensorIndex == i
      case None => forall p :: 0 <= p < k ==> entries[p].tensorIndex != i
  {
    if k > 0 {
      DescriptorPointsAtEntry(entries, k - 1, i);
    }
  }

  /** The load of a model: planner output, and staging buffers as large as the largest span. */
  ghost function JobFor(p: Policy, file: seq<byte>): Job
    requires WellSized(p.model) && FileEntries(p, PlannedEntries(p))
  {
    var es := PlannedEntries(p);
    var spans := SpansUpTo(p, es, |es|);
    Job(file, es, spans, LargestSpan(spans))
  }

  /**
   * Whatever the planner builds can be loaded: in particular a tensor larger than the span limit, alone in its span.
   */
  lemma PlannerOutputIsLoadable(p: Policy, file: seq<byte>)
    requires WellSized(p.model) && FileEntries(p, PlannedEntries(p)) && |file| == p.model.size
    ensures Loadable(JobFor(p, file))
  {
    var c := JobFor(p, file);
    SpansHaveGreedyShape(p, c.entries, |c.entries|);
    forall s | 0 <= s < |c.spans| ensures SpanLoadable(c, s) {
      var sp := c.spans[s];
      assert GroupOf(p, c.entries, sp);
      assert s > 0 ==> Follows(p, c.entries, c.spans[s - 1], sp);
      assert sp in c.spans;
      assert End(c.entries[SpanStop(sp) - 1]) <= p.model.size;
      forall e | sp.firstEntry <= e < SpanStop(sp) ensures Inside(c.entries[e], sp) {
        EntryInsideItsSpan(p, c.entries, sp, e);
      }
    }
  }

  /** With at most 2^32 tensors, descriptor i points at the entry of tensor i exactly when tensor i is planned. */
  lemma DescriptorOfPlannedTensor(p: Policy, i: nat)
    requires |p.model.tensors| <= U32_MODULUS && i < |p.model.tensors|
    ensures var es := PlannedEntries(p); var d := DescriptorOf(es, |es|, i);
      if Planned(p, p.model.tensors[i]) then d.Some? && d.value < |es| && es[d.value] == EntryFor(p.model.tensors[i], i)
      else d == None
  {
    var es := PlannedEntries(p);
    DescriptorPointsAtEntry(es, |es|, i);
    PlannedEntriesIff(p);
    assert Planned(p, p.model.tensors[i]) ==> EntryFor(p.model.tensors[i], i) in es;
    if DescriptorOf(es, |es|, i).Some? {
      assert es[DescriptorOf(es, |es|, i).value] in es;
    }
  }

  /**
   * End to end, for every interleaving: once the load has finished, each tensor with a payload is resident, its
   * descriptor points at an allocation holding exactly its bytes of the file, and no other tensor has a descriptor.
   */
  lemma LoadedTensorsHoldFileBytes(model: FileModel, file: seq<byte>, run: seq<State>, n: nat, i: nat)
    requires WellSized(model) && |file| == model.size && Plannable(LoaderPolicy(model))
    requires |model.tensors| <= U32_MODULUS && i < |model.tensors|
    requires FileEntries(LoaderPolicy(model), PlannedEntries(LoaderPolicy(model)))
    requires Loadable(JobFor(LoaderPolicy(model), file))
    requires IsRun(JobFor(LoaderPolicy(model), file), run) && n < |run| && run[n].phase == Loaded
    ensures var es, t := PlannedEntries(LoaderPolicy(model)), model.tensors[i];
      var d := DescriptorOf(es, |es|, i);
      if t.bytes == 0 then d == None
      else
        && d.Some? && d.value < |run[n].resident|
        && InFile(t, |file|)
        && run[n].resident[d.value] == file[t.absOffset..t.absOffset + t.bytes]
  {
    var p := LoaderPolicy(model);
    var c := JobFor(p, file);
    DescriptorOfPlannedTensor(p, i);
    var d := DescriptorOf(c.entries, |c.entries|, i);
    if model.tensors[i].bytes != 0 {
      LoadedMeansResident(c, run, n, d.value);
    }
  }

  /** The hypotheses of the lemma above hold for every model the planner accepts. */
  lemma PlannableModelsLoad(model: FileModel, file: seq<byte>)
    requires WellSized(model) && |file| == model.size && Plannable(LoaderPolicy(model))
    ensures FileEntries(LoaderPolicy(model), PlannedEntries(LoaderPolicy(model)))
    ensures Loadable(JobFor(LoaderPolicy(model), file))
  {
    PlannedEntriesAreFileEntries(LoaderPolicy(model));
    PlannerOutputIsLoadable(LoaderPolicy(model), file);
  }
}
