/** The whole way of a weight file: written, opened, planned, loaded. What was written is what is resident. */
module WriterToDevice {
  import opened Wrappers
  import opened GgufFormat
  import opened Subseq
  import R = GgufReader
  import W = GgufWriter
  import opened GgufRoundTrip
  import P = ResidencyPlan
  import PP = PlanProperties
  import L = Loader
  import opened LoaderEndToEnd

  /** The part of an opened file that planner and loader look at. */
  function Planning(m: R.Parsed, size: nat): (r: P.FileModel)
    ensures r.size == size && |r.tensors| == |m.tensors|
    ensures forall i :: 0 <= i < |m.tensors| ==>
      r.tensors[i].absOffset == m.tensors[i].absOffset && r.tensors[i].bytes == m.tensors[i].bytes
  {
    P.FileModel(size, seq(|m.tensors|, i requires 0 <= i < |m.tensors| =>
      P.Tensor(m.tensors[i].name, m.tensors[i].absOffset, m.tensors[i].bytes)))
  }

  function PayloadSum(es: seq<W.Entry>, n: nat): nat
    requires n <= |es|
  {
    if n == 0 then 0 else PayloadSum(es, n - 1) + |es[n - 1].payload|
  }

  /** An entry's data begins behind the data of the entry before it. */
  lemma {:induction false} PayloadsBefore(es: seq<W.Entry>, n: nat)
    requires n < |es|
    ensures PayloadSum(es, n) <= W.Offsets(es, 0)[n]
  {
    if n > 0 {
      PayloadsBefore(es, n - 1);
      OffsetsAscend(es, 0, n - 1);
    }
  }

  lemma {:induction false} TotalIsPayloadSum(p: P.Policy, es: seq<W.Entry>, n: nat)
    requires n <= |es| == |p.model.tensors|
    requires forall i :: 0 <= i < |es| ==> p.model.tensors[i].bytes == |es[i].payload|
    requires forall t :: !p.isPle(t)
    ensures P.TotalBytes(P.Collected(p, n)) == PayloadSum(es, n)
  {
    if n > 0 {
      TotalIsPayloadSum(p, es, n - 1);
      if p.model.tensors[n - 1].bytes != 0 {
        P.TotalBytesAppend(P.Collected(p, n - 1), P.EntryFor(p.model.tensors[n - 1], n - 1));
      } else {
        assert P.Collected(p, n) == P.Collected(p, n - 1);
      }
    }
  }

  ghost function Model(ms: seq<W.Meta>, es: seq<W.Entry>): P.FileModel
    requires RoundTrippable(ms, es)
  {
    RoundTrip(ms, es);
    var b := W.FileBytes(ms, es);
    Planning(R.OpenFile(b).value, |b|)
  }

  /** Where tensor i of a written file lies. */
  lemma WrittenTensor(ms: seq<W.Meta>, es: seq<W.Entry>, i: nat)
    requires RoundTrippable(ms, es) && i < |es|
    ensures var t := Model(ms, es).tensors; var b := W.FileBytes(ms, es);
      && |t| == |es| && t[i].bytes == |es[i].payload|
      && t[i].absOffset == DataPos(ms, es) + W.Offsets(es, 0)[i]
      && t[i].absOffset + t[i].bytes <= |b|
      && b[t[i].absOffset..t[i].absOffset + t[i].bytes] == es[i].payload
  {
    hide W.FileBytes, R.OpenFile, DataPos, W.Offsets, KeepsAlignment, W.MetaOk, W.EntryOk, EntriesOk;
    RoundTrip(ms, es);
    OpenWritten(ms, es);
    var b := W.FileBytes(ms, es);
    var max :| R.OpenFile(b) == Success(ReadBack(ms, es, max));
    WrittenTensorsFit(ms, es, i);
    AtSlice(b, DataPos(ms, es) + W.Offsets(es, 0)[i], es[i].payload);
  }

  /** Tensor i has entry i's payload size and lies where the writer's offsets put it. */
  ghost predicate LaidOut(model: P.FileModel, es: seq<W.Entry>, base: nat, i: nat)
    requires i < |es| == |model.tensors|
  {
    var t := model.tensors[i];
    t.bytes == |es[i].payload| && t.absOffset == base + W.Offsets(es, 0)[i] && t.absOffset + t.bytes <= model.size
  }

  lemma LaidOutDisjoint(model: P.FileModel, es: seq<W.Entry>, base: nat)
    requires |es| == |model.tensors| && forall i :: 0 <= i < |es| ==> LaidOut(model, es, base, i)
    ensures PP.TensorsDisjoint(model)
  {
    var ts := model.tensors;
    forall i, j | 0 <= i < j < |es| ensures !P.Overlap(ts[i].absOffset, ts[i].bytes, ts[j].absOffset, ts[j].bytes) {
      OffsetsOrdered(es, i, j);
      assert LaidOut(model, es, base, i) && LaidOut(model, es, base, j);
    }
  }

  lemma LaidOutPlannable(model: P.FileModel, es: seq<W.Entry>, base: nat)
    requires |es| == |model.tensors| <= U32_MODULUS && forall i :: 0 <= i < |es| ==> LaidOut(model, es, base, i)
    requires model.size <= U64_MAX
    ensures P.WellSized(model) && P.Plannable(LoaderPolicy(model))
  {
    hide W.Offsets;
    var p := LoaderPolicy(model);
    forall i | 0 <= i < |es|
      ensures model.tensors[i].bytes == |es[i].payload|
        && model.tensors[i].absOffset + model.tensors[i].bytes <= model.size
    {
      assert LaidOut(model, es, base, i);
    }
    TotalIsPayloadSum(p, es, |es|);
    assert PayloadSum(es, |es|) <= model.size by {
      if es != [] {
        PayloadsBefore(es, |es| - 1);
        assert LaidOut(model, es, base, |es| - 1);
      }
    }
  }

  /** Every written file can be planned, and its tensors share no byte. */
  lemma WrittenFilePlannable(ms: seq<W.Meta>, es: seq<W.Entry>)
    requires RoundTrippable(ms, es) && |es| <= U32_MODULUS
    ensures P.WellSized(Model(ms, es)) && P.Plannable(LoaderPolicy(Model(ms, es)))
    ensures PP.TensorsDisjoint(Model(ms, es))
  {
    hide W.FileBytes, R.OpenFile, DataPos, W.Offsets, Model, KeepsAlignment, W.MetaOk, W.EntryOk, EntriesOk,
      P.Plannable;
    var model := Model(ms, es);
    ModelSize(ms, es);
    forall i | 0 <= i < |es| ensures LaidOut(model, es, DataPos(ms, es), i) {
      WrittenTensor(ms, es, i);
    }
    LaidOutDisjoint(model, es, DataPos(ms, es));
    LaidOutPlannable(model, es, DataPos(ms, es));
  }

  lemma ModelSize(ms: seq<W.Meta>, es: seq<W.Entry>)
    requires RoundTrippable(ms, es)
    ensures Model(ms, es).size == |W.FileBytes(ms, es)| && |Model(ms, es).tensors| == |es|
  {
    hide W.FileBytes, R.OpenFile, RoundTrippable;
    RoundTrip(ms, es);
  }

  /**
   * For every metadata and entry list the writer accepts, and every interleaving of host and device in the load of
   * the written file: once the load has finished, the allocation registered for entry i holds entry i's payload.
   */
  lemma WrittenPayloadsAreResident(ms: seq<W.Meta>, es: seq<W.Entry>, run: seq<L.State>, n: nat, i: nat)
    requires RoundTrippable(ms, es) && |es| <= U32_MODULUS && i < |es|
    requires P.WellSized(Model(ms, es))
    requires P.FileEntries(LoaderPolicy(Model(ms, es)), P.PlannedEntries(LoaderPolicy(Model(ms, es))))
    requires L.Loadable(JobFor(LoaderPolicy(Model(ms, es)), W.FileBytes(ms, es)))
    requires L.IsRun(JobFor(LoaderPolicy(Model(ms, es)), W.FileBytes(ms, es)), run)
    requires n < |run| && run[n].phase == L.Loaded
    ensures var planned := P.PlannedEntries(LoaderPolicy(Model(ms, es)));
      var d := DescriptorOf(planned, |planned|, i);
      if es[i].payload == [] then d == None
      else d.Some? && d.value < |run[n].resident| && run[n].resident[d.value] == es[i].payload
  {
    hide W.FileBytes, DataPos, W.Offsets, Model, KeepsAlignment, W.MetaOk, W.EntryOk, EntriesOk, L.Loadable, L.IsRun,
      P.PlannedEntries, P.FileEntries, P.Plannable;
    WrittenFilePlannable(ms, es);
    WrittenTensor(ms, es, i);
    ModelSize(ms, es);
    LoadedTensorsHoldFileBytes(Model(ms, es), W.FileBytes(ms, es), run, n, i);
  }

  /** The hypotheses of the lemma above about planner and loader hold for every written file. */
  lemma WrittenFilesLoad(ms: seq<W.Meta>, es: seq<W.Entry>)
    requires RoundTrippable(ms, es) && |es| <= U32_MODULUS
    ensures P.WellSized(Model(ms, es))
    ensures P.FileEntries(LoaderPolicy(Model(ms, es)), P.PlannedEntries(LoaderPolicy(Model(ms, es))))
    ensures L.Loadable(JobFor(LoaderPolicy(Model(ms, es)), W.FileBytes(ms, es)))
  {
    hide W.FileBytes, Model, KeepsAlignment, W.MetaOk, W.EntryOk, EntriesOk, L.Loadable, P.PlannedEntries,
      P.FileEntries, P.Plannable;
    WrittenFilePlannable(ms, es);
    ModelSize(ms, es);
    PlannableModelsLoad(Model(ms, es), W.FileBytes(ms, es));
  }
}
