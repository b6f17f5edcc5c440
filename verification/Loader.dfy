/**
 * The double-buffered loader (cuda/q3_model_loader_cuda.cu) as a transition system: a host thread that stages spans
 * and enqueues copies, and a device stream that executes the enqueued operations in order, at any later time.
 */
module Loader {
  import opened Wrappers
  import opened ResidencyPlan
  import opened PlanProperties

  const SLOTS: nat := 2

  /** One load: the mapped file, the plan, and the size of each staging buffer. */
  datatype Job = Job(file: seq<byte>, entries: seq<Entry>, spans: seq<Span>, staging: nat)

  /**
   * Operations on the stream, with the arguments the host passed. `span` says which iteration of the span loop
   * enqueued the operation; only the proofs look at it.
   */
  datatype Op =
    | Upload(span: nat, slot: nat, bytes: nat)
    | Copy(span: nat, slot: nat, relative: nat, bytes: nat, target: nat)
    | Record(span: nat, slot: nat)

  /** Where the host is in the body of the span loop, or after it. */
  datatype Phase = Waiting | Staging | Uploading | Scattering(next: nat) | Draining | Loaded | Failed

  /**
   * `log` holds every operation ever enqueued and `done` counts the executed ones, so log[done..] is the pending
   * queue. An event remembers the log position of its most recent record.
   */
  datatype State = State(
    span: nat, phase: Phase,
    stage: seq<seq<byte>>, transfer: seq<seq<byte>>, resident: seq<seq<byte>>,
    log: seq<Op>, done: nat, events: seq<Option<nat>>)

  function Slot(s: nat): nat { s % SLOTS }

  // ---------------------------------------------------------------- what the load needs of its plan

  ghost predicate Loadable(c: Job) {
    && (c.spans == [] ==> c.entries == [])
    && (c.spans != [] ==> c.spans[0].firstEntry == 0 && SpanStop(c.spans[|c.spans| - 1]) == |c.entries|)
    && (forall s :: 0 <= s < |c.spans| ==> SpanLoadable(c, s))
  }

  ghost predicate SpanLoadable(c: Job, s: nat)
    requires s < |c.spans|
  {
    var sp := c.spans[s];
    && SpanStop(sp) <= |c.entries|
    && (s > 0 ==> sp.firstEntry == SpanStop(c.spans[s - 1]))
    && sp.fileOffset + sp.bytes <= |c.file|
    && sp.bytes <= c.staging
    && forall e :: sp.firstEntry <= e < SpanStop(sp) ==> Inside(c.entries[e], sp)
  }

  function SpanBytes(c: Job, s: nat): seq<byte>
    requires s < |c.spans| && c.spans[s].fileOffset + c.spans[s].bytes <= |c.file|
  {
    c.file[c.spans[s].fileOffset..c.spans[s].fileOffset + c.spans[s].bytes]
  }

  function EntryBytes(c: Job, e: nat): seq<byte>
    requires e < |c.entries| && End(c.entries[e]) <= |c.file|
  {
    c.file[c.entries[e].fileOffset..End(c.entries[e])]
  }

  // ---------------------------------------------------------------- the operations the host enqueues

  function UploadOf(c: Job, s: nat): Op
    requires s < |c.spans|
  {
    Upload(s, Slot(s), c.spans[s].bytes)
  }

  function CopyOf(c: Job, s: nat, e: nat): Op
    requires s < |c.spans| && e < |c.entries| && Inside(c.entries[e], c.spans[s])
  {
    Copy(s, Slot(s), c.entries[e].fileOffset - c.spans[s].fileOffset, c.entries[e].bytes, e)
  }

  // ---------------------------------------------------------------- initial states and steps

  ghost predicate BuffersSized(c: Job, s: State) {
    && |s.stage| == SLOTS && |s.transfer| == SLOTS && |s.events| == SLOTS && |s.resident| == |c.entries|
    && forall k :: 0 <= k < SLOTS ==> |s.stage[k]| == c.staging && |s.transfer[k]| == c.staging
  }

  /** Before the span loop: nothing enqueued, no event recorded, every buffer holds arbitrary bytes. */
  ghost predicate Init(c: Job, s: State) {
    && BuffersSized(c, s)
    && s.span == 0 && s.phase == Waiting && s.log == [] && s.done == 0
    && s.events == [None, None]
  }

  /** cudaEventSynchronize returns: the most recent record, if any, has executed. */
  predicate EventPassed(s: State, slot: nat)
    requires slot < |s.events|
  {
    s.events[slot].None? || s.events[slot].value < s.done
  }

  function Overwrite(buffer: seq<byte>, data: seq<byte>): seq<byte>
    requires |data| <= |buffer|
  {
    data + buffer[|data|..]
  }

  ghost predicate WaitStep(c: Job, s: State, t: State)
    requires Loadable(c) && BuffersSized(c, s)
  {
    && s.phase == Waiting && s.span < |c.spans|
    && (s.span >= SLOTS ==> EventPassed(s, Slot(s.span)))
    && t == s.(phase := Staging)
  }

  ghost predicate StageStep(c: Job, s: State, t: State)
    requires Loadable(c) && BuffersSized(c, s)
  {
    && s.phase == Staging && s.span < |c.spans| && SpanLoadable(c, s.span)
    && var k := Slot(s.span);
       t == s.(phase := Uploading, stage := s.stage[k := Overwrite(s.stage[k], SpanBytes(c, s.span))])
  }

  ghost predicate UploadStep(c: Job, s: State, t: State)
    requires Loadable(c) && BuffersSized(c, s)
  {
    && s.phase == Uploading && s.span < |c.spans|
    && t == s.(phase := Scattering(0), log := s.log + [UploadOf(c, s.span)])
  }

  ghost predicate ScatterStep(c: Job, s: State, t: State)
    requires Loadable(c) && BuffersSized(c, s)
  {
    && s.phase.Scattering? && s.span < |c.spans| && SpanLoadable(c, s.span)
    && s.phase.next < c.spans[s.span].entryCount
    && t == s.(phase := Scattering(s.phase.next + 1),
               log := s.log + [CopyOf(c, s.span, c.spans[s.span].firstEntry + s.phase.next)])
  }

  ghost predicate RecordStep(c: Job, s: State, t: State)
    requires Loadable(c) && BuffersSized(c, s)
  {
    && s.phase.Scattering? && s.span < |c.spans| && s.phase.next == c.spans[s.span].entryCount
    && t == s.(phase := Waiting, span := s.span + 1, log := s.log + [Record(s.span, Slot(s.span))],
               events := s.events[Slot(s.span) := Some(|s.log|)])
  }

  ghost predicate LeaveLoopStep(c: Job, s: State, t: State) {
    s.phase == Waiting && s.span == |c.spans| && t == s.(phase := Draining)
  }

  /** cudaStreamSynchronize: returns once the whole queue has executed. */
  ghost predicate DrainStep(c: Job, s: State, t: State) {
    s.phase == Draining && s.done == |s.log| && t == s.(phase := Loaded)
  }

  /** Any CUDA call may fail; the host then abandons the load, while the stream keeps running. */
  ghost predicate FailStep(c: Job, s: State, t: State) {
    s.phase !in {Staging, Loaded, Failed} && t == s.(phase := Failed)
  }

  ghost predicate HostStep(c: Job, s: State, t: State)
    requires Loadable(c) && BuffersSized(c, s)
  {
    || WaitStep(c, s, t) || StageStep(c, s, t) || UploadStep(c, s, t) || ScatterStep(c, s, t)
    || RecordStep(c, s, t) || LeaveLoopStep(c, s, t) || DrainStep(c, s, t)
  }

  ghost predicate OpInRange(s: State, op: Op) {
    match op
    case Upload(_, slot, bytes) =>
      slot < |s.stage| && slot < |s.transfer| && bytes <= |s.stage[slot]| && bytes <= |s.transfer[slot]|
    case Copy(_, slot, relative, bytes, target) =>
      slot < |s.transfer| && relative + bytes <= |s.transfer[slot]| && target < |s.resident|
    case Record(_, _) => true
  }

  /** The device executes one operation, reading its source buffer now, not when it was enqueued. */
  function Execute(s: State, op: Op): State
    requires OpInRange(s, op)
  {
    match op
    case Upload(_, slot, bytes) =>
      s.(transfer := s.transfer[slot := Overwrite(s.transfer[slot], s.stage[slot][..bytes])])
    case Copy(_, slot, relative, bytes, target) =>
      s.(resident := s.resident[target := s.transfer[slot][relative..relative + bytes]])
    case Record(_, _) => s
  }

  ghost predicate DeviceStep(s: State, t: State) {
    && s.done < |s.log| && OpInRange(s, s.log[s.done])
    && t == Execute(s, s.log[s.done]).(done := s.done + 1)
  }

  ghost predicate Step(c: Job, s: State, t: State)
    requires Loadable(c) && BuffersSized(c, s)
  {
    HostStep(c, s, t) || FailStep(c, s, t) || DeviceStep(s, t)
  }

  // ---------------------------------------------------------------- the invariant

  /**
   * Each operation is the one its span calls for, and the operations of a span are contiguous: upload first, record
   * last.
   */
  ghost predicate OpOk(c: Job, log: seq<Op>, i: nat)
    requires Loadable(c) && i < |log|
  {
    var op := log[i];
    && op.span < |c.spans| && SpanLoadable(c, op.span)
    && (op.Upload? ==> op == UploadOf(c, op.span))
    && (op.Copy? ==>
          && c.spans[op.span].firstEntry <= op.target < SpanStop(c.spans[op.span])
          && op == CopyOf(c, op.span, op.target))
    && (op.Record? ==> op.slot == Slot(op.span))
    && (op.Upload? ==> if i == 0 then op.span == 0 else log[i - 1].Record? && log[i - 1].span + 1 == op.span)
    && (!op.Upload? ==> i > 0 && !log[i - 1].Record? && log[i - 1].span == op.span)
  }

  ghost predicate LogOk(c: Job, log: seq<Op>)
    requires Loadable(c)
  {
    forall i :: 0 <= i < |log| ==> OpOk(c, log, i)
  }

  /** The end of the log matches the host's position. */
  ghost predicate HostOk(c: Job, s: State)
    requires Loadable(c)
  {
    match s.phase
    case Waiting => s.span <= |c.spans| && BetweenSpans(s)
    case Staging => s.span < |c.spans| && BetweenSpans(s)
    case Uploading => s.span < |c.spans| && BetweenSpans(s)
    case Scattering(j) =>
      && s.span < |c.spans| && j <= c.spans[s.span].entryCount
      && s.log != [] && s.log[|s.log| - 1].span == s.span && !s.log[|s.log| - 1].Record?
    case Draining => s.span == |c.spans| && BetweenSpans(s)
    case Loaded => s.span == |c.spans| && BetweenSpans(s) && s.done == |s.log|
    case Failed => true
  }

  ghost predicate BetweenSpans(s: State) {
    if s.span == 0 then s.log == []
    else s.log != [] && s.log[|s.log| - 1] == Record(s.span - 1, Slot(s.span - 1))
  }

  /** How many entries the host has enqueued copies for. */
  function IssuedEntries(c: Job, s: State): nat {
    if s.phase.Failed? then 0
    else if s.phase.Scattering? then (if s.span < |c.spans| then c.spans[s.span].firstEntry + s.phase.next else 0)
    else if 0 < s.span <= |c.spans| then SpanStop(c.spans[s.span - 1])
    else 0
  }

  predicate CopyAt(log: seq<Op>, i: int, e: nat) { 0 <= i < |log| && log[i].Copy? && log[i].target == e }

  ghost predicate Issued(log: seq<Op>, e: nat) { exists i :: CopyAt(log, i, e) }

  ghost predicate AllIssued(c: Job, s: State) {
    forall e :: 0 <= e < IssuedEntries(c, s) ==> Issued(s.log, e)
  }

  ghost predicate EventsOk(s: State) {
    && |s.events| == SLOTS
    && (forall k :: 0 <= k < SLOTS && s.events[k].Some? ==> s.events[k].value < |s.log|)
    && (forall i :: 0 <= i < |s.log| && s.log[i].Record? && s.log[i].slot < SLOTS ==>
          s.events[s.log[i].slot].Some? && i <= s.events[s.log[i].slot].value)
  }

  /** No upload that still has to read this slot of the staging memory. */
  ghost predicate SlotIdle(s: State, slot: nat) {
    forall i :: s.done <= i < |s.log| && s.log[i].Upload? ==> s.log[i].slot != slot
  }

  ghost predicate StageHolds(c: Job, s: State, span: nat)
    requires Loadable(c) && BuffersSized(c, s) && span < |c.spans| && SpanLoadable(c, span)
  {
    s.stage[Slot(span)][..c.spans[span].bytes] == SpanBytes(c, span)
  }

  ghost predicate TransferHolds(c: Job, s: State, span: nat)
    requires Loadable(c) && BuffersSized(c, s) && span < |c.spans| && SpanLoadable(c, span)
  {
    s.transfer[Slot(span)][..c.spans[span].bytes] == SpanBytes(c, span)
  }

  ghost predicate ResidentHolds(c: Job, s: State, e: nat)
    requires BuffersSized(c, s) && e < |c.entries|
  {
    End(c.entries[e]) <= |c.file| && s.resident[e] == EntryBytes(c, e)
  }

  /** What is in the buffers, as far as pending operations depend on it and executed ones have produced it. */
  ghost predicate ContentsOk(c: Job, s: State)
    requires Loadable(c) && BuffersSized(c, s) && LogOk(c, s.log)
  {
    && s.done <= |s.log|
    && (forall i :: s.done <= i < |s.log| && s.log[i].Upload? ==>
          OpOk(c, s.log, i) && StageHolds(c, s, s.log[i].span))
    && (s.done > 0 ==> OpOk(c, s.log, s.done - 1) && TransferHolds(c, s, s.log[s.done - 1].span))
    && (forall i :: 0 <= i < s.done && s.log[i].Copy? ==> OpOk(c, s.log, i) && ResidentHolds(c, s, s.log[i].target))
  }

  ghost predicate StagingOk(c: Job, s: State)
    requires Loadable(c) && BuffersSized(c, s)
  {
    && (s.phase == Staging ==> SlotIdle(s, Slot(s.span)))
    && (s.phase == Uploading && s.span < |c.spans| ==> SpanLoadable(c, s.span) && StageHolds(c, s, s.span))
  }

  ghost predicate Inv(c: Job, s: State)
    requires Loadable(c)
  {
    && BuffersSized(c, s)
    && LogOk(c, s.log)
    && HostOk(c, s)
    && AllIssued(c, s)
    && EventsOk(s)
    && ContentsOk(c, s)
    && StagingOk(c, s)
  }

  // ---------------------------------------------------------------- preservation

  lemma InitInv(c: Job, s: State)
    requires Loadable(c) && Init(c, s)
    ensures Inv(c, s)
  {
  }

  /** Appending the right operation keeps the log well formed, and nothing already in the log changes. */
  lemma AppendKeepsLog(c: Job, log: seq<Op>, op: Op)
    requires Loadable(c) && LogOk(c, log) && OpOk(c, log + [op], |log|)
    ensures LogOk(c, log + [op])
  {
    forall i | 0 <= i < |log| ensures OpOk(c, log + [op], i) {
      assert OpOk(c, log, i);
    }
  }

  lemma AppendKeepsIssued(log: seq<Op>, op: Op, e: nat)
    requires Issued(log, e)
    ensures Issued(log + [op], e)
  {
    var i :| CopyAt(log, i, e);
    assert CopyAt(log + [op], i, e);
  }

  /** Once the log has moved past a span, that span's record is in it. */
  lemma {:induction false} RecordFollows(c: Job, log: seq<Op>, i: nat, m: nat) returns (r: nat)
    requires Loadable(c) && LogOk(c, log) && i < m < |log| && log[i].span < log[m].span
    ensures i <= r < m && log[r].Record? && log[r].span == log[i].span
    decreases m
  {
    assert OpOk(c, log, m);
    if log[m - 1].span == log[i].span {
      r := m - 1;
    } else {
      SpansNeverDecrease(c, log, i, m - 1);
      r := RecordFollows(c, log, i, m - 1);
    }
  }

  lemma {:induction false} SpansNeverDecrease(c: Job, log: seq<Op>, i: nat, m: nat)
    requires Loadable(c) && LogOk(c, log) && i <= m < |log|
    ensures log[i].span <= log[m].span
    decreases m
  {
    if i < m {
      assert OpOk(c, log, m);
      SpansNeverDecrease(c, log, i, m - 1);
    }
  }

  /** The wait before staging is enough: when it returns, no pending upload reads the slot. */
  lemma WaitFreesSlot(c: Job, s: State)
    requires Loadable(c) && Inv(c, s) && s.phase == Waiting && s.span < |c.spans|
    requires s.span >= SLOTS ==> EventPassed(s, Slot(s.span))
    ensures SlotIdle(s, Slot(s.span))
  {
    hide SpanLoadable, AllIssued, ContentsOk, StagingOk, BuffersSized;
    assert BetweenSpans(s) && EventsOk(s) && LogOk(c, s.log);
    forall i | s.done <= i < |s.log| && s.log[i].Upload? ensures s.log[i].slot != Slot(s.span) {
      assert OpOk(c, s.log, i);
      var m := |s.log| - 1;
      SpansNeverDecrease(c, s.log, i, m);
      assert s.log[m].span == s.span - 1;
      if s.log[i].span < s.span - 1 {
        var r := RecordFollows(c, s.log, i, m);
        assert OpOk(c, s.log, r);
      }
    }
  }

  lemma WaitKeepsInv(c: Job, s: State, t: State)
    requires Loadable(c) && Inv(c, s) && WaitStep(c, s, t)
    ensures Inv(c, t)
  {
    hide LogOk, Issued, ContentsOk, SpanLoadable;
    WaitFreesSlot(c, s);
    ContentsIgnoreHost(c, s, t);
    assert IssuedEntries(c, t) == IssuedEntries(c, s);
  }

  /** Filling the idle slot disturbs no pending upload. */
  lemma StageKeepsContents(c: Job, s: State, t: State)
    requires Loadable(c) && Inv(c, s) && StageStep(c, s, t) && BuffersSized(c, t)
    ensures ContentsOk(c, t)
  {
    hide AllIssued, EventsOk, HostOk, Overwrite;
    forall i | t.done <= i < |t.log| && t.log[i].Upload?
      ensures OpOk(c, t.log, i) && StageHolds(c, t, t.log[i].span)
    {
      assert OpOk(c, s.log, i) && StageHolds(c, s, s.log[i].span);
      assert t.stage[s.log[i].slot] == s.stage[s.log[i].slot];
    }
    forall i | 0 <= i < t.done && t.log[i].Copy? ensures OpOk(c, t.log, i) && ResidentHolds(c, t, t.log[i].target) {
      assert OpOk(c, s.log, i) && ResidentHolds(c, s, s.log[i].target);
    }
  }

  lemma StageKeepsInv(c: Job, s: State, t: State)
    requires Loadable(c) && Inv(c, s) && StageStep(c, s, t)
    ensures Inv(c, t)
  {
    hide LogOk, Issued, ContentsOk;
    StageKeepsContents(c, s, t);
    assert IssuedEntries(c, t) == IssuedEntries(c, s);
  }

  lemma UploadKeepsInv(c: Job, s: State, t: State)
    requires Loadable(c) && Inv(c, s) && UploadStep(c, s, t)
    ensures Inv(c, t)
  {
    hide Issued, ContentsOk, LogOk, StageHolds, Overwrite;
    var op := UploadOf(c, s.span);
    assert SpanLoadable(c, s.span);
    AppendKeepsLog(c, s.log, op);
    AppendKeepsContents(c, s, op);
    ContentsIgnoreHost(c, s.(log := t.log), t);
    forall e | 0 <= e < IssuedEntries(c, t) ensures Issued(t.log, e) {
      AppendKeepsIssued(s.log, op, e);
    }
  }

  /** Enqueueing changes no buffer; a new upload needs its staging slot to be filled. */
  lemma AppendKeepsContents(c: Job, s: State, op: Op)
    requires Loadable(c) && Inv(c, s) && LogOk(c, s.log + [op])
    requires op.Upload? ==> op.span < |c.spans| && SpanLoadable(c, op.span) && StageHolds(c, s, op.span)
    ensures ContentsOk(c, s.(log := s.log + [op]))
  {
    var t := s.(log := s.log + [op]);
    forall i | t.done <= i < |t.log| && t.log[i].Upload?
      ensures OpOk(c, t.log, i) && StageHolds(c, t, t.log[i].span)
    {
      if i < |s.log| {
        assert OpOk(c, s.log, i) && StageHolds(c, s, s.log[i].span);
      }
    }
    forall i | 0 <= i < t.done && t.log[i].Copy? ensures OpOk(c, t.log, i) && ResidentHolds(c, t, t.log[i].target) {
      assert OpOk(c, s.log, i) && ResidentHolds(c, s, s.log[i].target);
    }
  }

  lemma ContentsIgnoreHost(c: Job, s: State, t: State)
    requires Loadable(c) && BuffersSized(c, s) && LogOk(c, s.log) && ContentsOk(c, s)
    requires BuffersSized(c, t) && t.log == s.log && t.done == s.done
    requires t.stage == s.stage && t.transfer == s.transfer && t.resident == s.resident
    ensures ContentsOk(c, t)
  {
    forall i | t.done <= i < |t.log| && t.log[i].Upload?
      ensures OpOk(c, t.log, i) && StageHolds(c, t, t.log[i].span)
    {
      assert StageHolds(c, s, s.log[i].span);
    }
    assert t.done > 0 ==> TransferHolds(c, s, s.log[s.done - 1].span);
    forall i | 0 <= i < t.done && t.log[i].Copy? ensures OpOk(c, t.log, i) && ResidentHolds(c, t, t.log[i].target) {
      assert ResidentHolds(c, s, s.log[i].target);
    }
  }

  lemma ScatterKeepsInv(c: Job, s: State, t: State)
    requires Loadable(c) && Inv(c, s) && ScatterStep(c, s, t)
    ensures Inv(c, t)
  {
    hide ContentsOk, LogOk, StageHolds, Overwrite;
    var entry := c.spans[s.span].firstEntry + s.phase.next;
    var op := CopyOf(c, s.span, entry);
    AppendKeepsLog(c, s.log, op);
    AppendKeepsContents(c, s, op);
    ContentsIgnoreHost(c, s.(log := t.log), t);
    forall e | 0 <= e < IssuedEntries(c, t) ensures Issued(t.log, e) {
      if e == entry {
        assert CopyAt(t.log, |s.log|, e);
      } else {
        AppendKeepsIssued(s.log, op, e);
      }
    }
  }

  lemma RecordKeepsInv(c: Job, s: State, t: State)
    requires Loadable(c) && Inv(c, s) && RecordStep(c, s, t)
    ensures Inv(c, t)
  {
    hide Issued, ContentsOk, LogOk, StageHolds;
    var op := Record(s.span, Slot(s.span));
    assert SpanLoadable(c, s.span);
    AppendKeepsLog(c, s.log, op);
    AppendKeepsContents(c, s, op);
    ContentsIgnoreHost(c, s.(log := t.log), t);
    forall e | 0 <= e < IssuedEntries(c, t) ensures Issued(t.log, e) {
      AppendKeepsIssued(s.log, op, e);
    }
  }

  lemma PhaseChangeKeepsInv(c: Job, s: State, t: State)
    requires Loadable(c) && Inv(c, s) && (LeaveLoopStep(c, s, t) || DrainStep(c, s, t) || FailStep(c, s, t))
    ensures Inv(c, t)
  {
    hide LogOk, Issued, ContentsOk, SpanLoadable;
    ContentsIgnoreHost(c, s, t);
    assert IssuedEntries(c, t) <= IssuedEntries(c, s);
  }

  lemma SliceOfHeldSpan(c: Job, s: State, span: nat, e: nat)
    requires Loadable(c) && BuffersSized(c, s) && span < |c.spans| && SpanLoadable(c, span)
    requires c.spans[span].firstEntry <= e < SpanStop(c.spans[span])
    requires TransferHolds(c, s, span)
    ensures var op := CopyOf(c, span, e);
      && OpInRange(s, op)
      && s.transfer[op.slot][op.relative..op.relative + op.bytes] == EntryBytes(c, e)
  {
    hide Loadable;
    var op, sp := CopyOf(c, span, e), c.spans[span];
    var buffer := s.transfer[Slot(span)];
    assert Inside(c.entries[e], sp);
    SliceOfSlice(buffer, 0, sp.bytes, op.relative, op.relative + op.bytes);
    SliceOfSlice(c.file, sp.fileOffset, sp.fileOffset + sp.bytes, op.relative, op.relative + op.bytes);
  }

  /** What a device step leaves alone: pending uploads still find their span, finished allocations keep their bytes. */
  lemma DeviceFrame(c: Job, s: State, t: State)
    requires Loadable(c) && Inv(c, s) && BuffersSized(c, t) && t.log == s.log && t.done == s.done + 1 <= |s.log|
    requires t.stage == s.stage && OpOk(c, s.log, s.done)
    requires TransferHolds(c, t, s.log[s.done].span)
    requires forall e :: 0 <= e < |c.entries| && !CopyAt(s.log, s.done, e) ==> t.resident[e] == s.resident[e]
    requires s.log[s.done].Copy? ==> ResidentHolds(c, t, s.log[s.done].target)
    ensures ContentsOk(c, t)
  {
    forall i | t.done <= i < |t.log| && t.log[i].Upload?
      ensures OpOk(c, t.log, i) && StageHolds(c, t, t.log[i].span)
    {
      assert StageHolds(c, s, s.log[i].span);
    }
    forall i | 0 <= i < t.done && t.log[i].Copy? ensures OpOk(c, t.log, i) && ResidentHolds(c, t, t.log[i].target) {
      assert OpOk(c, s.log, i);
      if i < s.done && !CopyAt(s.log, s.done, s.log[i].target) {
        assert ResidentHolds(c, s, s.log[i].target);
      }
    }
  }

  lemma DeviceUploads(c: Job, s: State, t: State)
    requires Loadable(c) && Inv(c, s) && DeviceStep(s, t) && s.log[s.done].Upload?
    ensures BuffersSized(c, t) && ContentsOk(c, t)
  {
    var op := s.log[s.done];
    assert OpOk(c, s.log, s.done) && StageHolds(c, s, op.span);
    assert t.transfer[Slot(op.span)][..op.bytes] == s.stage[Slot(op.span)][..op.bytes];
    DeviceFrame(c, s, t);
  }

  lemma CopyFillsAllocation(c: Job, s: State, span: nat, e: nat)
    requires Loadable(c) && BuffersSized(c, s) && span < |c.spans| && SpanLoadable(c, span)
    requires c.spans[span].firstEntry <= e < SpanStop(c.spans[span]) && TransferHolds(c, s, span)
    ensures OpInRange(s, CopyOf(c, span, e))
    ensures var t := Execute(s, CopyOf(c, span, e)).(done := s.done + 1);
      && BuffersSized(c, t) && ResidentHolds(c, t, e) && TransferHolds(c, t, span)
      && forall k :: 0 <= k < |c.entries| && k != e ==> t.resident[k] == s.resident[k]
  {
    SliceOfHeldSpan(c, s, span, e);
    assert Inside(c.entries[e], c.spans[span]);
  }

  lemma DeviceCopies(c: Job, s: State, t: State)
    requires Loadable(c) && Inv(c, s) && DeviceStep(s, t) && s.log[s.done].Copy?
    ensures BuffersSized(c, t) && ContentsOk(c, t)
  {
    var op := s.log[s.done];
    assert OpOk(c, s.log, s.done) && OpOk(c, s.log, s.done - 1) && TransferHolds(c, s, op.span);
    CopyFillsAllocation(c, s, op.span, op.target);
    DeviceFrame(c, s, t);
  }

  lemma DeviceRecords(c: Job, s: State, t: State)
    requires Loadable(c) && Inv(c, s) && DeviceStep(s, t) && s.log[s.done].Record?
    ensures BuffersSized(c, t) && ContentsOk(c, t)
  {
    assert OpOk(c, s.log, s.done) && TransferHolds(c, s, s.log[s.done].span);
    DeviceFrame(c, s, t);
  }

  lemma DeviceKeepsStaging(c: Job, s: State, t: State)
    requires Loadable(c) && Inv(c, s) && BuffersSized(c, t)
    requires t.log == s.log && t.done == s.done + 1 <= |s.log| && t.stage == s.stage
    requires t.phase == s.phase && t.span == s.span && t.events == s.events
    ensures HostOk(c, t) && AllIssued(c, t) && EventsOk(t) && StagingOk(c, t)
  {
    hide LogOk, Issued, ContentsOk;
    assert IssuedEntries(c, t) == IssuedEntries(c, s);
    if s.phase == Uploading {
      assert StageHolds(c, s, s.span);
    }
  }

  /** The device executes the next operation: uploads fill the transfer buffer, copies fill one allocation. */
  lemma DeviceKeepsInv(c: Job, s: State, t: State)
    requires Loadable(c) && Inv(c, s) && DeviceStep(s, t)
    ensures Inv(c, t)
  {
    match s.log[s.done] {
      case Upload(_, _, _) => DeviceUploads(c, s, t);
      case Copy(_, _, _, _, _) => DeviceCopies(c, s, t);
      case Record(_, _) => DeviceRecords(c, s, t);
    }
    DeviceKeepsStaging(c, s, t);
  }

  /** Every step of the host, every failure and every step of the device keeps the invariant. */
  lemma StepKeepsInv(c: Job, s: State, t: State)
    requires Loadable(c) && Inv(c, s) && Step(c, s, t)
    ensures Inv(c, t)
  {
    if DeviceStep(s, t) {
      DeviceKeepsInv(c, s, t);
    } else if WaitStep(c, s, t) {
      WaitKeepsInv(c, s, t);
    } else if StageStep(c, s, t) {
      StageKeepsInv(c, s, t);
    } else if UploadStep(c, s, t) {
      UploadKeepsInv(c, s, t);
    } else if ScatterStep(c, s, t) {
      ScatterKeepsInv(c, s, t);
    } else if RecordStep(c, s, t) {
      RecordKeepsInv(c, s, t);
    } else {
      PhaseChangeKeepsInv(c, s, t);
    }
  }

  // ---------------------------------------------------------------- runs

  /** Any interleaving of host and device steps. */
  ghost predicate IsRun(c: Job, run: seq<State>)
    requires Loadable(c)
  {
    && run != [] && Init(c, run[0])
    && forall i :: 0 < i < |run| ==> RunStep(c, run[i - 1], run[i])
  }

  ghost predicate RunStep(c: Job, s: State, t: State)
    requires Loadable(c)
  {
    BuffersSized(c, s) && Step(c, s, t)
  }

  lemma {:induction false} RunKeepsInv(c: Job, run: seq<State>, i: nat)
    requires Loadable(c) && IsRun(c, run) && i < |run|
    ensures Inv(c, run[i])
  {
    if i == 0 {
      InitInv(c, run[0]);
    } else {
      RunKeepsInv(c, run, i - 1);
      assert RunStep(c, run[i - 1], run[i]);
      StepKeepsInv(c, run[i - 1], run[i]);
    }
  }

  /** Safety: whenever the host may fill a staging slot, no upload that reads the slot is pending. */
  lemma NoSlotOverwrittenWhilePending(c: Job, run: seq<State>, i: nat)
    requires Loadable(c) && IsRun(c, run) && i < |run|
    ensures run[i].phase == Staging ==> SlotIdle(run[i], Slot(run[i].span))
  {
    RunKeepsInv(c, run, i);
  }

  /** After the one final synchronisation every allocation holds exactly its entry's file bytes. */
  lemma LoadedMeansResident(c: Job, run: seq<State>, i: nat, e: nat)
    requires Loadable(c) && IsRun(c, run) && i < |run| && run[i].phase == Loaded && e < |c.entries|
    ensures BuffersSized(c, run[i]) && ResidentHolds(c, run[i], e)
  {
    RunKeepsInv(c, run, i);
    var s := run[i];
    assert c.spans != [];
    assert s.span == |c.spans| && IssuedEntries(c, s) == |c.entries|;
    assert Issued(s.log, e);
    var k :| CopyAt(s.log, k, e);
    assert OpOk(c, s.log, k);
  }

  // ---------------------------------------------------------------- progress and termination

  ghost predicate CanStep(c: Job, s: State)
    requires Loadable(c) && BuffersSized(c, s)
  {
    exists t :: Moves(c, s, t)
  }

  ghost predicate Moves(c: Job, s: State, t: State)
    requires Loadable(c) && BuffersSized(c, s)
  {
    HostStep(c, s, t) || DeviceStep(s, t)
  }

  lemma PendingOpCanExecute(c: Job, s: State)
    requires Loadable(c) && Inv(c, s) && s.done < |s.log|
    ensures CanStep(c, s)
  {
    var op := s.log[s.done];
    assert OpOk(c, s.log, s.done);
    if op.Copy? {
      assert TransferHolds(c, s, op.span);
      SliceOfHeldSpan(c, s, op.span, op.target);
    }
    assert Moves(c, s, Execute(s, op).(done := s.done + 1));
  }

  lemma HostCanStep(c: Job, s: State)
    requires Loadable(c) && Inv(c, s) && s.phase !in {Loaded, Failed} && s.done == |s.log|
    ensures CanStep(c, s)
  {
    assert s.span < |c.spans| ==> SpanLoadable(c, s.span);
    match s.phase
    case Waiting =>
      if s.span < |c.spans| {
        assert Moves(c, s, s.(phase := Staging));
      } else {
        assert Moves(c, s, s.(phase := Draining));
      }
    case Staging =>
      var k := Slot(s.span);
      assert Moves(c, s, s.(phase := Uploading, stage := s.stage[k := Overwrite(s.stage[k], SpanBytes(c, s.span))]));
    case Uploading =>
      assert Moves(c, s, s.(phase := Scattering(0), log := s.log + [UploadOf(c, s.span)]));
    case Scattering(j) =>
      if j < c.spans[s.span].entryCount {
        var e := c.spans[s.span].firstEntry + j;
        assert Inside(c.entries[e], c.spans[s.span]);
        assert Moves(c, s, s.(phase := Scattering(j + 1), log := s.log + [CopyOf(c, s.span, e)]));
      } else {
        var t := s.(phase := Waiting, span := s.span + 1, log := s.log + [Record(s.span, Slot(s.span))],
                    events := s.events[Slot(s.span) := Some(|s.log|)]);
        assert RecordStep(c, s, t);
        assert Moves(c, s, t);
      }
    case Draining =>
      assert Moves(c, s, s.(phase := Loaded));
  }

  /** No deadlock: until the load is over, the host or the device can move. */
  lemma LoadNeverGetsStuck(c: Job, run: seq<State>, i: nat)
    requires Loadable(c) && IsRun(c, run) && i < |run| && run[i].phase !in {Loaded, Failed}
    ensures BuffersSized(c, run[i]) && CanStep(c, run[i])
  {
    RunKeepsInv(c, run, i);
    if run[i].done < |run[i].log| {
      PendingOpCanExecute(c, run[i]);
    } else {
      HostCanStep(c, run[i]);
    }
  }

  /** Host work left: spans still to stage, and what remains of the current one. */
  function PhaseRank(c: Job, s: State): nat {
    match s.phase
    case Waiting => 5
    case Staging => 4
    case Uploading => 3
    case Scattering(j) => 2
    case Draining => 1
    case Loaded => 0
    case Failed => 0
  }

  function EntriesLeft(c: Job, s: State): nat {
    if s.phase.Scattering? && s.span < |c.spans| && s.phase.next <= c.spans[s.span].entryCount
    then c.spans[s.span].entryCount - s.phase.next else 0
  }

  function SpansLeft(c: Job, s: State): nat {
    if s.span <= |c.spans| then |c.spans| - s.span else 0
  }

  /** Every step makes the lexicographic measure smaller, so no run is infinite. */
  lemma EveryStepProgresses(c: Job, s: State, t: State)
    requires Loadable(c) && Inv(c, s) && Step(c, s, t)
    ensures SpansLeft(c, t) <= SpansLeft(c, s)
    ensures SpansLeft(c, t) == SpansLeft(c, s) ==> PhaseRank(c, t) <= PhaseRank(c, s)
    ensures SpansLeft(c, t) == SpansLeft(c, s) && PhaseRank(c, t) == PhaseRank(c, s) ==>
      EntriesLeft(c, t) <= EntriesLeft(c, s)
    ensures (SpansLeft(c, t) == SpansLeft(c, s) && PhaseRank(c, t) == PhaseRank(c, s)
             && EntriesLeft(c, t) == EntriesLeft(c, s)) ==>
      t.done <= |t.log| && |t.log| - t.done < |s.log| - s.done
  {
    hide LogOk, AllIssued, ContentsOk, EventsOk, StagingOk;
    if s.phase.Scattering? && !DeviceStep(s, t) {
      assert SpanLoadable(c, s.span);
    }
  }
}
