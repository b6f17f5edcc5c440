/** The residency planner (src/q3_residency_plan.c): entries in file order, coalesced greedily into spans. */
module ResidencyPlan {
  import opened Wrappers

  /** SIZE_MAX / sizeof(q3_residency_plan_entry) on a 64-bit target. */
  const MAX_ENTRIES: nat := U64_MAX / 32

  datatype Tensor = Tensor(name: seq<int>, absOffset: nat, bytes: nat)

  datatype FileModel = FileModel(size: nat, tensors: seq<Tensor>)

  /** The planner's arguments: which tensors stay out of the plan, and the two coalescing limits. */
  datatype Policy = Policy(model: FileModel, isPle: Tensor -> bool, maxGap: nat, maxSpan: nat)

  datatype Entry = Entry(tensorIndex: nat, fileOffset: nat, bytes: nat)

  datatype Span = Span(fileOffset: nat, bytes: nat, firstEntry: nat, entryCount: nat)

  datatype PlanError = InvalidArguments | TensorOverflow | TensorOutsideModel | ByteCountOverflow

  /** All sizes of the model are 64-bit values. */
  ghost predicate WellSized(model: FileModel) {
    && model.size <= U64_MAX
    && forall t :: t in model.tensors ==> t.absOffset <= U64_MAX && t.bytes <= U64_MAX
  }

  function End(e: Entry): nat { e.fileOffset + e.bytes }

  predicate Overlap(aOffset: nat, aBytes: nat, bOffset: nat, bBytes: nat) {
    aOffset < bOffset + bBytes && bOffset < aOffset + aBytes
  }

  // ---------------------------------------------------------------- helpers of the C file

  /** compare_entries as "not after". */
  predicate EntryLeq(a: Entry, b: Entry) {
    a.fileOffset < b.fileOffset || (a.fileOffset == b.fileOffset && a.tensorIndex <= b.tensorIndex)
  }

  /** ranges_overlap, with its answer for ranges that wrap past 2^64. */
  predicate RangesOverlap(aOffset: nat, aBytes: nat, bOffset: nat, bBytes: nat)
    requires aBytes <= U64_MAX && bBytes <= U64_MAX
  {
    if aBytes == 0 || bBytes == 0 then false
    else if aOffset > U64_MAX - aBytes || bOffset > U64_MAX - bBytes then true
    else Overlap(aOffset, aBytes, bOffset, bBytes)
  }

  /** One tensor stops a span from growing to nextOffset. */
  predicate PleBlocks(p: Policy, t: Tensor, offset: nat, bytes: nat, nextOffset: nat)
    requires bytes <= U64_MAX && t.bytes <= U64_MAX
  {
    && t.bytes != 0
    && p.isPle(t)
    && (RangesOverlap(offset, bytes, t.absOffset, t.bytes) || offset + bytes <= t.absOffset <= nextOffset)
  }

  ghost predicate HasPleBetween(p: Policy, offset: nat, bytes: nat, nextOffset: nat)
    requires WellSized(p.model) && bytes <= U64_MAX
  {
    exists t :: t in p.model.tensors && PleBlocks(p, t, offset, bytes, nextOffset)
  }

  method SpanHasPleBetween(p: Policy, offset: nat, bytes: nat, nextOffset: nat) returns (r: bool)
    requires WellSized(p.model) && bytes <= U64_MAX
    ensures r <==> HasPleBetween(p, offset, bytes, nextOffset)
  {
    for i := 0 to |p.model.tensors|
      invariant forall k :: 0 <= k < i ==> !PleBlocks(p, p.model.tensors[k], offset, bytes, nextOffset)
    {
      if PleBlocks(p, p.model.tensors[i], offset, bytes, nextOffset) {
        return true;
      }
    }
    return false;
  }

  /** The test that lets `entry` join `span`; every sum here is of in-file values, so none wraps. */
  ghost predicate Fits(p: Policy, span: Span, entry: Entry)
    requires WellSized(p.model) && span.bytes <= U64_MAX
  {
    && entry.fileOffset >= span.fileOffset + span.bytes
    && entry.fileOffset - (span.fileOffset + span.bytes) <= p.maxGap
    && End(entry) - span.fileOffset <= p.maxSpan
    && !HasPleBetween(p, span.fileOffset, span.bytes, entry.fileOffset)
  }

  // ---------------------------------------------------------------- collecting entries

  predicate InFile(t: Tensor, size: nat) { t.absOffset <= size && t.bytes <= size - t.absOffset }

  predicate Planned(p: Policy, t: Tensor) { t.bytes != 0 && !p.isPle(t) }

  function EntryFor(t: Tensor, i: nat): Entry { Entry(i % U32_MODULUS, t.absOffset, t.bytes) }

  /** The planned entries of the first n tensors, in tensor order. */
  function Collected(p: Policy, n: nat): seq<Entry>
    requires n <= |p.model.tensors|
  {
    if n == 0 then []
    else
      var t := p.model.tensors[n - 1];
      Collected(p, n - 1) + (if Planned(p, t) then [EntryFor(t, n - 1)] else [])
  }

  function TotalBytes(es: seq<Entry>): nat {
    if es == [] then 0 else TotalBytes(es[..|es| - 1]) + es[|es| - 1].bytes
  }

  lemma {:induction false} TotalBytesAppend(es: seq<Entry>, e: Entry)
    ensures TotalBytes(es + [e]) == TotalBytes(es) + e.bytes
  {
    assert (es + [e])[..|es|] == es;
  }

  lemma {:induction false} TotalBytesConcat(a: seq<Entry>, b: seq<Entry>)
    ensures TotalBytes(a + b) == TotalBytes(a) + TotalBytes(b)
    decreases |b|
  {
    if b == [] {
      assert a + b == a;
    } else {
      assert (a + b)[..|a + b| - 1] == a + b[..|b| - 1];
      TotalBytesConcat(a, b[..|b| - 1]);
    }
  }

  ghost predicate InsideModel(p: Policy, n: nat)
    requires n <= |p.model.tensors|
  {
    forall i :: 0 <= i < n && p.model.tensors[i].bytes != 0 ==> InFile(p.model.tensors[i], p.model.size)
  }

  /** The arguments for which a plan exists. */
  ghost predicate Plannable(p: Policy) {
    && p.maxSpan != 0
    && |p.model.tensors| <= MAX_ENTRIES
    && InsideModel(p, |p.model.tensors|)
    && TotalBytes(Collected(p, |p.model.tensors|)) <= U64_MAX
  }

  lemma {:induction false} CollectedMonotone(p: Policy, m: nat, n: nat)
    requires m <= n <= |p.model.tensors|
    ensures TotalBytes(Collected(p, m)) <= TotalBytes(Collected(p, n))
    decreases n
  {
    if m < n {
      CollectedMonotone(p, m, n - 1);
      TotalBytesConcat(Collected(p, n - 1), Collected(p, n)[|Collected(p, n - 1)|..]);
      assert Collected(p, n) == Collected(p, n - 1) + Collected(p, n)[|Collected(p, n - 1)|..];
    }
  }

  /** Entry k of the collection stands for some planned tensor, and each planned tensor has an entry. */
  lemma {:induction false} CollectedIffPlanned(p: Policy, n: nat)
    requires n <= |p.model.tensors|
    ensures forall e :: e in Collected(p, n) <==>
      exists i :: 0 <= i < n && Planned(p, p.model.tensors[i]) && e == EntryFor(p.model.tensors[i], i)
  {
    if n > 0 {
      CollectedIffPlanned(p, n - 1);
    }
  }

  // ---------------------------------------------------------------- sorting

  ghost predicate Sorted(es: seq<Entry>) {
    forall i, j {:trigger EntryLeq(es[i], es[j])} :: 0 <= i < j < |es| ==> EntryLeq(es[i], es[j])
  }

  function InsertEntry(es: seq<Entry>, e: Entry): (r: seq<Entry>)
    ensures multiset(r) == multiset(es) + multiset{e}
  {
    if es == [] || EntryLeq(es[|es| - 1], e) then es + [e]
    else
      assert es == es[..|es| - 1] + [es[|es| - 1]];
      InsertEntry(es[..|es| - 1], e) + [es[|es| - 1]]
  }

  lemma {:induction false} InsertEntrySorted(es: seq<Entry>, e: Entry)
    requires Sorted(es)
    ensures Sorted(InsertEntry(es, e))
  {
    if es == [] {
    } else if EntryLeq(es[|es| - 1], e) {
      forall k | 0 <= k < |es| ensures EntryLeq(es[k], e) {
        assert k < |es| - 1 ==> EntryLeq(es[k], es[|es| - 1]);
      }
    } else {
      var front, last := es[..|es| - 1], es[|es| - 1];
      forall a, b | 0 <= a < b < |front| ensures EntryLeq(front[a], front[b]) {
        assert EntryLeq(es[a], es[b]);
      }
      InsertEntrySorted(front, e);
      var r := InsertEntry(front, e);
      forall k | 0 <= k < |r| ensures EntryLeq(r[k], last) {
        assert r[k] in multiset(r);
        if r[k] != e {
          var m :| 0 <= m < |front| && front[m] == r[k];
          assert EntryLeq(es[m], es[|es| - 1]);
        }
      }
    }
  }

  /** What qsort with compare_entries leaves in the table: the same entries in order. */
  function SortEntries(es: seq<Entry>): (r: seq<Entry>)
    ensures Sorted(r) && multiset(r) == multiset(es)
  {
    if es == [] then []
    else
      assert es == es[..|es| - 1] + [es[|es| - 1]];
      InsertEntrySorted(SortEntries(es[..|es| - 1]), es[|es| - 1]);
      InsertEntry(SortEntries(es[..|es| - 1]), es[|es| - 1])
  }

  // ---------------------------------------------------------------- greedy coalescing

  /** In file order, non-empty, and inside the file: what the planner hands to the span loop. */
  ghost predicate FileEntries(p: Policy, es: seq<Entry>) {
    Sorted(es) && forall i :: 0 <= i < |es| ==> es[i].bytes > 0 && End(es[i]) <= p.model.size
  }

  /** One iteration of the span loop: extend the last span, or open a new one. */
  ghost function AddEntry(p: Policy, spans: seq<Span>, i: nat, e: Entry): seq<Span>
    requires WellSized(p.model)
    requires spans != [] ==> spans[|spans| - 1].bytes <= U64_MAX
  {
    if spans != [] && Fits(p, spans[|spans| - 1], e) then
      var last := spans[|spans| - 1];
      spans[..|spans| - 1] + [last.(bytes := End(e) - last.fileOffset, entryCount := last.entryCount + 1)]
    else
      spans + [Span(e.fileOffset, e.bytes, i, 1)]
  }

  ghost function SpansUpTo(p: Policy, es: seq<Entry>, k: nat): (r: seq<Span>)
    requires WellSized(p.model) && FileEntries(p, es) && k <= |es|
    ensures forall s :: 0 <= s < |r| ==> r[s].fileOffset + r[s].bytes <= p.model.size
    ensures k > 0 ==> r != []
  {
    if k == 0 then [] else AddEntry(p, SpansUpTo(p, es, k - 1), k - 1, es[k - 1])
  }

  /** The span that covers exactly the entries i..j. */
  ghost function GroupSpan(es: seq<Entry>, i: nat, j: nat): Span
    requires Sorted(es) && i < j <= |es|
  {
    Span(es[i].fileOffset, GroupBytes(es, i, j), i, j - i)
  }

  ghost function GroupBytes(es: seq<Entry>, i: nat, j: nat): nat
    requires Sorted(es) && i < j <= |es|
  {
    assert i < j - 1 ==> EntryLeq(es[i], es[j - 1]);
    End(es[j - 1]) - es[i].fileOffset
  }

  /** Entry j passes the planner's test against the span of the entries i..j. */
  ghost predicate Joins(p: Policy, es: seq<Entry>, i: nat, j: nat)
    requires WellSized(p.model) && FileEntries(p, es) && i < j < |es|
  {
    Fits(p, GroupSpan(es, i, j), es[j])
  }

  /** Where span s ends in the entry table (and span s + 1 begins). */
  function SpanStop(s: Span): nat { s.firstEntry + s.entryCount }

  /** The span covers exactly its group of entries, and each later member of the group passed the test. */
  ghost predicate GroupOf(p: Policy, es: seq<Entry>, s: Span)
    requires WellSized(p.model) && FileEntries(p, es)
  {
    && s.entryCount > 0
    && SpanStop(s) <= |es|
    && s == GroupSpan(es, s.firstEntry, SpanStop(s))
    && forall j :: s.firstEntry < j < SpanStop(s) ==> Joins(p, es, s.firstEntry, j)
  }

  /** `next` starts where s stops, at an entry that failed the test for s. */
  ghost predicate Follows(p: Policy, es: seq<Entry>, s: Span, next: Span)
    requires WellSized(p.model) && FileEntries(p, es)
  {
    && next.firstEntry == SpanStop(s)
    && s.firstEntry < next.firstEntry < |es|
    && !Joins(p, es, s.firstEntry, next.firstEntry)
  }

  /**
   * The shape of the planner's result: the spans cut the first k entries into consecutive groups, and a new span was
   * opened only for an entry that failed the test.
   */
  ghost predicate GreedyShape(p: Policy, es: seq<Entry>, k: nat, spans: seq<Span>)
    requires WellSized(p.model) && FileEntries(p, es) && k <= |es|
  {
    && (spans == [] <==> k == 0)
    && (spans != [] ==> spans[0].firstEntry == 0 && SpanStop(spans[|spans| - 1]) == k)
    && (forall s :: 0 <= s < |spans| ==> GroupOf(p, es, spans[s]))
    && (forall s :: 0 < s < |spans| ==> Follows(p, es, spans[s - 1], spans[s]))
  }

  lemma AddEntryExtends(p: Policy, es: seq<Entry>, k: nat, last: Span)
    requires WellSized(p.model) && FileEntries(p, es) && k < |es|
    requires GroupOf(p, es, last) && SpanStop(last) == k
    ensures Fits(p, last, es[k]) <==> Joins(p, es, last.firstEntry, k)
    ensures Fits(p, last, es[k]) ==>
      GroupOf(p, es, last.(bytes := End(es[k]) - last.fileOffset, entryCount := last.entryCount + 1))
  {
    if Fits(p, last, es[k]) {
      var s := last.(bytes := End(es[k]) - last.fileOffset, entryCount := last.entryCount + 1);
      forall j | s.firstEntry < j < SpanStop(s) ensures Joins(p, es, s.firstEntry, j) {
        if j < k {
          assert Joins(p, es, last.firstEntry, j);
        }
      }
    }
  }

  lemma AddEntryKeepsShape(p: Policy, es: seq<Entry>, k: nat, spans: seq<Span>)
    requires WellSized(p.model) && FileEntries(p, es) && k < |es|
    requires GreedyShape(p, es, k, spans)
    ensures GreedyShape(p, es, k + 1, AddEntry(p, spans, k, es[k]))
  {
    var after := AddEntry(p, spans, k, es[k]);
    if spans != [] {
      AddEntryExtends(p, es, k, spans[|spans| - 1]);
      forall s | 0 < s < |after| ensures Follows(p, es, after[s - 1], after[s]) {
        if s < |spans| {
          assert Follows(p, es, spans[s - 1], spans[s]);
        }
      }
    }
  }

  lemma {:induction false} SpansHaveGreedyShape(p: Policy, es: seq<Entry>, k: nat)
    requires WellSized(p.model) && FileEntries(p, es) && k <= |es|
    ensures GreedyShape(p, es, k, SpansUpTo(p, es, k))
  {
    if k > 0 {
      SpansHaveGreedyShape(p, es, k - 1);
      AddEntryKeepsShape(p, es, k - 1, SpansUpTo(p, es, k - 1));
    }
  }

  // ---------------------------------------------------------------- the planner

  /** What the first n tensors make the collecting loop report, if anything: the first offender decides. */
  function ScanError(p: Policy, n: nat): Option<PlanError>
    requires n <= |p.model.tensors|
  {
    if n == 0 then None
    else if ScanError(p, n - 1).Some? then ScanError(p, n - 1)
    else
      var t := p.model.tensors[n - 1];
      if t.bytes == 0 then None
      else if !InFile(t, p.model.size) then Some(TensorOutsideModel)
      else if p.isPle(t) then None
      else if TotalBytes(Collected(p, n - 1)) > U64_MAX - t.bytes then Some(ByteCountOverflow)
      else None
  }

  function BuildError(p: Policy): Option<PlanError> {
    if p.maxSpan == 0 then Some(InvalidArguments)
    else if |p.model.tensors| > MAX_ENTRIES then Some(TensorOverflow)
    else ScanError(p, |p.model.tensors|)
  }

  /** excluded_ple_bytes, a 64-bit counter that may wrap. */
  function ExcludedBytes(p: Policy, n: nat): nat
    requires n <= |p.model.tensors|
  {
    if n == 0 then 0
    else
      var t := p.model.tensors[n - 1];
      if t.bytes != 0 && p.isPle(t) then (ExcludedBytes(p, n - 1) + t.bytes) % (U64_MAX + 1)
      else ExcludedBytes(p, n - 1)
  }

  function ExcludedCount(p: Policy, n: nat): nat
    requires n <= |p.model.tensors|
  {
    if n == 0 then 0
    else
      var t := p.model.tensors[n - 1];
      ExcludedCount(p, n - 1) + if t.bytes != 0 && p.isPle(t) then 1 else 0
  }

  lemma {:induction false} CollectedAppend(p: Policy, n: nat)
    requires n < |p.model.tensors|
    ensures var t := p.model.tensors[n];
      TotalBytes(Collected(p, n + 1)) == TotalBytes(Collected(p, n)) + if Planned(p, t) then t.bytes else 0
  {
    var t := p.model.tensors[n];
    if Planned(p, t) {
      TotalBytesAppend(Collected(p, n), EntryFor(t, n));
    } else {
      assert Collected(p, n + 1) == Collected(p, n);
    }
  }

  lemma {:induction false} ScanErrorNone(p: Policy, n: nat)
    requires WellSized(p.model) && n <= |p.model.tensors|
    ensures ScanError(p, n).None? <==> InsideModel(p, n) && TotalBytes(Collected(p, n)) <= U64_MAX
  {
    if n > 0 {
      ScanErrorNone(p, n - 1);
      CollectedAppend(p, n - 1);
    }
  }

  /** A plan is built for exactly the models whose tensors lie in the file and whose planned bytes fit 64 bits. */
  lemma BuildSucceedsIff(p: Policy)
    requires WellSized(p.model)
    ensures BuildError(p).None? <==> Plannable(p)
  {
    if p.maxSpan != 0 && |p.model.tensors| <= MAX_ENTRIES {
      ScanErrorNone(p, |p.model.tensors|);
    }
  }

  /** The entry table of a successful build. */
  function PlannedEntries(p: Policy): seq<Entry> {
    SortEntries(Collected(p, |p.model.tensors|))
  }

  lemma PlannedEntriesIff(p: Policy)
    ensures forall e :: e in PlannedEntries(p) <==>
      exists i :: 0 <= i < |p.model.tensors| && Planned(p, p.model.tensors[i]) && e == EntryFor(p.model.tensors[i], i)
  {
    var n := |p.model.tensors|;
    CollectedIffPlanned(p, n);
    forall e ensures e in PlannedEntries(p) <==> e in Collected(p, n) {
      assert e in PlannedEntries(p) <==> e in multiset(PlannedEntries(p));
      assert e in Collected(p, n) <==> e in multiset(Collected(p, n));
    }
  }

  lemma PlannedEntriesAreFileEntries(p: Policy)
    requires InsideModel(p, |p.model.tensors|)
    ensures FileEntries(p, PlannedEntries(p))
  {
    PlannedEntriesIff(p);
    var es := PlannedEntries(p);
    forall i | 0 <= i < |es| ensures es[i].bytes > 0 && End(es[i]) <= p.model.size {
      assert es[i] in es;
    }
  }

  /** q3_residency_plan. */
  class Plan {
    var entries: seq<Entry>
    var spans: seq<Span>
    var residentBytes: nat
    var excludedBytes: nat
    var excludedTensors: nat

    constructor ()
      ensures entries == [] && spans == [] && residentBytes == excludedBytes == excludedTensors == 0
    {
      entries, spans, residentBytes, excludedBytes, excludedTensors := [], [], 0, 0, 0;
    }

    /** q3_residency_plan_destroy */
    method Clear()
      modifies this
      ensures entries == [] && spans == [] && residentBytes == excludedBytes == excludedTensors == 0
    {
      entries, spans, residentBytes, excludedBytes, excludedTensors := [], [], 0, 0, 0;
    }

    /** The collecting loop. */
    method Collect(p: Policy) returns (error: Option<PlanError>)
      requires WellSized(p.model)
      requires entries == [] && spans == [] && residentBytes == excludedBytes == excludedTensors == 0
      modifies this
      ensures error == ScanError(p, |p.model.tensors|)
      ensures spans == []
      ensures error.None? ==>
        && entries == Collected(p, |p.model.tensors|)
        && residentBytes == TotalBytes(entries)
        && excludedBytes == ExcludedBytes(p, |p.model.tensors|)
        && excludedTensors == ExcludedCount(p, |p.model.tensors|)
      ensures error.Some? ==> entries == [] && residentBytes == excludedBytes == excludedTensors == 0
    {
      var n := |p.model.tensors|;
      var i := 0;
      while i < n
        invariant 0 <= i <= n
        invariant spans == [] && ScanError(p, i).None?
        invariant entries == Collected(p, i) && residentBytes == TotalBytes(entries)
        invariant excludedBytes == ExcludedBytes(p, i) && excludedTensors == ExcludedCount(p, i)
      {
        var t := p.model.tensors[i];
        CollectedAppend(p, i);
        if t.bytes != 0 {
          if t.absOffset > p.model.size || t.bytes > p.model.size - t.absOffset {
            Clear();
            ScanErrorSticks(p, i + 1, n);
            return Some(TensorOutsideModel);
          }
          if p.isPle(t) {
            excludedBytes := (excludedBytes + t.bytes) % (U64_MAX + 1);
            excludedTensors := excludedTensors + 1;
          } else {
            entries := entries + [Entry(i % U32_MODULUS, t.absOffset, t.bytes)];
            if residentBytes > U64_MAX - t.bytes {
              Clear();
              ScanErrorSticks(p, i + 1, n);
              return Some(ByteCountOverflow);
            }
            residentBytes := residentBytes + t.bytes;
          }
        }
        i := i + 1;
      }
      return None;
    }

    /** The body of the span loop. */
    method ExtendSpans(p: Policy, i: nat, entry: Entry)
      requires WellSized(p.model)
      requires spans != [] ==> spans[|spans| - 1].bytes <= U64_MAX
      modifies this`spans
      ensures spans == AddEntry(p, old(spans), i, entry)
    {
      if spans == [] {
        spans := [Span(entry.fileOffset, entry.bytes, i, 1)];
        return;
      }
      var span := spans[|spans| - 1];
      var spanEnd := span.fileOffset + span.bytes;
      var entryEnd := entry.fileOffset + entry.bytes;
      var ordered := entry.fileOffset >= spanEnd;
      var gap := if ordered then entry.fileOffset - spanEnd else 0;
      var hasPleBetween := SpanHasPleBetween(p, span.fileOffset, span.bytes, entry.fileOffset);
      var fits := ordered && gap <= p.maxGap && entryEnd >= span.fileOffset
        && entryEnd - span.fileOffset <= p.maxSpan && !hasPleBetween;
      if fits {
        spans := spans[..|spans| - 1] +
          [span.(bytes := entryEnd - span.fileOffset, entryCount := span.entryCount + 1)];
      } else {
        spans := spans + [Span(entry.fileOffset, entry.bytes, i, 1)];
      }
    }

    /** The span loop over the sorted entries. */
    method Coalesce(p: Policy)
      requires WellSized(p.model) && FileEntries(p, entries) && spans == []
      modifies this`spans
      ensures spans == SpansUpTo(p, entries, |entries|)
    {
      var i := 0;
      while i < |entries|
        invariant 0 <= i <= |entries|
        invariant spans == SpansUpTo(p, entries, i)
      {
        ExtendSpans(p, i, entries[i]);
        i := i + 1;
      }
    }

    /** q3_residency_plan_build: invalid arguments leave the plan alone, any later failure empties it. */
    method Build(p: Policy) returns (error: Option<PlanError>)
      requires WellSized(p.model)
      modifies this
      ensures error == BuildError(p)
      ensures error.None? <==> Plannable(p)
      ensures error.None? ==>
        && entries == PlannedEntries(p) && FileEntries(p, entries)
        && spans == SpansUpTo(p, entries, |entries|)
        && residentBytes == TotalBytes(Collected(p, |p.model.tensors|))
        && excludedBytes == ExcludedBytes(p, |p.model.tensors|)
        && excludedTensors == ExcludedCount(p, |p.model.tensors|)
      ensures error == Some(InvalidArguments) ==>
        && entries == old(entries) && spans == old(spans) && residentBytes == old(residentBytes)
        && excludedBytes == old(excludedBytes) && excludedTensors == old(excludedTensors)
      ensures error.Some? && error != Some(InvalidArguments) ==>
        entries == [] && spans == [] && residentBytes == excludedBytes == excludedTensors == 0
    {
      BuildSucceedsIff(p);
      if p.maxSpan == 0 {
        return Some(InvalidArguments);
      }
      Clear();
      if |p.model.tensors| > MAX_ENTRIES {
        return Some(TensorOverflow);
      }
      error := Collect(p);
      if error.None? {
        entries := SortEntries(entries);
        PlannedEntriesAreFileEntries(p);
        Coalesce(p);
      } else {
        ScanErrorKinds(p, |p.model.tensors|);
      }
    }
  }

  lemma {:induction false} ScanErrorSticks(p: Policy, m: nat, n: nat)
    requires m <= n <= |p.model.tensors| && ScanError(p, m).Some?
    ensures ScanError(p, n) == ScanError(p, m)
    decreases n
  {
    if m < n {
      ScanErrorSticks(p, m, n - 1);
    }
  }

  lemma {:induction false} ScanErrorKinds(p: Policy, n: nat)
    requires n <= |p.model.tensors|
    ensures ScanError(p, n) != Some(InvalidArguments)
  {
    if n > 0 {
      ScanErrorKinds(p, n - 1);
    }
  }
}
