/** plan_validate of the memory-plan command (src/q3_main.c), and what it decides about a built plan. */
module PlanValidate {
  import opened Wrappers
  import opened ResidencyPlan
  import opened PlanProperties

  /** The table fields are 64-bit, and every span refers to entries of the table. */
  ghost predicate Readable(es: seq<Entry>, spans: seq<Span>) {
    && (forall e :: e in es ==> e.fileOffset <= U64_MAX && e.bytes <= U64_MAX)
    && (forall s :: s in spans ==> s.fileOffset <= U64_MAX && s.bytes <= U64_MAX && SpanStop(s) <= |es|)
  }

  ghost predicate EntriesAccepted(es: seq<Entry>, n: nat)
    requires n <= |es|
  {
    && (forall i :: 0 < i < n ==> es[i - 1].fileOffset <= es[i].fileOffset)
    && (forall i :: 0 <= i < n ==> End(es[i]) <= U64_MAX)
    && TotalBytes(es[..n]) <= U64_MAX
  }

  ghost predicate SpanAccepted(es: seq<Entry>, s: Span)
    requires SpanStop(s) <= |es|
  {
    && s.fileOffset + s.bytes <= U64_MAX
    && forall i :: s.firstEntry <= i < SpanStop(s) ==> Inside(es[i], s)
  }

  predicate InOrder(s: Span, next: Span) { s.fileOffset + s.bytes <= next.fileOffset }

  ghost predicate SpansInOrder(spans: seq<Span>) {
    forall s :: 0 < s < |spans| ==> InOrder(spans[s - 1], spans[s])
  }

  /** The checks of plan_validate, as one condition on the plan. */
  ghost predicate Accepted(es: seq<Entry>, spans: seq<Span>, residentBytes: nat)
    requires Readable(es, spans)
  {
    && EntriesAccepted(es, |es|)
    && TotalBytes(es) == residentBytes
    && (forall s :: s in spans ==> SpanAccepted(es, s))
    && SpansInOrder(spans)
  }

  lemma {:induction false} TotalBytesPrefix(es: seq<Entry>, n: nat)
    requires n <= |es|
    ensures TotalBytes(es[..n]) <= TotalBytes(es)
    decreases |es|
  {
    if n < |es| {
      assert es[..|es| - 1][..n] == es[..n];
      TotalBytesPrefix(es[..|es| - 1], n);
    } else {
      assert es[..n] == es;
    }
  }

  lemma AcceptedPrefix(es: seq<Entry>, n: nat)
    requires n < |es|
    ensures EntriesAccepted(es, |es|) ==> EntriesAccepted(es, n + 1)
    ensures TotalBytes(es[..n + 1]) == TotalBytes(es[..n]) + es[n].bytes
    ensures EntriesAccepted(es, n + 1) <==>
      && EntriesAccepted(es, n) && (n > 0 ==> es[n - 1].fileOffset <= es[n].fileOffset)
      && End(es[n]) <= U64_MAX && TotalBytes(es[..n]) + es[n].bytes <= U64_MAX
  {
    assert es[..n + 1][..n] == es[..n];
    TotalBytesPrefix(es, n + 1);
    assert es[..|es|] == es;
  }

  method ValidateEntries(es: seq<Entry>) returns (ok: bool, total: nat)
    requires forall e :: e in es ==> e.fileOffset <= U64_MAX && e.bytes <= U64_MAX
    ensures ok <==> EntriesAccepted(es, |es|)
    ensures ok ==> total == TotalBytes(es)
  {
    total := 0;
    for i := 0 to |es|
      invariant EntriesAccepted(es, i) && total == TotalBytes(es[..i])
    {
      var e := es[i];
      AcceptedPrefix(es, i);
      if i > 0 && e.fileOffset < es[i - 1].fileOffset {
        return false, total;
      }
      if e.bytes > U64_MAX - e.fileOffset {
        return false, total;
      }
      if total > U64_MAX - e.bytes {
        return false, total;
      }
      total := total + e.bytes;
    }
    assert es[..|es|] == es;
    ok := true;
  }

  method ValidateSpan(es: seq<Entry>, s: Span) returns (ok: bool)
    requires SpanStop(s) <= |es| && s.fileOffset <= U64_MAX
    ensures ok <==> SpanAccepted(es, s)
  {
    if s.bytes > U64_MAX - s.fileOffset {
      return false;
    }
    for k := 0 to s.entryCount
      invariant forall i :: s.firstEntry <= i < s.firstEntry + k ==> Inside(es[i], s)
    {
      var e := es[s.firstEntry + k];
      if e.fileOffset < s.fileOffset || e.fileOffset + e.bytes > s.fileOffset + s.bytes {
        assert !Inside(es[s.firstEntry + k], s);
        return false;
      }
    }
    return true;
  }

  /** plan_validate */
  method Validate(plan: Plan) returns (ok: bool)
    requires Readable(plan.entries, plan.spans)
    ensures ok <==> Accepted(plan.entries, plan.spans, plan.residentBytes)
  {
    var es, spans := plan.entries, plan.spans;
    var total;
    ok, total := ValidateEntries(es);
    if !ok || total != plan.residentBytes {
      return false;
    }
    for s := 0 to |spans|
      invariant forall t :: 0 <= t < s ==> SpanAccepted(es, spans[t])
    {
      ok := ValidateSpan(es, spans[s]);
      if !ok {
        return false;
      }
    }
    var s := 1;
    while s < |spans|
      invariant 1 <= s && forall t :: 0 < t < s && t < |spans| ==> InOrder(spans[t - 1], spans[t])
    {
      if spans[s].fileOffset < spans[s - 1].fileOffset + spans[s - 1].bytes {
        return false;
      }
      s := s + 1;
    }
    return true;
  }

  // ---------------------------------------------------------------- on a built plan

  lemma BuiltPlanIsReadable(p: Policy, es: seq<Entry>, spans: seq<Span>)
    requires WellSized(p.model) && FileEntries(p, es) && GreedyShape(p, es, |es|, spans)
    ensures Readable(es, spans)
    ensures forall s :: s in spans ==> SpanAccepted(es, s)
    ensures forall i :: 0 <= i < |es| ==> End(es[i]) <= U64_MAX
  {
    forall s | s in spans
      ensures s.fileOffset <= U64_MAX && s.bytes <= U64_MAX && SpanStop(s) <= |es| && SpanAccepted(es, s)
    {
      forall i | s.firstEntry <= i < SpanStop(s) ensures Inside(es[i], s) {
        EntryInsideItsSpan(p, es, s, i);
      }
      assert End(es[SpanStop(s) - 1]) <= p.model.size;
    }
  }

  lemma SortedEntriesAscend(es: seq<Entry>)
    requires Sorted(es)
    ensures forall i :: 0 < i < |es| ==> es[i - 1].fileOffset <= es[i].fileOffset
  {
    forall i | 0 < i < |es| ensures es[i - 1].fileOffset <= es[i].fileOffset {
      assert EntryLeq(es[i - 1], es[i]);
    }
  }

  /** An entry that overlaps its predecessor opened a new span that overlaps the previous one. */
  lemma OverlapShowsInSpans(p: Policy, es: seq<Entry>, spans: seq<Span>, i: nat)
    requires WellSized(p.model) && FileEntries(p, es) && GreedyShape(p, es, |es|, spans)
    requires SpansInOrder(spans)
    requires 0 < i < |es|
    ensures End(es[i - 1]) <= es[i].fileOffset
  {
    var s := SpanOfEntry(p, es, |es|, spans, i);
    assert GroupOf(p, es, spans[s]);
    if spans[s].firstEntry < i {
      GroupIsOrdered(p, es, spans[s], i);
    } else {
      assert Follows(p, es, spans[s - 1], spans[s]);
      assert GroupOf(p, es, spans[s - 1]);
      assert InOrder(spans[s - 1], spans[s]);
    }
  }

  lemma {:induction false} AdjacentOrderIsGlobal(es: seq<Entry>, i: nat, j: nat)
    requires forall k :: 0 < k < |es| ==> End(es[k - 1]) <= es[k].fileOffset
    requires i < j < |es|
    ensures End(es[i]) <= es[j].fileOffset
    decreases j
  {
    if i < j - 1 {
      AdjacentOrderIsGlobal(es, i, j - 1);
    }
  }

  lemma DisjointSpansFollow(p: Policy, es: seq<Entry>, spans: seq<Span>, s: nat)
    requires WellSized(p.model) && FileEntries(p, es) && GreedyShape(p, es, |es|, spans)
    requires EntriesDisjoint(es) && 0 < s < |spans|
    ensures InOrder(spans[s - 1], spans[s])
  {
    assert Follows(p, es, spans[s - 1], spans[s]);
    assert GroupOf(p, es, spans[s - 1]) && GroupOf(p, es, spans[s]);
    var first := spans[s].firstEntry;
    OrderedWhenDisjoint(p, es, first - 1, first);
  }

  lemma OrderedSpansMeanDisjointEntries(p: Policy, es: seq<Entry>, spans: seq<Span>)
    requires WellSized(p.model) && FileEntries(p, es) && GreedyShape(p, es, |es|, spans)
    requires SpansInOrder(spans)
    ensures EntriesDisjoint(es)
  {
    forall i | 0 < i < |es| ensures End(es[i - 1]) <= es[i].fileOffset {
      OverlapShowsInSpans(p, es, spans, i);
    }
    forall i, j | 0 <= i < j < |es| ensures !Overlap(es[i].fileOffset, es[i].bytes, es[j].fileOffset, es[j].bytes) {
      AdjacentOrderIsGlobal(es, i, j);
    }
  }

  lemma DisjointEntriesMeanOrderedSpans(p: Policy, es: seq<Entry>, spans: seq<Span>)
    requires WellSized(p.model) && FileEntries(p, es) && GreedyShape(p, es, |es|, spans)
    requires EntriesDisjoint(es)
    ensures SpansInOrder(spans)
  {
    forall s | 0 < s < |spans| ensures InOrder(spans[s - 1], spans[s]) {
      DisjointSpansFollow(p, es, spans, s);
    }
  }

  lemma SpansInOrderIffDisjoint(p: Policy, es: seq<Entry>, spans: seq<Span>)
    requires WellSized(p.model) && FileEntries(p, es) && GreedyShape(p, es, |es|, spans)
    ensures SpansInOrder(spans) <==> EntriesDisjoint(es)
  {
    if EntriesDisjoint(es) {
      DisjointEntriesMeanOrderedSpans(p, es, spans);
    } else if SpansInOrder(spans) {
      OrderedSpansMeanDisjointEntries(p, es, spans);
    }
  }

  lemma AcceptedIffInOrder(es: seq<Entry>, spans: seq<Span>)
    requires Readable(es, spans) && Sorted(es) && TotalBytes(es) <= U64_MAX
    requires forall s :: s in spans ==> SpanAccepted(es, s)
    requires forall i :: 0 <= i < |es| ==> End(es[i]) <= U64_MAX
    ensures Accepted(es, spans, TotalBytes(es)) <==> SpansInOrder(spans)
  {
    SortedEntriesAscend(es);
    assert es[..|es|] == es;
  }

  /** plan_validate accepts a built plan exactly when no two planned tensors share a byte. */
  lemma BuiltPlanAcceptedIffDisjoint(p: Policy, es: seq<Entry>)
    requires WellSized(p.model) && FileEntries(p, es) && TotalBytes(es) <= U64_MAX
    ensures Readable(es, SpansUpTo(p, es, |es|))
    ensures Accepted(es, SpansUpTo(p, es, |es|), TotalBytes(es)) <==> EntriesDisjoint(es)
  {
    var spans := SpansUpTo(p, es, |es|);
    assert GreedyShape(p, es, |es|, spans) by {
      SpansHaveGreedyShape(p, es, |es|);
    }
    BuiltPlanIsReadable(p, es, spans);
    SpansInOrderIffDisjoint(p, es, spans);
    AcceptedIffInOrder(es, spans);
  }

  /** Sorting keeps the byte total, so the total of a built plan is the one its sorted table is checked against. */
  lemma {:induction false} InsertKeepsTotal(es: seq<Entry>, e: Entry)
    ensures TotalBytes(InsertEntry(es, e)) == TotalBytes(es) + e.bytes
  {
    if es == [] || EntryLeq(es[|es| - 1], e) {
      TotalBytesAppend(es, e);
    } else {
      InsertKeepsTotal(es[..|es| - 1], e);
      TotalBytesAppend(InsertEntry(es[..|es| - 1], e), es[|es| - 1]);
    }
  }

  lemma {:induction false} SortKeepsTotal(es: seq<Entry>)
    ensures TotalBytes(SortEntries(es)) == TotalBytes(es)
  {
    if es != [] {
      SortKeepsTotal(es[..|es| - 1]);
      InsertKeepsTotal(SortEntries(es[..|es| - 1]), es[|es| - 1]);
    }
  }

  /** The memory-plan command on any plannable model: build, then validate. */
  method PlanAndValidate(p: Policy) returns (ok: bool)
    requires WellSized(p.model) && Plannable(p)
    ensures ok <==> EntriesDisjoint(PlannedEntries(p))
  {
    var plan := new Plan();
    var error := plan.Build(p);
    SortKeepsTotal(Collected(p, |p.model.tensors|));
    BuiltPlanAcceptedIffDisjoint(p, plan.entries);
    ok := Validate(plan);
  }

  /** The checks of plan_validate, written out. */
  lemma AcceptedMeans(es: seq<Entry>, spans: seq<Span>, residentBytes: nat)
    requires Readable(es, spans)
    ensures Accepted(es, spans, residentBytes) <==>
      && (forall i :: 0 < i < |es| ==> es[i - 1].fileOffset <= es[i].fileOffset)
      && (forall i :: 0 <= i < |es| ==> es[i].fileOffset + es[i].bytes <= U64_MAX)
      && TotalBytes(es) == residentBytes <= U64_MAX
      && (forall s :: s in spans ==>
            && s.fileOffset + s.bytes <= U64_MAX
            && forall i :: s.firstEntry <= i < s.firstEntry + s.entryCount ==>
                 && s.fileOffset <= es[i].fileOffset
                 && es[i].fileOffset + es[i].bytes <= s.fileOffset + s.bytes)
      && forall s :: 0 < s < |spans| ==> spans[s - 1].fileOffset + spans[s - 1].bytes <= spans[s].fileOffset
  {
    hide SpanAccepted, TotalBytes, InOrder;
    assert es[..|es|] == es;
    forall s | s in spans
      ensures SpanAccepted(es, s) <==>
        && s.fileOffset + s.bytes <= U64_MAX
        && forall i :: s.firstEntry <= i < s.firstEntry + s.entryCount ==>
             && s.fileOffset <= es[i].fileOffset
             && es[i].fileOffset + es[i].bytes <= s.fileOffset + s.bytes
    {
      SpanMeans(es, s);
    }
    forall s | 0 < s < |spans|
      ensures InOrder(spans[s - 1], spans[s]) <==>
        spans[s - 1].fileOffset + spans[s - 1].bytes <= spans[s].fileOffset
    {
      OrderMeans(spans[s - 1], spans[s]);
    }
  }

  lemma SpanMeans(es: seq<Entry>, s: Span)
    requires SpanStop(s) <= |es|
    ensures SpanAccepted(es, s) <==>
      && s.fileOffset + s.bytes <= U64_MAX
      && forall i :: s.firstEntry <= i < s.firstEntry + s.entryCount ==>
           && s.fileOffset <= es[i].fileOffset
           && es[i].fileOffset + es[i].bytes <= s.fileOffset + s.bytes
  {
    assert SpanAccepted(es, s) ==> forall i :: s.firstEntry <= i < SpanStop(s) ==> Inside(es[i], s);
  }

  lemma OrderMeans(s: Span, next: Span)
    ensures InOrder(s, next) <==> s.fileOffset + s.bytes <= next.fileOffset
  {
  }
}
