/** What the residency planner promises about its spans. */
module PlanProperties {
  import opened Wrappers
  import opened ResidencyPlan

  // ---------------------------------------------------------------- partition, containment, size

  /** The members of a group follow each other without overlap. */
  lemma GroupIsOrdered(p: Policy, es: seq<Entry>, s: Span, j: nat)
    requires WellSized(p.model) && FileEntries(p, es) && GroupOf(p, es, s)
    requires s.firstEntry < j < SpanStop(s)
    ensures End(es[j - 1]) <= es[j].fileOffset && es[j].fileOffset - End(es[j - 1]) <= p.maxGap
    ensures End(es[j]) - s.fileOffset <= p.maxSpan
  {
    assert Joins(p, es, s.firstEntry, j);
  }

  lemma {:induction false} GroupContains(p: Policy, es: seq<Entry>, s: Span, i: nat, j: nat)
    requires WellSized(p.model) && FileEntries(p, es) && GroupOf(p, es, s)
    requires s.firstEntry <= i <= j < SpanStop(s)
    ensures es[i].fileOffset <= es[j].fileOffset && End(es[i]) <= End(es[j])
    ensures i < j ==> End(es[i]) <= es[j].fileOffset
    decreases j
  {
    if i < j {
      GroupContains(p, es, s, i, j - 1);
      GroupIsOrdered(p, es, s, j);
    }
  }

  /** Entry i lies inside span s of the file. */
  predicate Inside(e: Entry, s: Span) {
    s.fileOffset <= e.fileOffset && End(e) <= s.fileOffset + s.bytes
  }

  lemma {:induction false} SpanOfEntry(p: Policy, es: seq<Entry>, k: nat, spans: seq<Span>, i: nat) returns (s: nat)
    requires WellSized(p.model) && FileEntries(p, es) && i < k <= |es|
    requires GreedyShape(p, es, k, spans)
    ensures s < |spans| && spans[s].firstEntry <= i < SpanStop(spans[s])
    decreases |spans|
  {
    s := |spans| - 1;
    if i < spans[s].firstEntry {
      assert s > 0 && Follows(p, es, spans[s - 1], spans[s]);
      s := SpanOfEntry(p, es, spans[s].firstEntry, spans[..s], i);
    }
  }

  lemma {:induction false} GroupsAreInOrder(p: Policy, es: seq<Entry>, spans: seq<Span>, s: nat, t: nat)
    requires WellSized(p.model) && FileEntries(p, es) && GreedyShape(p, es, |es|, spans)
    requires s < t < |spans|
    ensures SpanStop(spans[s]) <= spans[t].firstEntry
    decreases t
  {
    assert Follows(p, es, spans[t - 1], spans[t]);
    if s < t - 1 {
      GroupsAreInOrder(p, es, spans, s, t - 1);
      assert GroupOf(p, es, spans[t - 1]);
    }
  }

  lemma EntryInsideItsSpan(p: Policy, es: seq<Entry>, s: Span, i: nat)
    requires WellSized(p.model) && FileEntries(p, es) && GroupOf(p, es, s)
    requires s.firstEntry <= i < SpanStop(s)
    ensures Inside(es[i], s)
  {
    GroupContains(p, es, s, s.firstEntry, i);
    GroupContains(p, es, s, i, SpanStop(s) - 1);
  }

  /** Entry i belongs to span s and lies inside it. */
  predicate Holds(es: seq<Entry>, spans: seq<Span>, s: int, i: nat)
    requires i < |es|
  {
    0 <= s < |spans| && spans[s].firstEntry <= i < SpanStop(spans[s]) && Inside(es[i], spans[s])
  }

  ghost predicate Held(es: seq<Entry>, spans: seq<Span>, i: nat)
    requires i < |es|
  {
    exists s :: Holds(es, spans, s, i)
  }

  lemma EntryIsHeld(p: Policy, es: seq<Entry>, i: nat)
    requires WellSized(p.model) && FileEntries(p, es) && i < |es|
    ensures Held(es, SpansUpTo(p, es, |es|), i)
  {
    var spans := SpansUpTo(p, es, |es|);
    SpansHaveGreedyShape(p, es, |es|);
    var s := SpanOfEntry(p, es, |es|, spans, i);
    EntryInsideItsSpan(p, es, spans[s], i);
    assert Holds(es, spans, s, i);
  }

  lemma LongSpanIsSingle(p: Policy, es: seq<Entry>, s: Span)
    requires WellSized(p.model) && FileEntries(p, es) && GroupOf(p, es, s)
    ensures s.bytes <= p.maxSpan || s.entryCount == 1
  {
    if s.entryCount > 1 {
      GroupIsOrdered(p, es, s, SpanStop(s) - 1);
    }
  }

  /**
   * The spans partition the sorted entries: every entry lies inside a span that counts it as a member, members of
   * different spans are different entries, and a span longer than max_span_bytes holds a single entry.
   */
  lemma SpansPartitionEntries(p: Policy, es: seq<Entry>)
    requires WellSized(p.model) && FileEntries(p, es)
    ensures forall i :: 0 <= i < |es| ==> Held(es, SpansUpTo(p, es, |es|), i)
    ensures forall s, t :: 0 <= s < t < |SpansUpTo(p, es, |es|)| ==>
      SpanStop(SpansUpTo(p, es, |es|)[s]) <= SpansUpTo(p, es, |es|)[t].firstEntry
    ensures forall s :: s in SpansUpTo(p, es, |es|) ==>
      s.entryCount > 0 && SpanStop(s) <= |es| && (s.bytes <= p.maxSpan || s.entryCount == 1)
  {
    var spans := SpansUpTo(p, es, |es|);
    forall i | 0 <= i < |es| ensures Held(es, spans, i) {
      EntryIsHeld(p, es, i);
    }
    SpansHaveGreedyShape(p, es, |es|);
    forall s, t | 0 <= s < t < |spans| ensures SpanStop(spans[s]) <= spans[t].firstEntry {
      GroupsAreInOrder(p, es, spans, s, t);
    }
    forall s | s in spans
      ensures s.entryCount > 0 && SpanStop(s) <= |es| && (s.bytes <= p.maxSpan || s.entryCount == 1)
    {
      LongSpanIsSingle(p, es, s);
    }
  }

  // ---------------------------------------------------------------- excluded ranges

  /** No excluded tensor has a byte in [offset, offset + bytes). */
  ghost predicate ClearOfExcluded(p: Policy, offset: nat, bytes: nat) {
    forall t :: t in p.model.tensors && t.bytes != 0 && p.isPle(t) ==> !Overlap(offset, bytes, t.absOffset, t.bytes)
  }

  lemma {:induction false} GroupClearOfExcluded(p: Policy, es: seq<Entry>, i: nat, j: nat)
    requires WellSized(p.model) && FileEntries(p, es) && InsideModel(p, |p.model.tensors|)
    requires i < j <= |es| && forall m :: i < m < j ==> Joins(p, es, i, m)
    requires forall m :: i <= m < j ==> ClearOfExcluded(p, es[m].fileOffset, es[m].bytes)
    ensures ClearOfExcluded(p, es[i].fileOffset, GroupBytes(es, i, j))
    decreases j
  {
    if i + 1 < j {
      GroupClearOfExcluded(p, es, i, j - 1);
      assert Joins(p, es, i, j - 1);
      var s := GroupSpan(es, i, j - 1);
      forall t | t in p.model.tensors && t.bytes != 0 && p.isPle(t)
        ensures !Overlap(es[i].fileOffset, GroupBytes(es, i, j), t.absOffset, t.bytes)
      {
        assert !PleBlocks(p, t, s.fileOffset, s.bytes, es[j - 1].fileOffset);
        assert !Overlap(es[j - 1].fileOffset, es[j - 1].bytes, t.absOffset, t.bytes);
        assert !Overlap(s.fileOffset, s.bytes, t.absOffset, t.bytes);
      }
    }
  }

  lemma EntryClearInItsSpan(p: Policy, es: seq<Entry>, s: Span, i: nat)
    requires WellSized(p.model) && FileEntries(p, es) && GroupOf(p, es, s) && s.firstEntry <= i < SpanStop(s)
    requires ClearOfExcluded(p, s.fileOffset, s.bytes)
    ensures ClearOfExcluded(p, es[i].fileOffset, es[i].bytes)
  {
    EntryInsideItsSpan(p, es, s, i);
    forall t | t in p.model.tensors && t.bytes != 0 && p.isPle(t)
      ensures !Overlap(es[i].fileOffset, es[i].bytes, t.absOffset, t.bytes)
    {
      assert !Overlap(s.fileOffset, s.bytes, t.absOffset, t.bytes);
    }
  }

  ghost predicate EntriesClear(p: Policy, es: seq<Entry>) {
    forall i :: 0 <= i < |es| ==> ClearOfExcluded(p, es[i].fileOffset, es[i].bytes)
  }

  ghost predicate SpansClear(p: Policy, spans: seq<Span>) {
    forall s :: s in spans ==> ClearOfExcluded(p, s.fileOffset, s.bytes)
  }

  lemma EntriesClearIfSpansClear(p: Policy, es: seq<Entry>, spans: seq<Span>)
    requires WellSized(p.model) && FileEntries(p, es) && GreedyShape(p, es, |es|, spans)
    requires SpansClear(p, spans)
    ensures EntriesClear(p, es)
  {
    forall i | 0 <= i < |es| ensures ClearOfExcluded(p, es[i].fileOffset, es[i].bytes) {
      var s := SpanOfEntry(p, es, |es|, spans, i);
      EntryClearInItsSpan(p, es, spans[s], i);
    }
  }

  lemma SpansClearIfEntriesClear(p: Policy, es: seq<Entry>, spans: seq<Span>)
    requires WellSized(p.model) && FileEntries(p, es) && GreedyShape(p, es, |es|, spans)
    requires InsideModel(p, |p.model.tensors|) && EntriesClear(p, es)
    ensures SpansClear(p, spans)
  {
    forall s | s in spans ensures ClearOfExcluded(p, s.fileOffset, s.bytes) {
      GroupClearOfExcluded(p, es, s.firstEntry, SpanStop(s));
    }
  }

  /** Coalescing never drags excluded bytes in: the spans touch an excluded range only if some entry does. */
  lemma SpansClearIffEntriesClear(p: Policy, es: seq<Entry>)
    requires WellSized(p.model) && FileEntries(p, es) && InsideModel(p, |p.model.tensors|)
    ensures SpansClear(p, SpansUpTo(p, es, |es|)) <==> EntriesClear(p, es)
  {
    var spans := SpansUpTo(p, es, |es|);
    SpansHaveGreedyShape(p, es, |es|);
    if EntriesClear(p, es) {
      SpansClearIfEntriesClear(p, es, spans);
    } else if SpansClear(p, spans) {
      EntriesClearIfSpansClear(p, es, spans);
    }
  }

  // ---------------------------------------------------------------- minimality

  /** No two non-empty tensors of the file share a byte. */
  ghost predicate TensorsDisjoint(model: FileModel) {
    forall i, j :: 0 <= i < j < |model.tensors| && model.tensors[i].bytes != 0 && model.tensors[j].bytes != 0 ==>
      !Overlap(model.tensors[i].absOffset, model.tensors[i].bytes, model.tensors[j].absOffset, model.tensors[j].bytes)
  }

  /** The planned entries neither overlap each other nor an excluded tensor. */
  ghost predicate EntriesDisjoint(es: seq<Entry>) {
    forall i, j :: 0 <= i < j < |es| ==> !Overlap(es[i].fileOffset, es[i].bytes, es[j].fileOffset, es[j].bytes)
  }

  /**
   * A group of consecutive entries that respects the limits, said without the planner: gaps within max_gap, total
   * within max_span, and no excluded byte in between. One entry alone is always allowed.
   */
  ghost predicate LegalGroup(p: Policy, es: seq<Entry>, i: nat, j: nat)
    requires FileEntries(p, es) && i < j <= |es|
  {
    j == i + 1 ||
    (&& (forall m :: i < m < j ==> es[m].fileOffset <= End(es[m - 1]) + p.maxGap)
     && End(es[j - 1]) <= es[i].fileOffset + p.maxSpan
     && ClearOfExcluded(p, es[i].fileOffset, GroupBytes(es, i, j)))
  }

  ghost predicate LegalCut(p: Policy, es: seq<Entry>, i: nat, j: nat)
    requires FileEntries(p, es)
  {
    i < j <= |es| && LegalGroup(p, es, i, j)
  }

  /** A grouping is given by where its groups begin, closed by the number of entries. */
  ghost predicate LegalGrouping(p: Policy, es: seq<Entry>, cuts: seq<nat>)
    requires FileEntries(p, es)
  {
    && |cuts| > 0 && cuts[0] == 0 && cuts[|cuts| - 1] == |es|
    && forall t :: 0 < t < |cuts| ==> LegalCut(p, es, cuts[t - 1], cuts[t])
  }

  ghost predicate DisjointEntries(p: Policy, es: seq<Entry>) {
    EntriesDisjoint(es) && EntriesClear(p, es)
  }

  lemma OrderedWhenDisjoint(p: Policy, es: seq<Entry>, i: nat, j: nat)
    requires FileEntries(p, es) && EntriesDisjoint(es) && i < j < |es|
    ensures End(es[i]) <= es[j].fileOffset
  {
    assert EntryLeq(es[i], es[j]);
  }

  /** Part of a legal group is legal. */
  lemma LegalSubgroup(p: Policy, es: seq<Entry>, i: nat, a: nat, b: nat, j: nat)
    requires FileEntries(p, es) && DisjointEntries(p, es)
    requires i <= a < b <= j <= |es| && LegalGroup(p, es, i, j)
    ensures LegalGroup(p, es, a, b)
  {
    if a + 1 < b {
      assert EntryLeq(es[i], es[i]);
      if i < a { OrderedWhenDisjoint(p, es, i, a); }
      if b < j { OrderedWhenDisjoint(p, es, b - 1, j - 1); }
      OrderedWhenDisjoint(p, es, a, b - 1);
      forall t | t in p.model.tensors && t.bytes != 0 && p.isPle(t)
        ensures !Overlap(es[a].fileOffset, GroupBytes(es, a, b), t.absOffset, t.bytes)
      {
        assert !Overlap(es[i].fileOffset, GroupBytes(es, i, j), t.absOffset, t.bytes);
      }
    }
  }

  lemma JoinedIsLegal(p: Policy, es: seq<Entry>, i: nat, j: nat)
    requires WellSized(p.model) && FileEntries(p, es) && InsideModel(p, |p.model.tensors|) && DisjointEntries(p, es)
    requires i < j < |es| && LegalGroup(p, es, i, j) && Joins(p, es, i, j)
    ensures LegalGroup(p, es, i, j + 1)
  {
    hide EntriesDisjoint, Overlap, WellSized;
    forall t | t in p.model.tensors && t.bytes != 0 && p.isPle(t)
      ensures !Overlap(es[i].fileOffset, GroupBytes(es, i, j + 1), t.absOffset, t.bytes)
    {
      ClearOfJoined(p, es, i, j, t);
    }
  }

  /** The planner's test keeps an excluded tensor out of the extended group. */
  lemma ClearOfJoined(p: Policy, es: seq<Entry>, i: nat, j: nat, t: Tensor)
    requires WellSized(p.model) && FileEntries(p, es) && InsideModel(p, |p.model.tensors|) && DisjointEntries(p, es)
    requires i < j < |es| && Joins(p, es, i, j) && t in p.model.tensors && t.bytes != 0 && p.isPle(t)
    ensures !Overlap(es[i].fileOffset, GroupBytes(es, i, j + 1), t.absOffset, t.bytes)
  {
    var s := GroupSpan(es, i, j);
    OrderedWhenDisjoint(p, es, j - 1, j);
    assert !PleBlocks(p, t, s.fileOffset, s.bytes, es[j].fileOffset);
    assert !Overlap(es[j].fileOffset, es[j].bytes, t.absOffset, t.bytes);
  }

  lemma LegalIsJoined(p: Policy, es: seq<Entry>, i: nat, j: nat)
    requires WellSized(p.model) && FileEntries(p, es) && InsideModel(p, |p.model.tensors|) && DisjointEntries(p, es)
    requires i < j < |es| && LegalGroup(p, es, i, j) && LegalGroup(p, es, i, j + 1)
    ensures Joins(p, es, i, j)
  {
    var s := GroupSpan(es, i, j);
    OrderedWhenDisjoint(p, es, j - 1, j);
    forall t | t in p.model.tensors ensures !PleBlocks(p, t, s.fileOffset, s.bytes, es[j].fileOffset) {
      if t.bytes != 0 && p.isPle(t) {
        assert !Overlap(es[i].fileOffset, GroupBytes(es, i, j + 1), t.absOffset, t.bytes);
      }
    }
  }

  /** The planner's test is exactly legality of the extended group. */
  lemma JoinsIffLegal(p: Policy, es: seq<Entry>, i: nat, j: nat)
    requires WellSized(p.model) && FileEntries(p, es) && InsideModel(p, |p.model.tensors|) && DisjointEntries(p, es)
    requires i < j < |es| && LegalGroup(p, es, i, j)
    ensures Joins(p, es, i, j) <==> LegalGroup(p, es, i, j + 1)
  {
    hide Joins, LegalGroup, DisjointEntries, InsideModel;
    if Joins(p, es, i, j) {
      JoinedIsLegal(p, es, i, j);
    }
    if LegalGroup(p, es, i, j + 1) {
      LegalIsJoined(p, es, i, j);
    }
  }

  lemma {:induction false} GroupIsLegal(p: Policy, es: seq<Entry>, s: Span, j: nat)
    requires WellSized(p.model) && FileEntries(p, es) && InsideModel(p, |p.model.tensors|) && DisjointEntries(p, es)
    requires GroupOf(p, es, s) && s.firstEntry < j <= SpanStop(s)
    ensures LegalGroup(p, es, s.firstEntry, j)
    decreases j
  {
    hide InsideModel, DisjointEntries, FileEntries, Joins;
    if s.firstEntry + 1 < j {
      GroupIsLegal(p, es, s, j - 1);
      assert Joins(p, es, s.firstEntry, j - 1);
      JoinsIffLegal(p, es, s.firstEntry, j - 1);
    }
  }

  /** The first entry of span t, or the number of entries after the last span. */
  function CutOf(es: seq<Entry>, spans: seq<Span>, t: nat): nat
    requires t <= |spans|
  {
    if t == |spans| then |es| else spans[t].firstEntry
  }

  /** A group the planner closed cannot be part of a larger legal group. */
  lemma ClosedGroupIsMaximal(p: Policy, es: seq<Entry>, s: Span, next: Span, i: nat, j: nat)
    requires WellSized(p.model) && FileEntries(p, es) && InsideModel(p, |p.model.tensors|) && DisjointEntries(p, es)
    requires GroupOf(p, es, s) && Follows(p, es, s, next)
    requires i <= s.firstEntry && i < j <= |es| && LegalGroup(p, es, i, j)
    ensures j <= next.firstEntry
  {
    if next.firstEntry < j {
      GroupIsLegal(p, es, s, SpanStop(s));
      LegalSubgroup(p, es, i, s.firstEntry, SpanStop(s) + 1, j);
      JoinsIffLegal(p, es, s.firstEntry, SpanStop(s));
    }
  }

  /** After t groups the planner has covered at least as many entries as any legal grouping. */
  lemma {:induction false} GreedyStaysAhead(p: Policy, es: seq<Entry>, spans: seq<Span>, cuts: seq<nat>, t: nat)
    requires WellSized(p.model) && FileEntries(p, es) && InsideModel(p, |p.model.tensors|) && DisjointEntries(p, es)
    requires GreedyShape(p, es, |es|, spans) && LegalGrouping(p, es, cuts)
    requires t <= |spans| && t < |cuts|
    ensures CutOf(es, spans, t) >= cuts[t]
  {
    assert t > 0 ==> LegalCut(p, es, cuts[t - 1], cuts[t]);
    if 0 < t < |spans| {
      GreedyStaysAhead(p, es, spans, cuts, t - 1);
      ClosedGroupIsMaximal(p, es, spans[t - 1], spans[t], cuts[t - 1], cuts[t]);
    }
  }

  /** The spans are a legal grouping, and no legal grouping of the same entries has fewer groups. */
  lemma GreedyIsMinimal(p: Policy, es: seq<Entry>, cuts: seq<nat>)
    requires WellSized(p.model) && FileEntries(p, es) && InsideModel(p, |p.model.tensors|) && DisjointEntries(p, es)
    requires LegalGrouping(p, es, cuts)
    ensures |SpansUpTo(p, es, |es|)| <= |cuts| - 1
  {
    var spans := SpansUpTo(p, es, |es|);
    SpansHaveGreedyShape(p, es, |es|);
    if |cuts| - 1 < |spans| {
      GreedyStaysAhead(p, es, spans, cuts, |cuts| - 1);
    }
  }

  ghost function Cuts(es: seq<Entry>, spans: seq<Span>): seq<nat> {
    seq(|spans| + 1, t requires 0 <= t <= |spans| => CutOf(es, spans, t))
  }

  lemma CutIsLegal(p: Policy, es: seq<Entry>, spans: seq<Span>, t: nat)
    requires WellSized(p.model) && FileEntries(p, es) && InsideModel(p, |p.model.tensors|) && DisjointEntries(p, es)
    requires GreedyShape(p, es, |es|, spans) && 0 < t <= |spans|
    ensures LegalCut(p, es, CutOf(es, spans, t - 1), CutOf(es, spans, t))
  {
    var s := spans[t - 1];
    assert GroupOf(p, es, s);
    assert t < |spans| ==> Follows(p, es, s, spans[t]);
    GroupIsLegal(p, es, s, SpanStop(s));
  }

  lemma GreedyIsLegal(p: Policy, es: seq<Entry>)
    requires WellSized(p.model) && FileEntries(p, es) && InsideModel(p, |p.model.tensors|) && DisjointEntries(p, es)
    ensures LegalGrouping(p, es, Cuts(es, SpansUpTo(p, es, |es|)))
  {
    var spans := SpansUpTo(p, es, |es|);
    SpansHaveGreedyShape(p, es, |es|);
    var cuts := Cuts(es, spans);
    forall t | 0 < t < |cuts| ensures LegalCut(p, es, cuts[t - 1], cuts[t]) {
      CutIsLegal(p, es, spans, t);
    }
  }

  predicate Apart(a: Entry, b: Entry) { !Overlap(a.fileOffset, a.bytes, b.fileOffset, b.bytes) }

  lemma {:induction false} InsertKeepsDisjoint(es: seq<Entry>, e: Entry)
    requires EntriesDisjoint(es) && forall i :: 0 <= i < |es| ==> Apart(es[i], e)
    ensures EntriesDisjoint(InsertEntry(es, e))
    ensures forall i :: 0 <= i < |InsertEntry(es, e)| ==> InsertEntry(es, e)[i] == e || InsertEntry(es, e)[i] in es
  {
    if es != [] && !EntryLeq(es[|es| - 1], e) {
      var front, last := es[..|es| - 1], es[|es| - 1];
      InsertKeepsDisjoint(front, e);
      var r := InsertEntry(front, e);
      forall i | 0 <= i < |r| ensures Apart(r[i], last) {
        if r[i] != e {
          var k :| 0 <= k < |front| && front[k] == r[i];
          assert es[k] == r[i];
        }
      }
    }
  }

  lemma {:induction false} SortKeepsDisjoint(es: seq<Entry>)
    requires EntriesDisjoint(es)
    ensures EntriesDisjoint(SortEntries(es))
  {
    if es != [] {
      var front, last := es[..|es| - 1], es[|es| - 1];
      SortKeepsDisjoint(front);
      var sorted := SortEntries(front);
      forall i | 0 <= i < |sorted| ensures Apart(sorted[i], last) {
        assert sorted[i] in multiset(sorted);
        assert sorted[i] in multiset(front);
        var k :| 0 <= k < |front| && front[k] == sorted[i];
        assert es[k] == sorted[i];
      }
      InsertKeepsDisjoint(sorted, last);
    }
  }

  lemma {:induction false} CollectedDisjoint(p: Policy, n: nat)
    requires n <= |p.model.tensors| && TensorsDisjoint(p.model)
    ensures EntriesDisjoint(Collected(p, n))
  {
    if n > 0 {
      CollectedDisjoint(p, n - 1);
      CollectedIffPlanned(p, n - 1);
      var before, after := Collected(p, n - 1), Collected(p, n);
      forall i, j | 0 <= i < j < |after| ensures Apart(after[i], after[j]) {
        if j == |before| {
          assert before[i] in before;
          var a :| 0 <= a < n - 1 && Planned(p, p.model.tensors[a]) && before[i] == EntryFor(p.model.tensors[a], a);
        } else {
          assert after[i] == before[i] && after[j] == before[j];
        }
      }
    }
  }

  /** A model whose tensors share no byte gives entries that meet the hypothesis of the two results above. */
  lemma DisjointTensorsGiveDisjointEntries(p: Policy)
    requires TensorsDisjoint(p.model)
    ensures DisjointEntries(p, PlannedEntries(p))
  {
    var es, ts := PlannedEntries(p), p.model.tensors;
    CollectedDisjoint(p, |ts|);
    SortKeepsDisjoint(Collected(p, |ts|));
    PlannedEntriesIff(p);
    forall i | 0 <= i < |es| ensures ClearOfExcluded(p, es[i].fileOffset, es[i].bytes) {
      assert es[i] in es;
      var a :| 0 <= a < |ts| && Planned(p, ts[a]) && es[i] == EntryFor(ts[a], a);
      forall t | t in ts && t.bytes != 0 && p.isPle(t)
        ensures !Overlap(es[i].fileOffset, es[i].bytes, t.absOffset, t.bytes)
      {
        var b :| 0 <= b < |ts| && ts[b] == t;
        assert a < b || b < a;
      }
    }
  }
}
