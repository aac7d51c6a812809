/** Folding the compaction outcome into the per-source reports (internal/contextmgr/compact.go). */
module Reports {
  import opened Counting
  import opened Contexts
  import opened Strategies
  import opened Truncation

  /** What became of a declared source. */
  function Disposed(r: SourceReport, e: Entry, w: Work): SourceReport {
    if e.sourceIndex in w.summarizedInto && w.summarizedInto[e.sourceIndex] != ""
    then r.(status := Summarized, tokens := 0)
    else if e.sourceIndex in w.dropped then r.(status := Dropped, tokens := 0)
    else if e.sourceIndex in w.truncated then r.(status := Truncated, tokens := e.tokens)
    else r.(tokens := e.tokens)
  }

  /** What became of a summary. */
  function SummaryReport(e: Entry, w: Work): SourceReport {
    if e.sourceIndex in w.dropped then SourceReport(e.sourceIndex, e.kind, e.name, e.ref, Dropped, 0, false)
    else if e.sourceIndex in w.truncated
    then SourceReport(e.sourceIndex, e.kind, e.name, e.ref, Truncated, e.tokens, false)
    else SourceReport(e.sourceIndex, e.kind, e.name, e.ref, Included, e.tokens, false)
  }

  ghost function Updated(base: seq<SourceReport>, entries: seq<Entry>, w: Work): (r: seq<SourceReport>)
    ensures |r| == |base|
  {
    if entries == [] then base
    else
      var r, e := Updated(base, entries[..|entries| - 1], w), entries[|entries| - 1];
      if 0 <= e.sourceIndex < |base| then r[e.sourceIndex := Disposed(r[e.sourceIndex], e, w)] else r
  }

  ghost function OfSummaries(entries: seq<Entry>, w: Work): seq<SourceReport> {
    if entries == [] then []
    else OfSummaries(entries[..|entries| - 1], w)
         + var e := entries[|entries| - 1]; if e.sourceIndex < 0 then [SummaryReport(e, w)] else []
  }

  /** Reports are indexed by source: position i speaks of source i. */
  ghost predicate Indexed(reports: seq<SourceReport>) {
    forall i | 0 <= i < |reports| :: reports[i].index == i
  }

  ghost predicate SourcesKnown(entries: seq<Entry>, reports: seq<SourceReport>) {
    forall e | e in entries :: e.sourceIndex < |reports|
  }

  /** The updated reports of the declared sources, then one per summary. */
  method CompactedReports(base: seq<SourceReport>, entries: seq<Entry>, dropped: set<int>, truncated: set<int>,
                          summarizedInto: map<int, string>, ghost w: Work)
    returns (reports: seq<SourceReport>)
    requires Indexed(base) && SourcesKnown(entries, base)
    requires w.entries == entries && w.dropped == dropped && w.truncated == truncated
             && w.summarizedInto == summarizedInto
    ensures reports == Updated(base, entries, w) + OfSummaries(entries, w)
  {
    reports := base;
    var byIndex: map<int, nat> := map[];
    for i := 0 to |base|
      invariant forall k: int | 0 <= k < i :: k in byIndex && byIndex[k] == k
    {
      byIndex := byIndex[base[i].index := i];
    }
    var synthetic: seq<SourceReport> := [];
    for k := 0 to |entries|
      invariant reports == Updated(base, entries[..k], w) && synthetic == OfSummaries(entries[..k], w)
    {
      var e := entries[k];
      assert e in entries;
      assert entries[..k + 1][..k] == entries[..k];
      if e.sourceIndex < 0 {
        var status := Included;
        if e.sourceIndex in dropped {
          status := Dropped;
        } else if e.sourceIndex in truncated {
          status := Truncated;
        }
        var tokens := if status == Dropped then 0 else e.tokens;
        synthetic := synthetic + [SourceReport(e.sourceIndex, e.kind, e.name, e.ref, status, tokens, false)];
      } else {
        var at := byIndex[e.sourceIndex];
        var r := reports[at];
        if e.sourceIndex in summarizedInto && summarizedInto[e.sourceIndex] != "" {
          r := r.(status := Summarized, tokens := 0);
        } else if e.sourceIndex in dropped {
          r := r.(status := Dropped, tokens := 0);
        } else if e.sourceIndex in truncated {
          r := r.(status := Truncated, tokens := e.tokens);
        } else {
          r := r.(tokens := e.tokens);
        }
        reports := reports[at := r];
      }
    }
    assert entries[..|entries|] == entries;
    reports := reports + synthetic;
  }

  // ---------- what the reports say ----------

  /** Each declared source is reported once, by what happened to its one entry; a skipped source keeps its report. */
  lemma {:induction false} UpdatedExact(base: seq<SourceReport>, entries: seq<Entry>, w: Work, i: nat)
    requires i < |base| && DistinctSources(entries)
    ensures forall e | e in entries && e.sourceIndex == i :: Updated(base, entries, w)[i] == Disposed(base[i], e, w)
    ensures (forall e | e in entries :: e.sourceIndex != i) ==> Updated(base, entries, w)[i] == base[i]
  {
    if entries != [] {
      var rest, last := entries[..|entries| - 1], entries[|entries| - 1];
      UpdatedExact(base, rest, w, i);
      assert forall e :: e in entries <==> e in rest || e == last;
      assert forall e | e in rest :: e.sourceIndex != last.sourceIndex;
    }
  }

  /** The tokens the base reports hold for the declared entries. */
  ghost function DeclaredSum(base: seq<SourceReport>, entries: seq<Entry>): nat {
    if entries == [] then 0
    else DeclaredSum(base, entries[..|entries| - 1])
         + var i := entries[|entries| - 1].sourceIndex; if 0 <= i < |base| then base[i].tokens else 0
  }

  lemma LiveSumStep(rest: seq<Entry>, last: Entry, dropped: set<int>)
    ensures TokenSum(Without(rest + [last], dropped))
            == TokenSum(Without(rest, dropped)) + if last.sourceIndex in dropped then 0 else last.tokens
  {
    WithoutConcat(rest, [last], dropped);
    assert Without([last], dropped) == if last.sourceIndex in dropped then [] else [last];
    TokenSumConcat(Without(rest, dropped), Without([last], dropped));
    assert TokenSum([last]) == last.tokens;
  }

  lemma DeclaredStep(base: seq<SourceReport>, rest: seq<Entry>, last: Entry, w: Work)
    requires 0 <= last.sourceIndex < |base| && w.summarizedInto.Keys <= w.dropped
    requires DistinctSources(rest) && forall e | e in rest :: e.sourceIndex != last.sourceIndex
    ensures ReportSum(Updated(base, rest + [last], w)) + base[last.sourceIndex].tokens
            == ReportSum(Updated(base, rest, w)) + if last.sourceIndex in w.dropped then 0 else last.tokens
  {
    assert (rest + [last])[..|rest|] == rest;
    var was := Updated(base, rest, w);
    UpdatedExact(base, rest, w, last.sourceIndex);
    ReportSumUpdate(was, last.sourceIndex, Disposed(was[last.sourceIndex], last, w));
  }

  lemma SummaryStep(rest: seq<Entry>, last: Entry, w: Work)
    ensures ReportSum(OfSummaries(rest + [last], w)) == ReportSum(OfSummaries(rest, w))
            + if last.sourceIndex >= 0 || last.sourceIndex in w.dropped then 0 else last.tokens
  {
    assert (rest + [last])[..|rest|] == rest;
    ReportSumConcat(OfSummaries(rest, w), [SummaryReport(last, w)]);
    assert OfSummaries(rest, w) + [] == OfSummaries(rest, w);
    assert ReportSum([SummaryReport(last, w)]) == SummaryReport(last, w).tokens;
  }

  /** The totals move by exactly what was declared and what is live. */
  lemma {:induction false} TotalsMove(base: seq<SourceReport>, entries: seq<Entry>, w: Work)
    requires DistinctSources(entries) && SourcesKnown(entries, base) && w.summarizedInto.Keys <= w.dropped
    ensures ReportSum(Updated(base, entries, w)) + ReportSum(OfSummaries(entries, w)) + DeclaredSum(base, entries)
            == ReportSum(base) + TokenSum(Without(entries, w.dropped))
  {
    if entries != [] {
      var rest, last := entries[..|entries| - 1], entries[|entries| - 1];
      assert entries == rest + [last];
      assert last in entries;
      TotalsMove(base, rest, w);
      LiveSumStep(rest, last, w.dropped);
      SummaryStep(rest, last, w);
      if last.sourceIndex >= 0 {
        DeclaredStep(base, rest, last, w);
      }
    }
  }

  // ---------- conservation ----------

  lemma OriginalsAppend(rest: seq<Entry>, last: Entry)
    ensures Originals(rest + [last]) == Originals(rest) + if last.sourceIndex >= 0 then [last] else []
  {
    OriginalsConcat(rest, [last]);
    assert Originals([last]) == if last.sourceIndex >= 0 then [last] else [];
  }

  lemma DeclaredAppend(base: seq<SourceReport>, rest: seq<Entry>, last: Entry)
    ensures DeclaredSum(base, rest + [last])
            == DeclaredSum(base, rest) + if 0 <= last.sourceIndex < |base| then base[last.sourceIndex].tokens else 0
  {
    assert (rest + [last])[..|rest|] == rest;
  }

  lemma DeclaredNone(base: seq<SourceReport>)
    ensures DeclaredSum(base, Originals([])) == DeclaredSum(base, [])
  {
  }

  lemma {:induction false} DeclaredOfOriginals(base: seq<SourceReport>, entries: seq<Entry>)
    ensures DeclaredSum(base, entries) == DeclaredSum(base, Originals(entries))
  {
    DeclaredNone(base);
    hide Originals, DeclaredSum;
    if entries != [] {
      var rest, last := entries[..|entries| - 1], entries[|entries| - 1];
      assert entries == rest + [last];
      DeclaredOfOriginals(base, rest);
      OriginalsAppend(rest, last);
      DeclaredAppend(base, Originals(rest), last);
      DeclaredAppend(base, rest, last);
      assert Originals(rest) + [] == Originals(rest);
    }
  }

  /** Entries whose reports carry their token counts. */
  lemma {:induction false} DeclaredIsCounted(base: seq<SourceReport>, declared: seq<Entry>, now: seq<Entry>)
    requires |declared| == |now| && forall i | 0 <= i < |now| :: now[i].sourceIndex == declared[i].sourceIndex
    requires forall e | e in declared :: 0 <= e.sourceIndex < |base| && base[e.sourceIndex].tokens == e.tokens
    ensures DeclaredSum(base, now) == TokenSum(declared)
  {
    if now != [] {
      var n := |now| - 1;
      assert declared == declared[..n] + [declared[n]];
      assert declared[n] in declared;
      DeclaredIsCounted(base, declared[..n], now[..n]);
      TokenSumConcat(declared[..n], [declared[n]]);
      assert TokenSum([declared[n]]) == declared[n].tokens;
    }
  }

  /** Compaction conserves tokens: reports that account for the assembly account for what is left of it. */
  lemma ReportsStayBalanced(count: string -> nat, declared: seq<Entry>, base: seq<SourceReport>, w: Work)
    requires Sound(count, declared, w) && ReportsSources(declared, base) && Balanced(declared, base)
    ensures SourcesKnown(w.entries, base)
    ensures Balanced(Live(w), Updated(base, w.entries, w) + OfSummaries(w.entries, w))
  {
    OriginalsKnown(declared, base, w);
    TotalsMove(base, w.entries, w);
    DeclaredOfOriginals(base, w.entries);
    DeclaredIsCounted(base, declared, Originals(w.entries));
    ReportSumConcat(Updated(base, w.entries, w), OfSummaries(w.entries, w));
  }

  lemma {:induction false} OriginalsListed(entries: seq<Entry>, e: Entry)
    ensures e in Originals(entries) <==> e in entries && e.sourceIndex >= 0
  {
    if entries != [] {
      OriginalsListed(entries[1..], e);
      assert e in entries <==> e == entries[0] || e in entries[1..];
    }
  }

  /** Every entry is a summary or stands for a reported source. */
  lemma OriginalsKnown(declared: seq<Entry>, base: seq<SourceReport>, w: Work)
    requires Keeps(declared, w) && ReportsSources(declared, base)
    ensures SourcesKnown(w.entries, base)
    ensures forall i | 0 <= i < |declared| :: Originals(w.entries)[i].sourceIndex == declared[i].sourceIndex
  {
    forall i | 0 <= i < |declared| ensures Originals(w.entries)[i].sourceIndex == declared[i].sourceIndex {
      assert Evolved(declared[i], Originals(w.entries)[i], w.truncated);
    }
    forall e | e in w.entries ensures e.sourceIndex < |base| {
      OriginalsListed(w.entries, e);
      if e.sourceIndex >= 0 {
        var i :| 0 <= i < |Originals(w.entries)| && Originals(w.entries)[i] == e;
        assert declared[i] in declared;
      }
    }
  }

  /** The final status of a declared source tells exactly what happened to its entry. */
  lemma DispositionExact(count: string -> nat, declared: seq<Entry>, base: seq<SourceReport>, w: Work, e: Entry)
    requires Sound(count, declared, w) && e in w.entries && 0 <= e.sourceIndex < |base|
    requires base[e.sourceIndex].status in {Included, Truncated, Skipped}
    ensures var r := Updated(base, w.entries, w)[e.sourceIndex];
            && (r.status == Summarized <==> e.sourceIndex in w.summarizedInto)
            && (r.status == Dropped <==> e.sourceIndex in w.dropped && e.sourceIndex !in w.summarizedInto)
            && (r.status in {Dropped, Summarized} <==> e !in Live(w))
            && (e in Live(w) && e.sourceIndex in w.truncated ==> r.status == Truncated)
            && (e in Live(w) && e.sourceIndex !in w.truncated ==> r.status == base[e.sourceIndex].status)
            && r.tokens == (if e in Live(w) then e.tokens else 0)
  {
    UpdatedExact(base, w.entries, w, e.sourceIndex);
    WithoutExact(w.entries, w.dropped, e);
  }

  // ---------- the reports of summaries ----------

  /** The summaries among the entries, in message order. */
  ghost function SummariesIn(entries: seq<Entry>): seq<Entry> {
    if entries == [] then []
    else SummariesIn(entries[..|entries| - 1])
         + var e := entries[|entries| - 1]; if e.sourceIndex < 0 then [e] else []
  }

  lemma {:induction false} SummariesListed(entries: seq<Entry>, e: Entry)
    ensures e in SummariesIn(entries) <==> e in entries && e.sourceIndex < 0
  {
    if entries != [] {
      var rest, last := entries[..|entries| - 1], entries[|entries| - 1];
      SummariesListed(rest, e);
      assert entries == rest + [last];
    }
  }

  /** What happened to an entry, declared or not. */
  ghost function Fate(e: Entry, w: Work): Disposition {
    if e.sourceIndex in w.summarizedInto then Summarized
    else if e.sourceIndex in w.dropped then Dropped
    else if e.sourceIndex in w.truncated then Truncated
    else Included
  }

  /** A report that names the summary it speaks of, with what it still contributes to the request. */
  ghost predicate SpeaksOf(r: SourceReport, e: Entry, w: Work) {
    && r.index == e.sourceIndex && r.kind == e.kind && r.name == e.name && r.ref == e.ref && !r.pinned
    && r.tokens == (if e in Live(w) then e.tokens else 0)
    && (r.status == Dropped <==> e !in Live(w)) && r.status != Summarized
    && (r.status == Fate(e, w) <==> e.sourceIndex !in w.summarizedInto)
  }

  lemma SummarySpeaks(count: string -> nat, declared: seq<Entry>, w: Work, e: Entry)
    requires Sound(count, declared, w) && e in w.entries
    ensures SpeaksOf(SummaryReport(e, w), e, w)
  {
    WithoutExact(w.entries, w.dropped, e);
  }

  lemma {:induction false} OfSummariesAligned(entries: seq<Entry>, w: Work)
    ensures |OfSummaries(entries, w)| == |SummariesIn(entries)|
    ensures forall k | 0 <= k < |SummariesIn(entries)| ::
              OfSummaries(entries, w)[k] == SummaryReport(SummariesIn(entries)[k], w)
  {
    if entries != [] {
      OfSummariesAligned(entries[..|entries| - 1], w);
    }
  }

  /** One report per summary, in message order. A report says Dropped exactly when the summary is not live, never says
      Summarized, and so names what happened exactly when the summary was not folded into a later one. */
  lemma SummaryReportsExact(count: string -> nat, declared: seq<Entry>, w: Work)
    requires Sound(count, declared, w)
    ensures var reports, summaries := OfSummaries(w.entries, w), SummariesIn(w.entries);
            && |reports| == |summaries|
            && forall k | 0 <= k < |summaries| :: SpeaksOf(reports[k], summaries[k], w)
  {
    OfSummariesAligned(w.entries, w);
    var summaries := SummariesIn(w.entries);
    forall k | 0 <= k < |summaries| ensures SpeaksOf(OfSummaries(w.entries, w)[k], summaries[k], w) {
      assert summaries[k] in summaries;
      SummariesListed(w.entries, summaries[k]);
      SummarySpeaks(count, declared, w, summaries[k]);
    }
  }
}
