/** A summary folded into a later summary: the pipeline reports it as dropped (internal/contextmgr/compact.go). */
module Refolding {
  import opened Compaction
  import opened Contexts
  import opened Counting
  import opened Definitions
  import opened Effects
  import opened Pipeline
  import opened Reports
  import opened Strategies
  import opened Summaries
  import opened Truncation

  /** The first entry is the only one a strategy may touch. */
  ghost predicate OnlyFirst(w: Work) {
    Droppable(w, 0) && forall i: nat | Droppable(w, i) :: i == 0
  }

  lemma OnlySpan(w: Work, want: int)
    requires OnlyFirst(w)
    ensures IsOldestSpan(w, [0], want) && SpanTokens(w, [0]) == w.entries[0].tokens
  {
    assert [0][..0] == [];
    assert SpanTokens(w, []) == 0;
  }

  /** A summarize stage over a single entry folds it, if the answer is smaller. */
  lemma OnlyFold(w: Work, s: Summarizing, reply: string -> Reply, count: string -> nat, measure: Measure, text: string,
                 version: nat, after: Work, actions: seq<EntryAction>)
    requires OnlyFirst(w) && s.configured && Wanted(w, s, measure).Some?
    requires (forall t :: reply(t) == Answered(text, PutAt(version))) && count(text) < w.entries[0].tokens
    requires Summarizes(w, s, reply, count, measure, after, actions)
    ensures after == Folded(w, [0], s.key, SummaryRef(s.key, version), text, count(text))
  {
    hide Render, EntriesAt, Live, Folded, IsOldestSpan;
    var want := Wanted(w, s, measure).value;
    OnlySpan(w, want);
    assert Pays(w, s, reply, count, measure, [0]);
    var span :| Pays(w, s, reply, count, measure, span) && FoldsSpan(w, s, reply, count, span, after, actions);
    SpanUnique(w, span, [0], want);
  }

  lemma FoldFirst(w: Work, key: string, ref: string, text: string, tokens: nat)
    requires OnlyFirst(w) && w.entries[0].sourceIndex > w.nextSynthetic
    requires forall i | i in w.dropped :: i > w.nextSynthetic
    ensures var after := Folded(w, [0], key, ref, text, tokens);
            && after.entries == [SummaryEntry(w.nextSynthetic, key, ref, text, tokens)] + w.entries
            && after.dropped == w.dropped + {w.entries[0].sourceIndex}
            && after.summarizedInto == w.summarizedInto[w.entries[0].sourceIndex := ref]
            && after.nextSynthetic == w.nextSynthetic - 1
            && OnlyFirst(after)
  {
    assert Elements([0]) == {0};
    assert IndicesAt(w, {0}) == {w.entries[0].sourceIndex};
    var after := Folded(w, [0], key, ref, text, tokens);
    assert w.entries[..0] + [SummaryEntry(w.nextSynthetic, key, ref, text, tokens)] + w.entries[0..]
           == [SummaryEntry(w.nextSynthetic, key, ref, text, tokens)] + w.entries;
    forall i: nat | 0 < i < |after.entries| ensures !Droppable(after, i) {
      assert after.entries[i] == w.entries[i - 1];
      assert Droppable(w, i - 1) ==> i - 1 == 0;
    }
  }

  // ---------- the run ----------

  const NOTE := Entry(0, "literal", "note", "literal", false, 0, "a long enough note", 18)

  const REPORT := SourceReport(0, "literal", "note", "literal", Included, 18, false)

  function Length(t: string): nat {
    |t|
  }

  function LengthMeasure(t: string): Option<int> {
    Some(|t|)
  }

  /** The first summary holds two characters, the second one. */
  function Shorter(k: nat, t: string): Reply {
    Answered(if k == 0 then "ab" else "c", PutAt(k))
  }

  function First(): Entry {
    SummaryEntry(-1, "s", SummaryRef("s", 0), "ab", 2)
  }

  function Second(): Entry {
    SummaryEntry(-2, "s", SummaryRef("s", 1), "c", 1)
  }

  function Squeeze(): Policy {
    Policy(|Render([Second()])|, [SummarizeOldest("s", 0), SummarizeOldest("s", 0)], true)
  }

  lemma Lengths()
    ensures |Render([First()])| == |Render([Second()])| + 1 && |Render([NOTE])| > |Render([Second()])|
    ensures |NOTE.content| == 18
  {
  }

  lemma StageOne(w: Work, actions: seq<EntryAction>)
    requires Effect(Squeeze().pipeline[0], Squeeze(), ReplyAt(Shorter, 0), Length, LengthMeasure, Started([NOTE]), w,
                    actions)
    ensures w == Work([First(), NOTE], {0}, {}, map[0 := SummaryRef("s", 0)], -2) && OnlyFirst(w)
            && Live(w) == [First()]
  {
    var w0 := Started([NOTE]);
    assert OnlyFirst(w0);
    OnlyFold(w0, Summarizing("s", 0, Squeeze().budget, true), ReplyAt(Shorter, 0), Length, LengthMeasure, "ab", 0, w,
             actions);
    FoldFirst(w0, "s", SummaryRef("s", 0), "ab", 2);
    assert Without([NOTE], {0}) == [];
  }

  lemma StageTwo(before: Work, w: Work, actions: seq<EntryAction>)
    requires before == Work([First(), NOTE], {0}, {}, map[0 := SummaryRef("s", 0)], -2) && OnlyFirst(before)
    requires Effect(Squeeze().pipeline[1], Squeeze(), ReplyAt(Shorter, 1), Length, LengthMeasure, before, w, actions)
    ensures w.entries == [Second(), First(), NOTE] && w.dropped == {0, -1} && -1 in w.summarizedInto
    ensures Live(w) == [Second()]
  {
    OnlyFold(before, Summarizing("s", 0, Squeeze().budget, true), ReplyAt(Shorter, 1), Length, LengthMeasure, "c", 1, w,
             actions);
    FoldFirst(before, "s", SummaryRef("s", 1), "c", 1);
    assert Without([NOTE], {0, -1}) == [];
    assert Without([First(), NOTE], {0, -1}) == [];
  }

  /** Where every run of this pipeline goes. */
  lemma RunIsTwoStages(revisions: seq<Revision>, history: seq<Work>)
    requires IsTrail(LengthMeasure, Length, Squeeze(), Shorter, revisions, history) && history[0] == Started([NOTE])
    ensures |history| == |revisions| + 1 <= 3
    ensures |revisions| >= 1 ==> Live(history[1]) == [First()]
    ensures |revisions| >= 2 ==>
              && history[2].entries == [Second(), First(), NOTE] && history[2].dropped == {0, -1}
              && -1 in history[2].summarizedInto && Live(history[2]) == [Second()]
  {
    hide Effect, Render, Folded, Without, First, Second;
    if |revisions| >= 1 {
      assert Records(LengthMeasure, Length, Squeeze(), Shorter, revisions[0], 0, history[0], history[1]);
      StageOne(history[1], revisions[0].actions);
    }
    if |revisions| >= 2 {
      assert Records(LengthMeasure, Length, Squeeze(), Shorter, revisions[1], 1, history[1], history[2]);
      StageTwo(history[1], history[2], revisions[1].actions);
    }
  }

  lemma FirstReported(w: Work)
    requires w.entries == [Second(), First(), NOTE] && w.dropped == {0, -1}
    ensures exists report :: report in OfSummaries(w.entries, w) && report.index == -1 && report.status == Dropped
  {
    var front := w.entries[..2];
    assert front == [Second(), First()] && front[..1] == [Second()];
    assert OfSummaries(w.entries, w) == OfSummaries(front, w) + [];
    assert OfSummaries(front, w) == OfSummaries(front[..1], w) + [SummaryReport(First(), w)];
    assert SummaryReport(First(), w) in OfSummaries(w.entries, w);
  }

  /** Two summarize stages in a row: the second folds the first one's summary, which the reports call dropped. */
  method ReportsRefoldedAsDropped() returns (r: Outcome, ghost history: seq<Work>)
    ensures r.Compacted? && IsTrail(LengthMeasure, Length, Squeeze(), Shorter, r.revisions, history)
    ensures |history| == 3 && history[0] == Started([NOTE])
    ensures First() in Live(history[1]) && First() in history[2].entries && Fate(First(), history[2]) == Summarized
    ensures exists report :: report in r.sources && report.index == -1 && report.status == Dropped
  {
    hide Effect, Render, Updated, OfSummaries, Balanced, Without, Sound, IsTrail, ReportsSources, First, Second;
    Lengths();
    StartsReported();
    NoneDropped([NOTE]);
    r, history := Compact([NOTE], [REPORT], Squeeze(), Shorter, Length, LengthMeasure);
    RunIsTwoStages(r.revisions, history);
    FirstReported(history[2]);
    FirstIndex();
  }

  lemma FirstIndex()
    ensures First().sourceIndex == -1
  {
  }

  lemma StartsReported()
    ensures IsCounter(Length) && Assembled(Length, [NOTE]) && ReportsSources([NOTE], [REPORT])
            && Balanced([NOTE], [REPORT])
    ensures AlwaysCalm(LengthMeasure, Shorter)
  {
    assert NOTE in [NOTE];
    forall k: nat ensures Calm(LengthMeasure, ReplyAt(Shorter, k)) {
      assert forall t :: ReplyAt(Shorter, k)(t) == Shorter(k, t);
    }
  }
}
