/** The compaction pipeline (internal/contextmgr/compact.go). */
module Pipeline {
  import opened Compaction
  import opened Contexts
  import opened Counting
  import opened Definitions
  import opened Effects
  import opened Reports
  import opened Strategies
  import opened Summaries
  import opened Truncation

  datatype Revision = Revision(index: nat, strategy: Strategy, before: int, after: int, changed: bool,
                               actions: seq<EntryAction>, kept: seq<string>)

  datatype Outcome =
    | Fatal
    | OverBudget(tokens: int, pinnedTokens: int, pinnedOnly: bool, applied: seq<Strategy>, revisions: seq<Revision>)
    | Compacted(preamble: string, sources: seq<SourceReport>, entries: seq<Entry>,
                contextTokens: nat, finalTokens: int, revisions: seq<Revision>)

  /** The summarizer's answers, which may differ from stage to stage. */
  type Replies = (nat, string) -> Reply

  function ReplyAt(replies: Replies, k: nat): string -> Reply {
    (t: string) => replies(k, t)
  }

  ghost predicate AlwaysCalm(measure: Measure, replies: Replies) {
    forall k :: Calm(measure, ReplyAt(replies, k))
  }

  lemma SpentOnlyPinned(count: string -> nat, base: seq<Entry>, w: Work)
    requires Sound(count, base, w) && Spent(w)
    ensures Live(w) == Pinned(base)
  {
    forall e | e in w.entries ensures e.pinned <==> e.sourceIndex !in w.dropped {
      var i: nat :| i < |w.entries| && w.entries[i] == e;
      assert !Droppable(w, i);
    }
    OnlyPinnedLeft(w.entries, w.dropped);
    PinnedSurvive(count, base, w);
  }

  // ---------- one strategy ----------

  /** Runs one strategy: the working set is left as the strategy's effect says. */
  method ApplyStrategy(st: CompactState, strategy: Strategy, pol: Policy, reply: string -> Reply,
                       count: string -> nat, measure: Measure, ghost base: seq<Entry>)
    returns (ok: bool, actions: seq<EntryAction>)
    requires IsCounter(count) && Sound(count, base, st.View())
    modifies st
    ensures Calm(measure, reply) ==> ok
    ensures ok ==> Effect(strategy, pol, reply, count, measure, old(st.View()), st.View(), actions)
  {
    hide TruncatesOldest, LogsTruncations, LogsRemovals, Render, Without, IsShortestFit, InEvictionOrder, OutsideWindow,
         FitsBudget, AtFloor, Summarizes, DropAll;
    ghost var w := st.View();
    match strategy
    case SlidingWindow(n) =>
      ghost var order;
      actions, order := st.SlideWindow(n);
      assert Slides(n, w, order, st.View(), actions);
      return true, actions;
    case DropLowestPriority =>
      ghost var order;
      ok, actions, order := st.EvictLowest(pol.budget, measure);
      assert ok ==> Evicts(pol.budget, measure, w, order, st.View(), actions);
    case TruncateOldest(floor) =>
      ghost var rounds;
      ok, actions, rounds := st.ShrinkOldest(pol.budget, floor, count, measure);
      assert ok ==> Spans(rounds, w, st.View());
    case SummarizeOldest(key, maxTokens) =>
      ok, actions := st.Summarize(Summarizing(key, maxTokens, pol.budget, pol.configured), reply, count, measure);
  }

  // ---------- the pipeline ----------

  function Started(base: seq<Entry>): Work {
    Work(base, {}, {}, map[], -1)
  }

  ghost predicate Measures(measure: Measure, w: Work, tokens: int) {
    measure(Render(Live(w))) == Some(tokens)
  }

  function Names(entries: seq<Entry>): seq<string> {
    seq(|entries|, i requires 0 <= i < |entries| => entries[i].name)
  }

  /** What one revision says of the stage it records: the totals around it, what it did, and what it kept. */
  ghost predicate Records(measure: Measure, count: string -> nat, pol: Policy, replies: Replies, r: Revision, k: nat,
                          before: Work, after: Work)
    requires k < |pol.pipeline|
  {
    && r.index == k && r.strategy == pol.pipeline[k] && r.before > pol.budget
    && Measures(measure, before, r.before) && Measures(measure, after, r.after)
    && Effect(r.strategy, pol, ReplyAt(replies, k), count, measure, before, after, r.actions)
    && (r.changed <==> after != before) && r.kept == Names(Live(after))
  }

  /** The audit trail: one revision per applied strategy, in order, each run while over budget; history holds the
      working sets between them. */
  ghost predicate IsTrail(measure: Measure, count: string -> nat, pol: Policy, replies: Replies,
                          revisions: seq<Revision>, history: seq<Work>)
  {
    && |history| == |revisions| + 1 && |revisions| <= |pol.pipeline|
    && forall k | 0 <= k < |revisions| ::
         Records(measure, count, pol, replies, revisions[k], k, history[k], history[k + 1])
  }

  lemma TrailGrows(measure: Measure, count: string -> nat, pol: Policy, replies: Replies, revisions: seq<Revision>,
                   history: seq<Work>, r: Revision, after: Work)
    requires IsTrail(measure, count, pol, replies, revisions, history) && |revisions| < |pol.pipeline|
    requires Records(measure, count, pol, replies, r, |revisions|, history[|history| - 1], after)
    ensures IsTrail(measure, count, pol, replies, revisions + [r], history + [after])
  {
    hide Records;
  }

  lemma TrailStart(measure: Measure, count: string -> nat, pol: Policy, replies: Replies, revisions: seq<Revision>,
                   history: seq<Work>, start: int, end: int)
    requires IsTrail(measure, count, pol, replies, revisions, history)
    requires Measures(measure, history[0], start) && Measures(measure, history[|history| - 1], end) && end <= pol.budget
    ensures start <= pol.budget <==> revisions == []
  {
    hide Effect;
    if revisions != [] {
      assert Records(measure, count, pol, replies, revisions[0], 0, history[0], history[1]);
    }
  }

  /** The pinned entries alone never count more than a request that also holds other entries. */
  ghost predicate PinnedCheapest(measure: Measure, base: seq<Entry>) {
    forall w: Work, m: int | Pinned(Live(w)) == Pinned(base) && measure(Render(Live(w))) == Some(m) ::
      measure(Render(Pinned(base))).Some? && measure(Render(Pinned(base))).value <= m
  }

  method PinnedEntries(entries: seq<Entry>) returns (pins: seq<Entry>)
    ensures pins == Pinned(entries)
  {
    pins := [];
    for i := 0 to |entries|
      invariant pins == Pinned(entries[..i])
    {
      if entries[i].pinned {
        pins := pins + [entries[i]];
      }
      assert entries[..i + 1] == entries[..i] + [entries[i]];
      PinnedConcat(entries[..i], [entries[i]]);
    }
    assert entries[..|entries|] == entries;
  }

  method KeptNames(entries: seq<Entry>, dropped: set<int>) returns (names: seq<string>)
    ensures names == Names(Without(entries, dropped))
  {
    names := [];
    for i := 0 to |entries|
      invariant names == Names(Without(entries[..i], dropped))
    {
      if entries[i].sourceIndex !in dropped {
        names := names + [entries[i].name];
      }
      assert entries[..i + 1] == entries[..i] + [entries[i]];
      WithoutConcat(entries[..i], [entries[i]], dropped);
    }
    assert entries[..|entries|] == entries;
  }

  /** Runs the strategies in order while the request is over budget. */
  method RunPipeline(st: CompactState, start: int, pol: Policy, replies: Replies,
                     count: string -> nat, measure: Measure, ghost base: seq<Entry>)
    returns (ok: bool, current: int, revisions: seq<Revision>, applied: seq<Strategy>, ghost history: seq<Work>)
    requires IsCounter(count) && Sound(count, base, st.View()) && Measures(measure, st.View(), start)
    modifies st
    ensures AlwaysCalm(measure, replies) ==> ok
    ensures ok ==> Sound(count, base, st.View()) && Measures(measure, st.View(), current)
    ensures ok ==> IsTrail(measure, count, pol, replies, revisions, history)
    ensures ok ==> history[0] == old(st.View()) && history[|history| - 1] == st.View()
    ensures ok && current > pol.budget ==> applied == pol.pipeline && |revisions| == |pol.pipeline|
    ensures ok && current > pol.budget && DropLowestPriority in pol.pipeline ==> Spent(st.View())
  {
    hide Sound, Records, Spent, Render, Without, Effect, Calm, Names;
    current, revisions, applied, history := start, [], [], [st.View()];
    var idx := 0;
    while idx < |pol.pipeline| && current > pol.budget
      invariant 0 <= idx <= |pol.pipeline| && |revisions| == idx && applied == pol.pipeline[..idx]
      invariant Sound(count, base, st.View()) && Measures(measure, st.View(), current)
      invariant IsTrail(measure, count, pol, replies, revisions, history)
      invariant history[0] == old(st.View()) && history[|history| - 1] == st.View()
      invariant DropLowestPriority in pol.pipeline[..idx] && current > pol.budget ==> Spent(st.View())
    {
      var strategy := pol.pipeline[idx];
      var actions;
      ghost var before := st.View();
      ok, actions := ApplyStrategy(st, strategy, pol, ReplyAt(replies, idx), count, measure, base);
      if !ok {
        return;
      }
      var measured := st.MeasureLive(measure);
      if measured.None? {
        MeasureFailed(measure, replies, Render(Live(st.View())));
        ok := false;
        return;
      }
      var names := KeptNames(st.entries, st.dropped);
      var revision := Revision(idx, strategy, current, measured.value, actions != [], actions, names);
      StageRecorded(base, measure, count, pol, replies, revision, idx, before, st.View());
      TrailGrows(measure, count, pol, replies, revisions, history, revision, st.View());
      current, history := measured.value, history + [st.View()];
      revisions, applied := revisions + [revision], applied + [strategy];
      idx := idx + 1;
    }
    ok := true;
    assert pol.pipeline[..|pol.pipeline|] == pol.pipeline;
  }

  lemma MeasureFailed(measure: Measure, replies: Replies, t: string)
    requires measure(t).None?
    ensures !AlwaysCalm(measure, replies)
  {
    assert !Calm(measure, ReplyAt(replies, 0));
  }

  /** One stage, recorded: the invariant holds on, and a stage after an unsuccessful eviction changes nothing. */
  lemma StageRecorded(base: seq<Entry>, measure: Measure, count: string -> nat, pol: Policy, replies: Replies,
                      r: Revision, k: nat, before: Work, after: Work)
    requires k < |pol.pipeline| && Sound(count, base, before)
    requires r.index == k && r.strategy == pol.pipeline[k] && r.before > pol.budget && r.kept == Names(Live(after))
    requires Measures(measure, before, r.before) && Measures(measure, after, r.after)
    requires Effect(r.strategy, pol, ReplyAt(replies, k), count, measure, before, after, r.actions)
    requires r.changed <==> r.actions != []
    ensures Records(measure, count, pol, replies, r, k, before, after) && Sound(count, base, after)
    ensures Spent(before) ==> Spent(after)
    ensures r.strategy == DropLowestPriority && r.after > pol.budget ==> Spent(after)
  {
    hide Effect, Render, Without, Names, Spent;
    var reply := ReplyAt(replies, k);
    EffectKeepsSound(base, r.strategy, pol, reply, count, measure, before, after, r.actions);
    EffectLogsChange(base, r.strategy, pol, reply, count, measure, before, after, r.actions);
    if r.strategy == DropLowestPriority {
      EvictionEnds(pol, reply, count, measure, before, after, r.actions);
    }
  }

  /** Shrinks an assembly to the budget or says why not. The ghost result is the history of the working set. */
  method Compact(base: seq<Entry>, sources: seq<SourceReport>, pol: Policy, replies: Replies,
                 count: string -> nat, measure: Measure)
    returns (r: Outcome, ghost history: seq<Work>)
    requires IsCounter(count) && Assembled(count, base) && ReportsSources(base, sources) && Balanced(base, sources)
    ensures AlwaysCalm(measure, replies) ==> !r.Fatal?
    ensures !r.Fatal? ==>
      && IsTrail(measure, count, pol, replies, r.revisions, history) && history[0] == Started(base)
      && Sound(count, base, history[|history| - 1])
    // It never overflows, and what it sends shows the live entries in order, every pinned one among them.
    ensures r.Compacted? ==>
      && r.entries == Live(history[|history| - 1]) && Pinned(r.entries) == Pinned(base)
      && r.preamble == Render(r.entries) && Shows(r.preamble, r.entries) && Shows(r.preamble, Pinned(base))
      && r.contextTokens == count(r.preamble)
      && measure(r.preamble) == Some(r.finalTokens) && r.finalTokens <= pol.budget
    // Every token sent is accounted for, per source.
    ensures r.Compacted? ==>
      var w := history[|history| - 1];
      r.sources == Updated(sources, w.entries, w) + OfSummaries(w.entries, w) && Balanced(r.entries, r.sources)
    // A request that fits is left alone.
    ensures r.Compacted? ==> (FitsBudget(Started(base), pol.budget, measure) <==> r.revisions == [])
    ensures r.Compacted? && r.revisions == [] ==> r.entries == base
    ensures r.OverBudget? ==>
      && r.tokens > pol.budget && r.applied == pol.pipeline && |r.revisions| == |pol.pipeline|
      && Measures(measure, history[|history| - 1], r.tokens)
      && measure(Render(Pinned(base))) == Some(r.pinnedTokens) && r.pinnedOnly == (r.pinnedTokens > pol.budget)
    // With an eviction stage the only way to fail is a pinned set that does not fit.
    ensures r.OverBudget? && DropLowestPriority in pol.pipeline ==> r.pinnedOnly && r.tokens == r.pinnedTokens
    ensures r.Compacted? && PinnedCheapest(measure, base) ==>
      measure(Render(Pinned(base))).Some? && measure(Render(Pinned(base))).value <= pol.budget
  {
    hide Sound, IsTrail, Spent, Render, Shows, Balanced, ReportsSources, Pinned, Without;
    var st := new CompactState(base);
    history := [st.View()];
    StartsSound(count, base);
    NoneDropped(base);
    var measured := st.MeasureLive(measure);
    if measured.None? {
      MeasureFailed(measure, replies, Render(Live(st.View())));
      return Fatal, history;
    }
    var ok, current, revisions, applied, trail := RunPipeline(st, measured.value, pol, replies, count, measure, base);
    history := trail;
    if !ok {
      return Fatal, history;
    }
    TrailShape(measure, count, pol, replies, revisions, history);
    ghost var w := st.View();
    PinnedSurvive(count, base, w);
    if current > pol.budget {
      var pins := PinnedEntries(st.entries);
      var pinned := measure(Render(pins));
      if pinned.None? {
        MeasureFailed(measure, replies, Render(pins));
        return Fatal, history;
      }
      if DropLowestPriority in pol.pipeline {
        SpentOnlyPinned(count, base, w);
      }
      return OverBudget(current, pinned.value, pinned.value > pol.budget, applied, revisions), history;
    }
    TrailStart(measure, count, pol, replies, revisions, history, measured.value, current);
    var live := LiveEntries(st.entries, st.dropped);
    ReportsStayBalanced(count, base, sources, w);
    SourcesIndexed(base, sources);
    var reports := CompactedReports(sources, st.entries, st.dropped, st.truncated, st.summarizedInto, w);
    RenderShows(live);
    ShowsPinned(Render(live), live);
    r := Compacted(Render(live), reports, live, count(Render(live)), current, revisions);
  }

  lemma TrailShape(measure: Measure, count: string -> nat, pol: Policy, replies: Replies, revisions: seq<Revision>,
                   history: seq<Work>)
    requires IsTrail(measure, count, pol, replies, revisions, history)
    ensures |history| == |revisions| + 1
  {
  }

  lemma SourcesIndexed(entries: seq<Entry>, reports: seq<SourceReport>)
    requires ReportsSources(entries, reports)
    ensures Indexed(reports)
  {
  }

  lemma {:induction false} NoneDropped(entries: seq<Entry>)
    ensures Without(entries, {}) == entries
  {
    if entries != [] {
      NoneDropped(entries[1..]);
    }
  }
}
