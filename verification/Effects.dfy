/** What one compaction stage does to the working set, and what every stage keeps (internal/contextmgr/compact.go). */
module Effects {
  import opened Compaction
  import opened Contexts
  import opened Counting
  import opened Definitions
  import opened Strategies
  import opened Summaries

  datatype Strategy =
    | SlidingWindow(n: nat)
    | DropLowestPriority
    | TruncateOldest(floor: nat)
    | SummarizeOldest(key: string, maxTokens: nat)

  datatype Policy = Policy(budget: int, pipeline: seq<Strategy>, configured: bool)

  /** The entries at the given positions are dropped, and logged in that order. */
  ghost predicate Removes(before: Work, order: seq<nat>, after: Work, actions: seq<EntryAction>) {
    after == DropAll(before, Elements(order)) && LogsRemovals(before.entries, order, EntryDropped, actions)
  }

  /** Everything but the last n droppable entries goes, in message order. */
  ghost predicate Slides(n: nat, before: Work, order: seq<nat>, after: Work, actions: seq<EntryAction>) {
    && Ascending(order) && Elements(order) == OutsideWindow(before, n)
    && Removes(before, order, after, actions)
  }

  /** The shortest initial segment of the eviction order that makes the request fit goes, in that order. */
  ghost predicate Evicts(budget: int, measure: Measure, before: Work, order: seq<nat>, after: Work,
                         actions: seq<EntryAction>)
  {
    && InEvictionOrder(before, order) && IsShortestFit(before, Elements(order), budget, measure)
    && Removes(before, order, after, actions)
  }

  /** Round by round the oldest entry is cut, until the request fits or all are at the floor. */
  ghost predicate Truncates(floor: nat, budget: int, count: string -> nat, measure: Measure, before: Work, after: Work,
                            actions: seq<EntryAction>)
  {
    && TruncatesOldest(before, after, floor) && LogsTruncations(before, after, actions)
    && (forall e | e in after.entries :: e.tokens == count(e.content))
    && (FitsBudget(after, budget, measure) || AtFloor(after, floor))
    && exists rounds :: AreRounds(budget, floor, count, measure, rounds) && Spans(rounds, before, after)
  }

  ghost predicate Spans(history: seq<Work>, first: Work, last: Work) {
    history != [] && history[0] == first && history[|history| - 1] == last
  }

  /** The effect of one stage of the pipeline. */
  ghost predicate Effect(strategy: Strategy, pol: Policy, reply: string -> Reply, count: string -> nat,
                         measure: Measure, before: Work, after: Work, actions: seq<EntryAction>)
  {
    match strategy
    case SlidingWindow(n) => exists order :: Slides(n, before, order, after, actions)
    case DropLowestPriority => exists order :: Evicts(pol.budget, measure, before, order, after, actions)
    case TruncateOldest(floor) => Truncates(floor, pol.budget, count, measure, before, after, actions)
    case SummarizeOldest(key, maxTokens) =>
      Summarizes(before, Summarizing(key, maxTokens, pol.budget, pol.configured), reply, count, measure, after, actions)
  }

  // ---------- what a removal keeps ----------

  lemma RemovalDroppable(strategy: Strategy, pol: Policy, measure: Measure, before: Work, order: seq<nat>, after: Work,
                         actions: seq<EntryAction>)
    requires || (strategy.SlidingWindow? && Slides(strategy.n, before, order, after, actions))
             || Evicts(pol.budget, measure, before, order, after, actions)
    ensures Removes(before, order, after, actions) && forall i | i in order :: Droppable(before, i)
  {
    forall i | i in order ensures Droppable(before, i) {
      assert i in Elements(order);
    }
  }

  lemma RemovalChanges(before: Work, order: seq<nat>, after: Work, actions: seq<EntryAction>)
    requires Removes(before, order, after, actions) && forall i | i in order :: Droppable(before, i)
    ensures actions == [] <==> after == before
    ensures Spent(before) ==> actions == []
  {
    if order == [] {
      assert Elements(order) == {};
      NoIndices(before);
    } else {
      assert order[0] in order && order[0] in Elements(order);
      assert before.entries[order[0]].sourceIndex in IndicesAt(before, Elements(order));
      assert before.entries[order[0]].sourceIndex in after.dropped;
    }
  }

  lemma RemovalKeepsSound(count: string -> nat, base: seq<Entry>, before: Work, order: seq<nat>, after: Work,
                          actions: seq<EntryAction>)
    requires Sound(count, base, before)
    requires Removes(before, order, after, actions) && forall i | i in order :: Droppable(before, i)
    ensures Sound(count, base, after)
  {
    DropAllKeepsSound(count, base, before, Elements(order));
  }

  // ---------- what a truncation keeps ----------

  lemma UnchangedEntries(before: Work, after: Work, floor: nat)
    requires TruncatesOldest(before, after, floor)
    requires forall i: nat | i < |before.entries| :: after.entries[i] == before.entries[i]
    ensures after == before
  {
    assert after.entries == before.entries;
    forall x | x in after.truncated ensures x in before.truncated {
      assert x in after.truncated - before.truncated ==> x in before.truncated;
    }
    assert after.truncated == before.truncated;
  }

  lemma TruncationChanges(before: Work, after: Work, floor: nat, actions: seq<EntryAction>)
    requires TruncatesOldest(before, after, floor) && LogsTruncations(before, after, actions)
    ensures actions == [] <==> after == before
    ensures Spent(before) ==> actions == []
  {
    if actions == [] {
      UnchangedEntries(before, after, floor);
    } else {
      assert actions[0] in actions;
      assert RecordsChange(before, after, actions[0]);
      var i: nat :| i < |before.entries| && after.entries[i] != before.entries[i];
      assert Shrunk(before, after, i, floor);
    }
  }

  // ---------- what a summary keeps ----------

  lemma SummaryKeepsSound(count: string -> nat, base: seq<Entry>, w: Work, s: Summarizing, reply: string -> Reply,
                          measure: Measure, after: Work, actions: seq<EntryAction>)
    requires Sound(count, base, w) && Summarizes(w, s, reply, count, measure, after, actions)
    ensures Sound(count, base, after)
    ensures actions == [] <==> after == w
    ensures Spent(w) ==> actions == []
  {
    if span :| Pays(w, s, reply, count, measure, span) {
      var folded :| Pays(w, s, reply, count, measure, folded) && FoldsSpan(w, s, reply, count, folded, after, actions);
      var answer := reply(Render(EntriesAt(w.entries, folded)));
      FoldingKeepsSound(count, base, w, folded, s.key, SummaryRef(s.key, answer.put.version), answer.text);
      assert folded[0] in folded;
      assert |after.entries| == |w.entries| + 1;
    }
  }

  // ---------- what every stage keeps ----------

  /** Whatever the stage, the working set stays sound. */
  lemma EffectKeepsSound(base: seq<Entry>, strategy: Strategy, pol: Policy, reply: string -> Reply,
                         count: string -> nat, measure: Measure, before: Work, after: Work, actions: seq<EntryAction>)
    requires Sound(count, base, before) && Effect(strategy, pol, reply, count, measure, before, after, actions)
    ensures Sound(count, base, after)
  {
    hide Sound, Slides, Evicts, Summarizes, TruncatesOldest, LogsTruncations, FitsBudget, AtFloor, Removes;
    match strategy
    case SlidingWindow(n) =>
      var order :| Slides(n, before, order, after, actions);
      RemovalDroppable(strategy, pol, measure, before, order, after, actions);
      RemovalKeepsSound(count, base, before, order, after, actions);
    case DropLowestPriority =>
      var order :| Evicts(pol.budget, measure, before, order, after, actions);
      RemovalDroppable(strategy, pol, measure, before, order, after, actions);
      RemovalKeepsSound(count, base, before, order, after, actions);
    case TruncateOldest(floor) =>
      TruncationKeepsSound(count, base, before, after, floor);
    case SummarizeOldest(key, maxTokens) =>
      var s := Summarizing(key, maxTokens, pol.budget, pol.configured);
      SummaryKeepsSound(count, base, before, s, reply, measure, after, actions);
  }

  /** A stage logs actions exactly when it changes something, and does neither once nothing is droppable. */
  lemma EffectLogsChange(base: seq<Entry>, strategy: Strategy, pol: Policy, reply: string -> Reply,
                         count: string -> nat, measure: Measure, before: Work, after: Work, actions: seq<EntryAction>)
    requires Sound(count, base, before) && Effect(strategy, pol, reply, count, measure, before, after, actions)
    ensures actions == [] <==> after == before
    ensures Spent(before) ==> after == before
  {
    hide Sound, Slides, Evicts, Summarizes, TruncatesOldest, LogsTruncations, FitsBudget, AtFloor, Removes, Spent;
    match strategy
    case SlidingWindow(n) =>
      var order :| Slides(n, before, order, after, actions);
      RemovalDroppable(strategy, pol, measure, before, order, after, actions);
      RemovalChanges(before, order, after, actions);
    case DropLowestPriority =>
      var order :| Evicts(pol.budget, measure, before, order, after, actions);
      RemovalDroppable(strategy, pol, measure, before, order, after, actions);
      RemovalChanges(before, order, after, actions);
    case TruncateOldest(floor) =>
      TruncationChanges(before, after, floor, actions);
    case SummarizeOldest(key, maxTokens) =>
      var s := Summarizing(key, maxTokens, pol.budget, pol.configured);
      SummaryKeepsSound(count, base, before, s, reply, measure, after, actions);
  }

  /** An eviction stage leaves a request that fits, or nothing droppable. */
  lemma EvictionEnds(pol: Policy, reply: string -> Reply, count: string -> nat, measure: Measure, before: Work,
                     after: Work, actions: seq<EntryAction>)
    requires DistinctSources(before.entries)
    requires Effect(DropLowestPriority, pol, reply, count, measure, before, after, actions)
    ensures FitsBudget(after, pol.budget, measure) || Spent(after)
  {
    var order :| Evicts(pol.budget, measure, before, order, after, actions);
    var s := Elements(order);
    forall i: nat ensures Droppable(DropAll(before, s), i) <==> Droppable(before, i) && i !in s {
      DroppableAfter(before, s, i);
    }
  }

  /** What an eviction stage dropped has a lower priority than what it spared, or the same and a later position. */
  lemma EvictedFirst(pol: Policy, reply: string -> Reply, count: string -> nat, measure: Measure, before: Work,
                     after: Work, actions: seq<EntryAction>, i: nat, j: nat)
    requires DistinctSources(before.entries)
    requires Effect(DropLowestPriority, pol, reply, count, measure, before, after, actions)
    requires Droppable(before, i) && !Droppable(after, i) && Droppable(after, j)
    ensures j < |before.entries|
    ensures var low, high := before.entries[i].priority, before.entries[j].priority;
            low < high || (low == high && j < i)
  {
    hide DistinctSources, FitsBudget, TooShort, LogsRemovals, InEvictionOrder;
    var order :| Evicts(pol.budget, measure, before, order, after, actions);
    DroppableAfter(before, Elements(order), i);
    DroppableAfter(before, Elements(order), j);
    hide IndicesAt, Droppable;
  }

  /** A sliding window spares exactly the last n of the droppable entries. */
  lemma WindowSparesLast(n: nat, pol: Policy, reply: string -> Reply, count: string -> nat, measure: Measure,
                         before: Work, after: Work, actions: seq<EntryAction>, live: seq<nat>)
    requires DistinctSources(before.entries) && ListsDroppable(before, live, |before.entries|)
    requires Effect(SlidingWindow(n), pol, reply, count, measure, before, after, actions)
    ensures ListsDroppable(after, live[if n <= |live| then |live| - n else 0..], |after.entries|)
  {
    hide DistinctSources;
    var order :| Slides(n, before, order, after, actions);
    var cut := if n <= |live| then |live| - n else 0;
    if n <= |live| {
      WindowExact(before, live, n);
    } else {
      WindowWide(before, live, n);
    }
    var rest := live[cut..];
    forall i: nat ensures i in rest <==> i < |after.entries| && Droppable(after, i) {
      DroppableAfter(before, Elements(order), i);
      ListedOnce(live, cut, i);
    }
  }

  lemma ListedOnce(live: seq<nat>, cut: nat, i: nat)
    requires Ascending(live) && cut <= |live|
    ensures i in live[cut..] <==> i in live && i !in Elements(live[..cut])
  {
    if i in live {
      var j :| 0 <= j < |live| && live[j] == i;
      assert j >= cut ==> live[cut..][j - cut] == i;
      assert j < cut ==> live[..cut][j] == i;
    }
  }
}
