/** The compaction strategies over the mutable working set (internal/contextmgr/compact.go). */
module Compaction {
  import opened Counting
  import opened Contexts
  import opened Definitions
  import opened Strategies
  import opened Summaries
  import opened Texts
  import opened Truncation

  datatype ActionKind = EntryDropped | EntryTruncated | EntrySummarized

  datatype EntryAction = EntryAction(sourceIndex: int, name: string, kind: ActionKind, before: nat, after: nat)

  /** The outcome of writing a summary to the blackboard. */
  datatype Put = PutFailed | PutCancelled | PutAt(version: nat)

  /** What the summarizer answered for a span. */
  datatype Reply = SummarizerFailed | SummarizerCancelled | Answered(text: string, put: Put)

  /** The environment neither fails to measure nor cancels. */
  ghost predicate Calm(measure: Measure, reply: string -> Reply) {
    forall t ::
      measure(t).Some? && !reply(t).SummarizerCancelled? && (reply(t).Answered? ==> !reply(t).put.PutCancelled?)
  }

  // ---------- the removal log ----------

  function RemovalOf(e: Entry, kind: ActionKind): EntryAction {
    EntryAction(e.sourceIndex, e.name, kind, e.tokens, 0)
  }

  /** The actions record the removal of the entries at the given positions, in that order. */
  ghost predicate LogsRemovals(entries: seq<Entry>, order: seq<nat>, kind: ActionKind, actions: seq<EntryAction>) {
    && |actions| == |order|
    && forall k | 0 <= k < |order| :: order[k] < |entries| && actions[k] == RemovalOf(entries[order[k]], kind)
  }

  lemma LogRemoval(entries: seq<Entry>, order: seq<nat>, kind: ActionKind, actions: seq<EntryAction>, i: nat)
    requires LogsRemovals(entries, order, kind, actions) && i < |entries|
    ensures LogsRemovals(entries, order + [i], kind, actions + [RemovalOf(entries[i], kind)])
  {
  }

  lemma NoIndices(w: Work)
    ensures IndicesAt(w, {}) == {} && DropAll(w, {}) == w
  {
    assert w.dropped + {} == w.dropped;
  }

  lemma IndicesAtAppend(w: Work, positions: set<nat>, i: nat)
    requires i < |w.entries|
    ensures IndicesAt(w, positions + {i}) == IndicesAt(w, positions) + {w.entries[i].sourceIndex}
  {
  }

  method LiveEntries(entries: seq<Entry>, dropped: set<int>) returns (live: seq<Entry>)
    ensures live == Without(entries, dropped)
  {
    live := [];
    for i := 0 to |entries|
      invariant live == Without(entries[..i], dropped)
    {
      if entries[i].sourceIndex !in dropped {
        live := live + [entries[i]];
      }
      assert entries[..i + 1] == entries[..i] + [entries[i]];
      WithoutConcat(entries[..i], [entries[i]], dropped);
    }
    assert entries[..|entries|] == entries;
  }

  function SummaryRef(key: string, version: nat): string {
    "blackboard key:" + key + " version:" + Itoa(version)
  }

  /** The ref names the blackboard key and the version written. */
  lemma SummaryRefInjective(a: string, m: nat, b: string, n: nat)
    requires SummaryRef(a, m) == SummaryRef(b, n)
    ensures a == b && m == n
  {
    var s, t := "blackboard key:" + a + " version:", "blackboard key:" + b + " version:";
    DecimalDigits(m);
    DecimalDigits(n);
    SuffixUnique(s, Decimal(m), t, Decimal(n));
    ItoaInjective(m, n);
    assert a == s[15..|s| - 9] && b == t[15..|t| - 9];
  }

  /** A numeral at the end of a text that has a colon before it can be told from the text. */
  lemma SuffixUnique(s: string, d: string, t: string, e: string)
    requires s != [] && t != [] && s[|s| - 1] == t[|t| - 1] == ':' && s + d == t + e
    requires (forall c | c in d :: IsDigit(c)) && forall c | c in e :: IsDigit(c)
    ensures s == t && d == e
  {
    ColonBefore(s, d, t, e);
    ColonBefore(t, e, s, d);
    assert s == (s + d)[..|s|] && t == (t + e)[..|t|] && d == (s + d)[|s|..] && e == (t + e)[|t|..];
  }

  lemma ColonBefore(s: string, d: string, t: string, e: string)
    requires t != [] && t[|t| - 1] == ':' && s + d == t + e && forall c | c in d :: IsDigit(c)
    ensures |t| <= |s|
  {
    var text := s + d;
    forall p | |s| <= p < |text| ensures IsDigit(text[p]) {
      assert text[p] == d[p - |s|] && d[p - |s|] in d;
    }
    assert text[|t| - 1] == (t + e)[|t| - 1] == ':';
  }

  function EntriesAt(entries: seq<Entry>, positions: seq<nat>): seq<Entry> {
    if positions == [] then []
    else (if positions[0] < |entries| then [entries[positions[0]]] else []) + EntriesAt(entries, positions[1..])
  }

  // ---------- the truncation log ----------

  function TruncationOf(before: Entry, after: Entry): EntryAction {
    EntryAction(before.sourceIndex, before.name, EntryTruncated, before.tokens, after.tokens)
  }

  /** One log record per changed source, from its first count to its last. */
  ghost predicate LogsChanges(before: Work, after: Work, log: map<int, EntryAction>) {
    && |before.entries| == |after.entries|
    && (forall i: nat | i < |before.entries| && after.entries[i] != before.entries[i] ::
          && before.entries[i].sourceIndex in log
          && log[before.entries[i].sourceIndex] == TruncationOf(before.entries[i], after.entries[i]))
    && (forall x | x in log ::
          exists i: nat ::
            i < |before.entries| && before.entries[i].sourceIndex == x && after.entries[i] != before.entries[i])
  }

  lemma LogsNothing(w: Work)
    ensures LogsChanges(w, w, map[])
  {
  }

  /** The record after one more shrink: an existing one only moves its final count. */
  function Record(log: map<int, EntryAction>, e: Entry, tokens: nat): EntryAction {
    if e.sourceIndex in log then log[e.sourceIndex].(after := tokens)
    else EntryAction(e.sourceIndex, e.name, EntryTruncated, e.tokens, tokens)
  }

  lemma LogStep(before: Work, w: Work, log: map<int, EntryAction>, i: nat, content: string, tokens: nat)
    requires LogsChanges(before, w, log) && DistinctSources(before.entries)
    requires i < |w.entries| && tokens < w.entries[i].tokens
    requires Evolved(before.entries[i], w.entries[i], w.truncated) && w.entries[i].tokens <= before.entries[i].tokens
    ensures LogsChanges(before, ShrinkAt(w, i, content, tokens),
                        log[w.entries[i].sourceIndex := Record(log, w.entries[i], tokens)])
  {
    var after := ShrinkAt(w, i, content, tokens);
    var x := w.entries[i].sourceIndex;
    LogHas(before, w, log, i);
    forall y | y in log && y != x
      ensures exists k: nat ::
                k < |before.entries| && before.entries[k].sourceIndex == y && after.entries[k] != before.entries[k]
    {
      var k: nat :| k < |before.entries| && before.entries[k].sourceIndex == y && w.entries[k] != before.entries[k];
      assert k != i;
    }
    assert after.entries[i] != before.entries[i];
  }

  lemma LogHas(before: Work, w: Work, log: map<int, EntryAction>, i: nat)
    requires LogsChanges(before, w, log) && DistinctSources(before.entries) && i < |w.entries|
    ensures before.entries[i].sourceIndex in log <==> w.entries[i] != before.entries[i]
  {
    if before.entries[i].sourceIndex in log {
      var k: nat :|
        && k < |before.entries| && before.entries[k].sourceIndex == before.entries[i].sourceIndex
        && w.entries[k] != before.entries[k];
      assert k == i;
    }
  }

  /** One round of oldest-first truncation, with its log. */
  lemma ShrinkRound(before: Work, w: Work, log: map<int, EntryAction>, i: nat, content: string, tokens: nat, floor: nat)
    requires TruncatesOldest(before, w, floor) && LogsChanges(before, w, log) && DistinctSources(before.entries)
    requires Droppable(w, i) && w.entries[i].tokens > floor && tokens < w.entries[i].tokens
    requires IsCut(w.entries[i].content, content)
    requires forall j: nat | j < i && Droppable(w, j) :: w.entries[j].tokens <= floor
    ensures TruncatesOldest(before, ShrinkAt(w, i, content, tokens), floor)
    ensures LogsChanges(before, ShrinkAt(w, i, content, tokens),
                        log[w.entries[i].sourceIndex := Record(log, w.entries[i], tokens)])
  {
    TruncateStep(before, w, i, content, tokens, floor);
    ShrinkEvolves(before, w, floor);
    assert w.entries[i] != before.entries[i] ==> Shrunk(before, w, i, floor);
    LogStep(before, w, log, i, content, tokens);
  }

  /** One action per changed source, from its first count to its last, and no other action. */
  ghost predicate LogsTruncations(before: Work, after: Work, actions: seq<EntryAction>) {
    && |before.entries| == |after.entries|
    && (forall i: nat | i < |before.entries| && after.entries[i] != before.entries[i] ::
          TruncationOf(before.entries[i], after.entries[i]) in actions)
    && (forall a | a in actions :: RecordsChange(before, after, a))
    && (forall j, k | 0 <= j < k < |actions| :: actions[j].sourceIndex != actions[k].sourceIndex)
  }

  ghost predicate RecordsChange(before: Work, after: Work, a: EntryAction)
    requires |before.entries| == |after.entries|
  {
    exists i: nat :: i < |before.entries| && after.entries[i] != before.entries[i]
                     && a == TruncationOf(before.entries[i], after.entries[i])
  }

  lemma OrderLogged(order: seq<int>, log: map<int, EntryAction>)
    requires Elements(order) == log.Keys
    ensures forall k | 0 <= k < |order| :: order[k] in log
  {
    assert forall k | 0 <= k < |order| :: order[k] in Elements(order);
  }

  method ListActions(order: seq<int>, log: map<int, EntryAction>) returns (actions: seq<EntryAction>)
    requires forall k | 0 <= k < |order| :: order[k] in log
    ensures |actions| == |order| && forall k | 0 <= k < |order| :: actions[k] == log[order[k]]
  {
    actions := [];
    for k := 0 to |order|
      invariant |actions| == k && forall j | 0 <= j < k :: actions[j] == log[order[j]]
    {
      actions := actions + [log[order[k]]];
    }
  }

  lemma LogListed(before: Work, after: Work, order: seq<int>, log: map<int, EntryAction>, actions: seq<EntryAction>)
    requires LogsChanges(before, after, log) && Distinct(order) && Elements(order) == log.Keys
    requires |actions| == |order| && forall k | 0 <= k < |order| :: order[k] in log && actions[k] == log[order[k]]
    ensures LogsTruncations(before, after, actions)
  {
    forall i: nat | i < |before.entries| && after.entries[i] != before.entries[i]
      ensures TruncationOf(before.entries[i], after.entries[i]) in actions
    {
      var x := before.entries[i].sourceIndex;
      assert x in log && x in Elements(order);
      var k :| 0 <= k < |order| && order[k] == x;
      assert actions[k] == log[x];
    }
    forall k | 0 <= k < |actions|
      ensures actions[k].sourceIndex == order[k] && RecordsChange(before, after, actions[k])
    {
      var x := order[k];
      var i: nat :| i < |before.entries| && before.entries[i].sourceIndex == x && after.entries[i] != before.entries[i];
      assert log[x] == TruncationOf(before.entries[i], after.entries[i]);
    }
  }

  // ---------- when a summary is worth writing ----------

  /** The answer is written to the blackboard and smaller than the span it replaces. */
  ghost predicate Worthwhile(w: Work, span: seq<nat>, answer: Reply, count: string -> nat) {
    answer.Answered? && answer.put.PutAt? && count(answer.text) < SpanTokens(w, span)
  }

  /** What one summarize stage works with. */
  datatype Summarizing = Summarizing(key: string, maxTokens: nat, budget: int, configured: bool)

  /** The tokens the span has to free, or none when the request cannot be measured. */
  ghost function Wanted(w: Work, s: Summarizing, measure: Measure): Option<int> {
    var total := measure(Render(Live(w)));
    if total.None? then None else Some(total.value - s.budget + s.maxTokens)
  }

  /** The oldest span, and a worthwhile summary of it. */
  ghost predicate Pays(w: Work, s: Summarizing, reply: string -> Reply, count: string -> nat, measure: Measure,
                       span: seq<nat>)
  {
    && s.configured && Wanted(w, s, measure).Some? && IsOldestSpan(w, span, Wanted(w, s, measure).value)
    && Worthwhile(w, span, reply(Render(EntriesAt(w.entries, span))), count)
  }

  /** The span is folded into the answered summary, and logged entry by entry. */
  ghost predicate FoldsSpan(w: Work, s: Summarizing, reply: string -> Reply, count: string -> nat, span: seq<nat>,
                            after: Work, actions: seq<EntryAction>)
  {
    var answer := reply(Render(EntriesAt(w.entries, span)));
    && span != [] && span[0] < |w.entries| && answer.Answered? && answer.put.PutAt?
    && LogsRemovals(w.entries, span, EntrySummarized, actions)
    && after == Folded(w, span, s.key, SummaryRef(s.key, answer.put.version), answer.text, count(answer.text))
  }

  /** A summarize stage folds the oldest span exactly when a worthwhile summary of it was written. */
  ghost predicate Summarizes(w: Work, s: Summarizing, reply: string -> Reply, count: string -> nat, measure: Measure,
                             after: Work, actions: seq<EntryAction>)
  {
    if exists span :: Pays(w, s, reply, count, measure, span)
    then exists span :: Pays(w, s, reply, count, measure, span) && FoldsSpan(w, s, reply, count, span, after, actions)
    else after == w && actions == []
  }

  lemma NothingPays(w: Work, s: Summarizing, reply: string -> Reply, count: string -> nat, measure: Measure)
    requires !s.configured || Spent(w)
    ensures Summarizes(w, s, reply, count, measure, w, [])
  {
    forall span ensures !Pays(w, s, reply, count, measure, span) {
      if span != [] {
        assert span[0] in span;
      }
    }
  }

  lemma SpanFails(w: Work, s: Summarizing, reply: string -> Reply, count: string -> nat, measure: Measure,
                  span: seq<nat>)
    requires Wanted(w, s, measure).Some? && IsOldestSpan(w, span, Wanted(w, s, measure).value)
    requires !Worthwhile(w, span, reply(Render(EntriesAt(w.entries, span))), count)
    ensures Summarizes(w, s, reply, count, measure, w, [])
  {
    forall other ensures !Pays(w, s, reply, count, measure, other) {
      if IsOldestSpan(w, other, Wanted(w, s, measure).value) {
        SpanUnique(w, span, other, Wanted(w, s, measure).value);
      }
    }
  }

  class CompactState {
    var entries: seq<Entry>
    var dropped: set<int>
    var truncated: set<int>
    var summarizedInto: map<int, string>
    var nextSynthetic: int

    ghost function View(): Work
      reads this
    {
      Work(entries, dropped, truncated, summarizedInto, nextSynthetic)
    }

    constructor (assembled: seq<Entry>)
      ensures View() == Work(assembled, {}, {}, map[], -1)
    {
      entries := assembled;
      dropped := {};
      truncated := {};
      summarizedInto := map[];
      nextSynthetic := -1;
    }

    /** Counts the framed request for what is live. */
    method MeasureLive(measure: Measure) returns (m: Option<int>)
      ensures m == measure(Render(Live(View())))
    {
      var live := LiveEntries(entries, dropped);
      m := measure(Render(live));
    }

    /** The droppable positions in message order. */
    method ListDroppable() returns (live: seq<nat>)
      ensures ListsDroppable(View(), live, |entries|)
    {
      live := [];
      for i := 0 to |entries|
        invariant ListsDroppable(View(), live, i)
      {
        if !entries[i].pinned && entries[i].sourceIndex !in dropped {
          assert forall k | 0 <= k < |live| :: live[k] in live;
          live := live + [i];
        }
      }
    }

    /** Keeps the last n droppable entries and drops the earlier ones, once, in message order. */
    method SlideWindow(n: nat) returns (actions: seq<EntryAction>, ghost order: seq<nat>)
      modifies this`dropped
      ensures View() == DropAll(old(View()), Elements(order))
      ensures Ascending(order) && Elements(order) == OutsideWindow(old(View()), n)
      ensures LogsRemovals(entries, order, EntryDropped, actions)
    {
      hide LogsRemovals, DroppableFrom, OutsideWindow, IndicesAt;
      var live := ListDroppable();
      ghost var w := View();
      actions, order := [], [];
      NoneOutside(w);
      if |live| <= n {
        WindowWide(w, live, n);
        return;
      }
      var gone := live[..|live| - n];
      for k := 0 to |gone|
        invariant order == gone[..k]
        invariant View() == DropAll(w, Elements(order))
        invariant LogsRemovals(entries, order, EntryDropped, actions)
      {
        var i := gone[k];
        assert i in live;
        assert Elements(gone[..k + 1]) == Elements(gone[..k]) + {i};
        IndicesAtAppend(w, Elements(gone[..k]), i);
        dropped := dropped + {entries[i].sourceIndex};
        LogRemoval(entries, order, EntryDropped, actions, i);
        actions := actions + [EntryAction(entries[i].sourceIndex, entries[i].name, EntryDropped, entries[i].tokens, 0)];
        order := order + [i];
      }
      assert gone[..|gone|] == gone;
      WindowExact(w, live, n);
    }

    static lemma NoneOutside(w: Work)
      ensures DropAll(w, Elements([])) == w && Elements<nat>([]) == {} && LogsRemovals(w.entries, [], EntryDropped, [])
    {
      NoIndices(w);
    }

    /** The next entry to evict: lowest priority, the later position on a tie. */
    method SelectVictim() returns (v: Option<nat>)
      ensures v.None? ==> Spent(View())
      ensures v.Some? ==> Droppable(View(), v.value)
                          && forall j: nat | Droppable(View(), j) && j != v.value :: Precedes(View(), v.value, j)
    {
      v := None;
      for i := 0 to |entries|
        invariant v.None? ==> forall j: nat | j < i :: !Droppable(View(), j)
        invariant v.Some? ==> v.value < i && Droppable(View(), v.value)
                              && forall j: nat | j < i && Droppable(View(), j) && j != v.value ::
                                   Precedes(View(), v.value, j)
      {
        var e := entries[i];
        if !e.pinned && e.sourceIndex !in dropped {
          if v.None? {
            v := Some(i);
          } else {
            var held := entries[v.value];
            if e.priority < held.priority || (e.priority == held.priority && i > v.value) {
              v := Some(i);
            }
          }
        }
      }
    }

    /** Evicts by priority until the request fits: exactly the shortest initial segment of the eviction order. */
    method EvictLowest(budget: int, measure: Measure)
      returns (ok: bool, actions: seq<EntryAction>, ghost order: seq<nat>)
      requires DistinctSources(entries)
      modifies this`dropped
      ensures (forall t :: measure(t).Some?) ==> ok
      ensures ok ==> View() == DropAll(old(View()), Elements(order))
      ensures ok ==> IsShortestFit(old(View()), Elements(order), budget, measure) && InEvictionOrder(old(View()), order)
      ensures ok ==> LogsRemovals(entries, order, EntryDropped, actions)
    {
      hide LogsRemovals, IndicesAt, Render, Without, IsSegment, TooShort, IsShortestFit, Spent, InEvictionOrder;
      ghost var w := View();
      actions, order := [], [];
      NoneOutside(w);
      EvictNone(w, budget, measure);
      while true
        invariant View() == DropAll(w, Elements(order))
        invariant IsSegment(w, Elements(order)) && TooShort(w, Elements(order), budget, measure)
        invariant InEvictionOrder(w, order) && LogsRemovals(entries, order, EntryDropped, actions)
        decreases Below(|entries|) - Elements(order)
      {
        var cur := MeasureLive(measure);
        if cur.None? {
          return false, [], order;
        }
        if cur.value <= budget {
          assert FitsBudget(View(), budget, measure);
          EvictEnd(w, Elements(order), budget, measure);
          return true, actions, order;
        }
        var victim := SelectVictim();
        if victim.None? {
          EvictEnd(w, Elements(order), budget, measure);
          return true, actions, order;
        }
        var v := victim.value;
        EvictOne(w, order, v, budget, measure);
        IndicesAtAppend(w, Elements(order), v);
        dropped := dropped + {entries[v].sourceIndex};
        LogRemoval(entries, order, EntryDropped, actions, v);
        actions := actions + [EntryAction(entries[v].sourceIndex, entries[v].name, EntryDropped, entries[v].tokens, 0)];
        order := order + [v];
      }
    }

    static lemma EvictNone(w: Work, budget: int, measure: Measure)
      ensures IsSegment(w, {}) && TooShort(w, {}, budget, measure) && InEvictionOrder(w, [])
    {
    }

    static lemma EvictOne(w: Work, order: seq<nat>, v: nat, budget: int, measure: Measure)
      requires DistinctSources(w.entries) && IsSegment(w, Elements(order)) && InEvictionOrder(w, order)
      requires TooShort(w, Elements(order), budget, measure)
      requires Droppable(DropAll(w, Elements(order)), v) && !FitsBudget(DropAll(w, Elements(order)), budget, measure)
      requires forall j: nat | Droppable(DropAll(w, Elements(order)), j) && j != v ::
                 Precedes(DropAll(w, Elements(order)), v, j)
      ensures v < |w.entries| && v !in Elements(order) && Elements(order + [v]) == Elements(order) + {v}
      ensures IsSegment(w, Elements(order + [v])) && TooShort(w, Elements(order + [v]), budget, measure)
      ensures InEvictionOrder(w, order + [v])
    {
      var s := Elements(order);
      forall i: nat ensures Droppable(DropAll(w, s), i) <==> Droppable(w, i) && i !in s {
        DroppableAfter(w, s, i);
      }
      SegmentGrows(w, s, v);
      StillTooShort(w, s, v, budget, measure);
      assert Elements(order + [v]) == s + {v};
      SegmentOrders(w, order, v);
    }

    static lemma SegmentOrders(w: Work, order: seq<nat>, v: nat)
      requires IsSegment(w, Elements(order)) && InEvictionOrder(w, order) && Droppable(w, v) && v !in Elements(order)
      ensures InEvictionOrder(w, order + [v])
    {
      forall i | 0 <= i < |order| ensures order[i] < |w.entries| && Precedes(w, order[i], v) {
        assert order[i] in Elements(order);
      }
    }

    static lemma EvictEnd(w: Work, s: set<nat>, budget: int, measure: Measure)
      requires DistinctSources(w.entries) && IsSegment(w, s) && TooShort(w, s, budget, measure)
      requires FitsBudget(DropAll(w, s), budget, measure) || Spent(DropAll(w, s))
      ensures IsShortestFit(w, s, budget, measure)
    {
      forall i: nat ensures Droppable(DropAll(w, s), i) <==> Droppable(w, i) && i !in s {
        DroppableAfter(w, s, i);
      }
    }

    /** The oldest droppable entry above the floor. */
    method SelectOldest(floor: nat) returns (v: Option<nat>)
      ensures v.None? ==> AtFloor(View(), floor)
      ensures v.Some? ==> Droppable(View(), v.value) && entries[v.value].tokens > floor
                          && forall j: nat | j < v.value && Droppable(View(), j) :: entries[j].tokens <= floor
    {
      for i := 0 to |entries|
        invariant forall j: nat | j < i && Droppable(View(), j) :: entries[j].tokens <= floor
      {
        var e := entries[i];
        if !e.pinned && e.sourceIndex !in dropped && e.tokens > floor {
          return Some(i);
        }
      }
      return None;
    }

    /** Truncates oldest-first until the request fits or every droppable entry is at its floor; one action per
        source. */
    method ShrinkOldest(budget: int, floor: nat, count: string -> nat, measure: Measure)
      returns (ok: bool, actions: seq<EntryAction>, ghost rounds: seq<Work>)
      requires IsCounter(count) && DistinctSources(entries) && forall e | e in entries :: e.tokens == count(e.content)
      modifies this`entries, this`truncated
      ensures (forall t :: measure(t).Some?) ==> ok
      ensures ok ==> TruncatesOldest(old(View()), View(), floor) && LogsTruncations(old(View()), View(), actions)
      ensures ok ==> forall e | e in entries :: e.tokens == count(e.content)
      ensures ok ==> FitsBudget(View(), budget, measure) || AtFloor(View(), floor)
      ensures ok ==> AreRounds(budget, floor, count, measure, rounds)
      ensures ok ==> rounds[0] == old(View()) && rounds[|rounds| - 1] == View()
    {
      hide TruncatesOldest, LogsChanges, LogsTruncations, DistinctSources, FitsBudget, AtFloor, IsRound;
      var order, log;
      ghost var w := View();
      ok, order, log, rounds := ShrinkUntilFits(budget, floor, count, measure);
      if !ok {
        return false, [], rounds;
      }
      OrderLogged(order, log);
      actions := ListActions(order, log);
      LogListed(w, View(), order, log, actions);
    }

    /** Cuts one entry above the floor by the overrun. The count never exceeds the target, so the entry always shrinks:
        the source's no-progress exit is dead. */
    method CutEntry(i: nat, over: int, floor: nat, count: string -> nat) returns (tokens: nat)
      requires IsCounter(count) && i < |entries| && entries[i].tokens > floor && over > 0
      requires forall e | e in entries :: e.tokens == count(e.content)
      modifies this`entries, this`truncated
      ensures CutsAt(old(View()), i, over, floor, count, View())
      ensures i < |entries| && tokens == entries[i].tokens < old(entries[i].tokens)
      ensures View() == ShrinkAt(old(View()), i, entries[i].content, tokens)
      ensures IsCut(old(entries[i].content), entries[i].content)
      ensures forall e | e in entries :: e.tokens == count(e.content)
      ensures TokenSum(entries) < old(TokenSum(entries))
    {
      hide CutTo, IsCut, MiddleFits, TokenSum, Middle;
      var e := entries[i];
      assert e in entries;
      var target := e.tokens - over;
      if target < floor {
        target := floor;
      }
      if target >= e.tokens {
        target := e.tokens - 1;
      }
      var content;
      content, tokens := TruncateMiddle(e.content, target, count);
      TokenSumUpdate(entries, i, e.(content := content, tokens := tokens));
      entries := entries[i := e.(content := content, tokens := tokens)];
      truncated := truncated + {e.sourceIndex};
    }

    /** The truncation loop, with its log keyed by source. */
    method ShrinkUntilFits(budget: int, floor: nat, count: string -> nat, measure: Measure)
      returns (ok: bool, order: seq<int>, log: map<int, EntryAction>, ghost rounds: seq<Work>)
      requires IsCounter(count) && DistinctSources(entries) && forall e | e in entries :: e.tokens == count(e.content)
      modifies this`entries, this`truncated
      ensures (forall t :: measure(t).Some?) ==> ok
      ensures ok ==> TruncatesOldest(old(View()), View(), floor)
      ensures ok ==> LogsChanges(old(View()), View(), log) && Distinct(order) && Elements(order) == log.Keys
      ensures ok ==> forall e | e in entries :: e.tokens == count(e.content)
      ensures ok ==> FitsBudget(View(), budget, measure) || AtFloor(View(), floor)
      ensures ok ==> AreRounds(budget, floor, count, measure, rounds)
      ensures ok ==> rounds[0] == old(View()) && rounds[|rounds| - 1] == View()
    {
      hide TruncatesOldest, LogsChanges, DistinctSources, Live, Render, IsCut, MiddleFits, Record, AtFloor, CutsAt,
           IsRound, AreRounds, TokenSum;
      ghost var w := View();
      order, log, rounds := [], map[], [w];
      NoRounds(budget, floor, count, measure, w);
      TruncatesNothing(w, floor);
      LogsNothing(w);
      while true
        invariant TruncatesOldest(w, View(), floor) && LogsChanges(w, View(), log)
        invariant Distinct(order) && Elements(order) == log.Keys
        invariant forall e | e in entries :: e.tokens == count(e.content)
        invariant rounds != [] && rounds[0] == w && rounds[|rounds| - 1] == View()
        invariant AreRounds(budget, floor, count, measure, rounds)
        decreases TokenSum(entries)
      {
        var cur := MeasureLive(measure);
        if cur.None? {
          return false, order, log, rounds;
        }
        if cur.value <= budget {
          return true, order, log, rounds;
        }
        var victim := SelectOldest(floor);
        if victim.None? {
          return true, order, log, rounds;
        }
        var i := victim.value;
        var e := entries[i];
        assert e in entries;
        ghost var was := View();
        var tokens := CutEntry(i, cur.value - budget, floor, count);
        ShrinkRound(w, was, log, i, entries[i].content, tokens, floor);
        NextRound(budget, floor, count, measure, rounds, i, View());
        rounds := rounds + [View()];
        if e.sourceIndex !in log {
          assert e.sourceIndex !in Elements(order);
          order := order + [e.sourceIndex];
        }
        log := log[e.sourceIndex := Record(log, e, tokens)];
      }
    }

    /** The oldest droppable entries, up to the wanted number of tokens. */
    method GatherSpan(want: int) returns (span: seq<nat>, tokens: nat)
      ensures tokens == SpanTokens(View(), span)
      ensures if span == [] then Spent(View()) else IsOldestSpan(View(), span, want)
    {
      hide IsOldestSpan;
      span, tokens := [], 0;
      for i := 0 to |entries|
        invariant ListsDroppable(View(), span, i) && tokens == SpanTokens(View(), span)
        invariant span != [] ==> tokens < want
        invariant ShortOf(View(), span, want)
      {
        if !entries[i].pinned && entries[i].sourceIndex !in dropped {
          SpanGrows(View(), span, i);
          span := span + [i];
          tokens := tokens + entries[i].tokens;
          if tokens >= want {
            SpanIsOldest(View(), span, i + 1, want);
            return;
          }
        }
      }
      if span != [] {
        SpanIsOldest(View(), span, |entries|, want);
      }
    }

    /** Replaces the oldest span by a summary when that pays, and else leaves everything as it was. */
    method Summarize(s: Summarizing, reply: string -> Reply, count: string -> nat, measure: Measure)
      returns (ok: bool, actions: seq<EntryAction>)
      modifies this
      ensures Calm(measure, reply) ==> ok
      ensures !ok ==> View() == old(View())
      ensures ok ==> Summarizes(old(View()), s, reply, count, measure, View(), actions)
    {
      hide Render, Without, EntriesAt, Folded, SpanTokens, Itoa, IsOldestSpan, Summarizes, LogsRemovals, Spent;
      ghost var w := View();
      if !s.configured {
        NothingPays(w, s, reply, count, measure);
        return true, [];
      }
      var cur := MeasureLive(measure);
      if cur.None? {
        return false, [];
      }
      var span, spanTokens := GatherSpan(cur.value - s.budget + s.maxTokens);
      if span == [] {
        NothingPays(w, s, reply, count, measure);
        return true, [];
      }
      SpanPositions(w, span, cur.value - s.budget + s.maxTokens);
      var answer := reply(Render(EntriesAt(entries, span)));
      if answer.SummarizerCancelled? {
        return false, [];
      }
      if answer.SummarizerFailed? || count(answer.text) >= spanTokens || answer.put.PutFailed? {
        SpanFails(w, s, reply, count, measure, span);
        return true, [];
      }
      if answer.put.PutCancelled? {
        return false, [];
      }
      actions := Fold(span, s.key, SummaryRef(s.key, answer.put.version), answer.text, count(answer.text));
      SpanPays(w, s, reply, count, measure, span, View(), actions);
      return true, actions;
    }

    static lemma SpanPositions(w: Work, span: seq<nat>, want: int)
      requires IsOldestSpan(w, span, want)
      ensures span != [] && (forall i | i in span :: i < |w.entries|) && span[0] < |w.entries|
    {
      assert span[0] in span;
    }

    static lemma SpanPays(w: Work, s: Summarizing, reply: string -> Reply, count: string -> nat, measure: Measure,
                          span: seq<nat>, after: Work, actions: seq<EntryAction>)
      requires Pays(w, s, reply, count, measure, span) && FoldsSpan(w, s, reply, count, span, after, actions)
      ensures Summarizes(w, s, reply, count, measure, after, actions)
    {
    }

    method Fold(span: seq<nat>, key: string, ref: string, text: string, tokens: nat) returns (actions: seq<EntryAction>)
      requires span != [] && forall i | i in span :: i < |entries|
      modifies this
      ensures span[0] < |old(entries)| && LogsRemovals(old(entries), span, EntrySummarized, actions)
      ensures View() == Folded(old(View()), span, key, ref, text, tokens)
    {
      hide Elements, IndicesAt, FoldedInto;
      ghost var w := View();
      actions := [];
      assert span[0] in span;
      FoldNone(w, w.summarizedInto, ref);
      for k := 0 to |span|
        invariant entries == w.entries && truncated == w.truncated && nextSynthetic == w.nextSynthetic
        invariant dropped == w.dropped + IndicesAt(w, Elements(span[..k]))
        invariant summarizedInto == w.summarizedInto + FoldedInto(IndicesAt(w, Elements(span[..k])), ref)
        invariant |actions| == k
        invariant forall j | 0 <= j < k ::
                    span[j] < |w.entries| && actions[j] == RemovalOf(w.entries[span[j]], EntrySummarized)
      {
        assert span[k] in span;
        FoldOne(w, span, k, w.summarizedInto, ref);
        var e := entries[span[k]];
        dropped := dropped + {e.sourceIndex};
        summarizedInto := summarizedInto[e.sourceIndex := ref];
        actions := actions + [EntryAction(e.sourceIndex, e.name, EntrySummarized, e.tokens, 0)];
      }
      assert span[..|span|] == span;
      entries := entries[..span[0]] + [SummaryEntry(nextSynthetic, key, ref, text, tokens)] + entries[span[0]..];
      nextSynthetic := nextSynthetic - 1;
    }
  }
}
