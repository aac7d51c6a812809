/** The log of a compaction stage accounts for every token it took away, and no stage makes the prompt grow
    (internal/contextmgr/compact.go). */
module Accounting {
  import opened Compaction
  import opened Contexts
  import opened Counting
  import Definitions
  import opened Effects
  import opened Pipeline
  import opened Strategies
  import opened Summaries

  /** The tokens the actions took away. */
  ghost function ActionSum(actions: seq<EntryAction>): int {
    if actions == [] then 0
    else ActionSum(actions[..|actions| - 1]) + actions[|actions| - 1].before - actions[|actions| - 1].after
  }

  /** The tokens of what is live. */
  ghost function LiveTokens(w: Work): nat {
    TokenSum(Live(w))
  }

  // ---------- removals ----------

  lemma {:induction false} WithoutOther(entries: seq<Entry>, dropped: set<int>, x: int)
    requires forall e | e in entries :: e.sourceIndex != x
    ensures Without(entries, dropped + {x}) == Without(entries, dropped)
  {
    if entries != [] {
      assert entries[0] in entries;
      WithoutOther(entries[1..], dropped, x);
    }
  }

  lemma {:induction false} WithoutSplit(entries: seq<Entry>, i: nat, dropped: set<int>)
    requires i < |entries|
    ensures TokenSum(Without(entries, dropped))
            == TokenSum(Without(entries[..i], dropped))
               + (if entries[i].sourceIndex in dropped then 0 else entries[i].tokens)
               + TokenSum(Without(entries[i + 1..], dropped))
  {
    var a, e, b := entries[..i], entries[i], entries[i + 1..];
    assert entries == a + ([e] + b);
    WithoutConcat(a, [e] + b, dropped);
    WithoutConcat([e], b, dropped);
    TokenSumConcat(Without(a, dropped), Without([e] + b, dropped));
    TokenSumConcat(Without([e], dropped), Without(b, dropped));
    assert [e][1..] == [];
    assert Without([e], dropped) == if e.sourceIndex in dropped then [] else [e];
  }

  /** Dropping one live entry takes away its tokens. */
  lemma DropOneBalances(w: Work, i: nat)
    requires DistinctSources(w.entries) && Droppable(w, i)
    ensures LiveTokens(DropAll(w, {i})) == LiveTokens(w) - w.entries[i].tokens
  {
    var x := w.entries[i].sourceIndex;
    assert IndicesAt(w, {i}) == {x};
    WithoutSplit(w.entries, i, w.dropped);
    WithoutSplit(w.entries, i, w.dropped + {x});
    WithoutOther(w.entries[..i], w.dropped, x);
    WithoutOther(w.entries[i + 1..], w.dropped, x);
  }

  lemma DropOneMore(w: Work, order: seq<nat>)
    requires order != []
    ensures DropAll(w, Elements(order))
            == DropAll(DropAll(w, Elements(order[..|order| - 1])), {order[|order| - 1]})
  {
    var front, last := order[..|order| - 1], order[|order| - 1];
    assert order == front + [last];
    assert Elements(order) == Elements(front) + {last};
    assert IndicesAt(w, Elements(order)) == IndicesAt(w, Elements(front)) + IndicesAt(w, {last});
  }

  lemma {:induction false} RemovalBalances(w: Work, order: seq<nat>, kind: ActionKind, actions: seq<EntryAction>)
    requires DistinctSources(w.entries) && Distinct(order) && (forall i | i in order :: Droppable(w, i))
    requires LogsRemovals(w.entries, order, kind, actions)
    ensures LiveTokens(DropAll(w, Elements(order))) + ActionSum(actions) == LiveTokens(w)
  {
    hide LiveTokens, DistinctSources;
    if order == [] {
      assert Elements(order) == {};
      NoIndices(w);
    } else {
      var front, last := order[..|order| - 1], order[|order| - 1];
      RemovalBalances(w, front, kind, actions[..|order| - 1]);
      DropOneMore(w, order);
      DroppableAfter(w, Elements(front), last);
      assert last in order;
      DropOneBalances(DropAll(w, Elements(front)), last);
    }
  }

  // ---------- truncation ----------

  /** Entry by entry the same source, changed only where live. */
  ghost predicate ChangesLive(before: Work, after: Work) {
    && |before.entries| == |after.entries| && after.dropped == before.dropped
    && forall i | 0 <= i < |before.entries| ::
         && after.entries[i].sourceIndex == before.entries[i].sourceIndex
         && (after.entries[i] != before.entries[i] ==> before.entries[i].sourceIndex !in before.dropped)
  }

  lemma UpdateBalances(w: Work, i: nat, e: Entry)
    requires i < |w.entries| && e.sourceIndex == w.entries[i].sourceIndex && e.sourceIndex !in w.dropped
    ensures LiveTokens(w.(entries := w.entries[i := e])) == LiveTokens(w) - w.entries[i].tokens + e.tokens
  {
    var now := w.entries[i := e];
    WithoutSplit(w.entries, i, w.dropped);
    WithoutSplit(now, i, w.dropped);
    assert now[..i] == w.entries[..i] && now[i + 1..] == w.entries[i + 1..];
  }

  lemma RestLogged(before: Work, after: Work, actions: seq<EntryAction>, i: nat)
    requires ChangesLive(before, after) && DistinctSources(before.entries) && LogsTruncations(before, after, actions)
    requires actions != [] && i < |before.entries| && after.entries[i] != before.entries[i]
    requires actions[|actions| - 1] == TruncationOf(before.entries[i], after.entries[i])
    ensures var mid := before.(entries := before.entries[i := after.entries[i]]);
            && ChangesLive(mid, after) && DistinctSources(mid.entries)
            && LogsTruncations(mid, after, actions[..|actions| - 1])
  {
    var mid := before.(entries := before.entries[i := after.entries[i]]);
    var rest, a := actions[..|actions| - 1], actions[|actions| - 1];
    forall k: nat | k < |mid.entries| && after.entries[k] != mid.entries[k]
      ensures TruncationOf(mid.entries[k], after.entries[k]) in rest
    {
      var t := TruncationOf(before.entries[k], after.entries[k]);
      assert t in actions && t.sourceIndex != a.sourceIndex;
    }
    forall b | b in rest ensures RecordsChange(mid, after, b) {
      assert b in actions;
      var k: nat :| k < |before.entries| && after.entries[k] != before.entries[k]
                    && b == TruncationOf(before.entries[k], after.entries[k]);
      var j :| 0 <= j < |rest| && rest[j] == b;
      assert actions[j].sourceIndex != a.sourceIndex;
      assert k != i;
      assert mid.entries[k] == before.entries[k];
    }
  }

  lemma {:induction false} TruncationBalances(before: Work, after: Work, actions: seq<EntryAction>)
    requires ChangesLive(before, after) && DistinctSources(before.entries) && LogsTruncations(before, after, actions)
    ensures LiveTokens(after) + ActionSum(actions) == LiveTokens(before)
    decreases |actions|
  {
    hide DistinctSources;
    if actions == [] {
      assert before.entries == after.entries;
    } else {
      var a := actions[|actions| - 1];
      assert a in actions;
      assert RecordsChange(before, after, a);
      var i: nat :| i < |before.entries| && after.entries[i] != before.entries[i]
                    && a == TruncationOf(before.entries[i], after.entries[i]);
      RestLogged(before, after, actions, i);
      UpdateBalances(before, i, after.entries[i]);
      TruncationBalances(before.(entries := before.entries[i := after.entries[i]]), after, actions[..|actions| - 1]);
    }
  }

  // ---------- summaries ----------

  lemma InsertBalances(w: Work, at: nat, e: Entry)
    requires at <= |w.entries| && e.sourceIndex !in w.dropped
    ensures LiveTokens(Insert(w, at, e)) == LiveTokens(w) + e.tokens && e in Live(Insert(w, at, e))
  {
    var more := Insert(w, at, e).entries;
    WithoutSplit(more, at, w.dropped);
    assert more[..at] == w.entries[..at] && more[at] == e && more[at + 1..] == w.entries[at..];
    assert w.entries == w.entries[..at] + w.entries[at..];
    WithoutConcat(w.entries[..at], w.entries[at..], w.dropped);
    TokenSumConcat(Without(w.entries[..at], w.dropped), Without(w.entries[at..], w.dropped));
    WithoutExact(more, w.dropped, e);
    assert more[at] in more;
  }

  /** The tokens of a span are what logging its removal says. */
  lemma {:induction false} SpanLogged(w: Work, span: seq<nat>, kind: ActionKind, actions: seq<EntryAction>)
    requires LogsRemovals(w.entries, span, kind, actions)
    ensures ActionSum(actions) == SpanTokens(w, span)
  {
    if span != [] {
      SpanLogged(w, span[..|span| - 1], kind, actions[..|span| - 1]);
    }
  }

  /** Folding takes the span's tokens away and puts the summary's in. */
  lemma FoldBalances(base: seq<Entry>, w: Work, s: Summarizing, reply: string -> Reply, count: string -> nat,
                     measure: Measure, span: seq<nat>, after: Work, actions: seq<EntryAction>) returns (e: Entry)
    requires Sound(count, base, w) && Pays(w, s, reply, count, measure, span)
    requires FoldsSpan(w, s, reply, count, span, after, actions)
    ensures e in Live(after) && e.sourceIndex == w.nextSynthetic
    ensures LiveTokens(after) + ActionSum(actions) == LiveTokens(w) + e.tokens
    ensures e.tokens < ActionSum(actions) == SpanTokens(w, span)
    ensures e.content == reply(Render(EntriesAt(w.entries, span))).text && e.tokens == count(e.content)
  {
    hide LiveTokens, IsOldestSpan, SpanTokens, Sound, Render, Wanted, DistinctSources, IndicesAt, Folded, LogsRemovals,
         ActionSum;
    var answer := reply(Render(EntriesAt(w.entries, span)));
    var ref := SummaryRef(s.key, answer.put.version);
    e := SummaryEntry(w.nextSynthetic, s.key, ref, answer.text, count(answer.text));
    SpanOpen(w, span, Wanted(w, s, measure).value);
    FreshIndex(base, count, w, Elements(span));
    RemovalBalances(w, span, EntrySummarized, actions);
    FoldedTokens(w, span, s.key, ref, answer.text, count(answer.text));
    SpanLogged(w, span, EntrySummarized, actions);
  }

  lemma FreshIndex(base: seq<Entry>, count: string -> nat, w: Work, positions: set<nat>)
    requires Sound(count, base, w)
    ensures w.nextSynthetic !in w.dropped + IndicesAt(w, positions) && DistinctSources(w.entries)
  {
    assert forall i | i in positions && i < |w.entries| :: w.entries[i] in w.entries;
  }

  lemma FoldedTokens(w: Work, span: seq<nat>, key: string, ref: string, text: string, tokens: nat)
    requires span != [] && span[0] <= |w.entries| && w.nextSynthetic !in w.dropped + IndicesAt(w, Elements(span))
    ensures var after := Folded(w, span, key, ref, text, tokens);
            && LiveTokens(after) == LiveTokens(DropAll(w, Elements(span))) + tokens
            && SummaryEntry(w.nextSynthetic, key, ref, text, tokens) in Live(after)
  {
    hide LiveTokens, IndicesAt, Live;
    var gone := IndicesAt(w, Elements(span));
    var folded := w.(dropped := w.dropped + gone, summarizedInto := w.summarizedInto + FoldedInto(gone, ref));
    SameLive(folded, DropAll(w, Elements(span)));
    InsertBalances(folded, span[0], SummaryEntry(w.nextSynthetic, key, ref, text, tokens));
  }

  lemma SameLive(a: Work, b: Work)
    requires a.entries == b.entries && a.dropped == b.dropped
    ensures LiveTokens(a) == LiveTokens(b)
  {
  }

  lemma SpanOpen(w: Work, span: seq<nat>, want: int)
    requires IsOldestSpan(w, span, want)
    ensures Distinct(span) && forall i | i in span :: Droppable(w, i)
  {
  }

  // ---------- every stage ----------

  /** What the log of a stage says was taken away is missing afterwards, to the token, but for a summary put in its
      place, which is always smaller. */
  lemma EffectBalances(base: seq<Entry>, strategy: Strategy, pol: Policy, reply: string -> Reply,
                       count: string -> nat, measure: Measure, before: Work, after: Work, actions: seq<EntryAction>)
    requires Sound(count, base, before) && Effect(strategy, pol, reply, count, measure, before, after, actions)
    ensures || LiveTokens(after) + ActionSum(actions) == LiveTokens(before)
            || (exists e :: && strategy.SummarizeOldest? && e in Live(after) && e.sourceIndex == before.nextSynthetic
                            && e.tokens < ActionSum(actions)
                            && LiveTokens(after) + ActionSum(actions) == LiveTokens(before) + e.tokens)
    ensures LiveTokens(after) <= LiveTokens(before)
  {
    hide LiveTokens, Slides, Evicts, TruncatesOldest, LogsTruncations, LogsRemovals, FitsBudget, AtFloor, Removes,
         Sound, Pays, FoldsSpan, AreRounds, ActionSum;
    match strategy
    case SlidingWindow(n) =>
      var order :| Slides(n, before, order, after, actions);
      RemovalDroppable(strategy, pol, measure, before, order, after, actions);
      SlideDistinct(n, before, order, after, actions);
      StageRemoves(base, count, before, order, after, actions);
    case DropLowestPriority =>
      var order :| Evicts(pol.budget, measure, before, order, after, actions);
      RemovalDroppable(strategy, pol, measure, before, order, after, actions);
      EvictDistinct(pol, measure, before, order, after, actions);
      StageRemoves(base, count, before, order, after, actions);
    case TruncateOldest(floor) =>
      StageTruncates(base, count, before, after, floor, actions);
    case SummarizeOldest(key, maxTokens) =>
      var s := Summarizing(key, maxTokens, pol.budget, pol.configured);
      if span :| Pays(before, s, reply, count, measure, span) {
        var folded :| Pays(before, s, reply, count, measure, folded)
                      && FoldsSpan(before, s, reply, count, folded, after, actions);
        var e := FoldBalances(base, before, s, reply, count, measure, folded, after, actions);
      } else {
        NothingTaken();
      }
  }

  lemma SlideDistinct(n: nat, before: Work, order: seq<nat>, after: Work, actions: seq<EntryAction>)
    requires Slides(n, before, order, after, actions)
    ensures Distinct(order)
  {
  }

  lemma EvictDistinct(pol: Policy, measure: Measure, before: Work, order: seq<nat>, after: Work,
                      actions: seq<EntryAction>)
    requires Evicts(pol.budget, measure, before, order, after, actions)
    ensures Distinct(order)
  {
  }

  lemma StageRemoves(base: seq<Entry>, count: string -> nat, before: Work, order: seq<nat>, after: Work,
                     actions: seq<EntryAction>)
    requires Sound(count, base, before) && Removes(before, order, after, actions)
    requires Distinct(order) && forall i | i in order :: Droppable(before, i)
    ensures LiveTokens(after) + ActionSum(actions) == LiveTokens(before) && ActionSum(actions) >= 0
  {
    hide LiveTokens, ActionSum;
    RemovalBalances(before, order, EntryDropped, actions);
    SpanLogged(before, order, EntryDropped, actions);
  }

  lemma StageTruncates(base: seq<Entry>, count: string -> nat, before: Work, after: Work, floor: nat,
                       actions: seq<EntryAction>)
    requires Sound(count, base, before)
    requires TruncatesOldest(before, after, floor) && LogsTruncations(before, after, actions)
    ensures LiveTokens(after) + ActionSum(actions) == LiveTokens(before) && ActionSum(actions) >= 0
  {
    hide LiveTokens, Keeps;
    forall i: nat | i < |before.entries|
      ensures after.entries[i].sourceIndex == before.entries[i].sourceIndex
      ensures after.entries[i] != before.entries[i] ==>
                Droppable(before, i) && after.entries[i].tokens < before.entries[i].tokens
    {
      assert after.entries[i] != before.entries[i] ==> Shrunk(before, after, i, floor);
    }
    TruncationBalances(before, after, actions);
    forall a | a in actions ensures a.after <= a.before {
      assert RecordsChange(before, after, a);
    }
    NeverNegative(actions);
  }

  lemma {:induction false} NeverNegative(actions: seq<EntryAction>)
    requires forall a | a in actions :: a.after <= a.before
    ensures ActionSum(actions) >= 0
  {
    if actions != [] {
      NeverNegative(actions[..|actions| - 1]);
      assert actions[|actions| - 1] in actions;
    }
  }

  lemma NothingTaken()
    ensures ActionSum([]) == 0
  {
  }

  /** A summary within its own allowance frees the whole overrun, unless nothing more could be folded. */
  lemma FoldFreesOverrun(base: seq<Entry>, w: Work, s: Summarizing, reply: string -> Reply, count: string -> nat,
                         measure: Measure, span: seq<nat>, after: Work, actions: seq<EntryAction>, total: int)
    requires Sound(count, base, w) && Pays(w, s, reply, count, measure, span)
    requires FoldsSpan(w, s, reply, count, span, after, actions) && measure(Render(Live(w))) == Definitions.Some(total)
    requires count(reply(Render(EntriesAt(w.entries, span))).text) <= s.maxTokens
    ensures LiveTokens(w) - LiveTokens(after) >= total - s.budget || forall i: nat | Droppable(w, i) :: i in span
  {
    hide LiveTokens, SpanTokens, Sound, Render, EntriesAt, Live, FoldsSpan, ActionSum, Ascending;
    var e := FoldBalances(base, w, s, reply, count, measure, span, after, actions);
  }

  /** Along every compaction the prompt's entries never hold more tokens than before. */
  lemma {:induction false} TrailShrinks(base: seq<Entry>, measure: Measure, count: string -> nat, pol: Policy,
                                        replies: Replies, revisions: seq<Revision>, history: seq<Work>, k: nat)
    requires IsTrail(measure, count, pol, replies, revisions, history) && Sound(count, base, history[0])
    requires k < |revisions|
    ensures Sound(count, base, history[k]) && Sound(count, base, history[k + 1])
    ensures LiveTokens(history[k + 1]) <= LiveTokens(history[k]) <= LiveTokens(history[0])
  {
    hide LiveTokens, Sound, Effect, Measures, Names;
    if k > 0 {
      TrailShrinks(base, measure, count, pol, replies, revisions, history, k - 1);
    }
    var r := revisions[k];
    assert Records(measure, count, pol, replies, r, k, history[k], history[k + 1]);
    EffectKeepsSound(base, r.strategy, pol, ReplyAt(replies, k), count, measure, history[k], history[k + 1], r.actions);
    EffectBalances(base, r.strategy, pol, ReplyAt(replies, k), count, measure, history[k], history[k + 1], r.actions);
  }

  /** The summary stands where the oldest of the span stood: what is live keeps its order around it, and everything live
      before it is pinned. */
  lemma SummaryStands(base: seq<Entry>, count: string -> nat, w: Work, span: seq<nat>, want: int, key: string,
                      ref: string, text: string)
    returns (front: seq<Entry>, back: seq<Entry>)
    requires Sound(count, base, w) && IsOldestSpan(w, span, want) && span[0] < |w.entries|
    ensures Live(Folded(w, span, key, ref, text, count(text)))
            == front + [SummaryEntry(w.nextSynthetic, key, ref, text, count(text))] + back
    ensures Live(DropAll(w, Elements(span))) == front + back
    ensures forall e | e in front :: e.pinned
  {
    hide Sound, SpanTokens, IndicesAt;
    var gone, at := w.dropped + IndicesAt(w, Elements(span)), span[0];
    var e := SummaryEntry(w.nextSynthetic, key, ref, text, count(text));
    FreshIndex(base, count, w, Elements(span));
    front, back := Without(w.entries[..at], gone), Without(w.entries[at..], gone);
    WithoutConcat(w.entries[..at], [e] + w.entries[at..], gone);
    WithoutConcat([e], w.entries[at..], gone);
    assert [e][1..] == [] && Without([e], gone) == [e];
    assert w.entries[..at] + [e] + w.entries[at..] == w.entries[..at] + ([e] + w.entries[at..]);
    WithoutConcat(w.entries[..at], w.entries[at..], gone);
    assert w.entries == w.entries[..at] + w.entries[at..];
    forall x | x in front ensures x.pinned {
      WithoutExact(w.entries[..at], gone, x);
      var i :| 0 <= i < at && w.entries[i] == x;
      NothingOlder(w, span, want, i);
    }
  }

  lemma NothingOlder(w: Work, span: seq<nat>, want: int, i: nat)
    requires IsOldestSpan(w, span, want) && i < span[0]
    ensures !Droppable(w, i)
  {
    assert span[0] <= span[|span| - 1];
    assert forall k | 0 <= k < |span| :: span[0] <= span[k];
  }
}
