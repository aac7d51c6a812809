/** Replacing the oldest span with a summary entry (internal/contextmgr/compact.go). */
module Summaries {
  import opened Counting
  import opened Contexts
  import opened Strategies

  const KIND_SUMMARY := "summary"

  ghost function SpanTokens(w: Work, span: seq<nat>): nat {
    if span == [] then 0
    else
      var i := span[|span| - 1];
      SpanTokens(w, span[..|span| - 1]) + if i < |w.entries| then w.entries[i].tokens else 0
  }

  /** The shortest run of oldest droppable entries that holds the wanted tokens, or all of them. */
  ghost predicate IsOldestSpan(w: Work, span: seq<nat>, want: int) {
    && span != [] && Ascending(span) && (forall i | i in span :: Droppable(w, i))
    && (forall i: nat | Droppable(w, i) && i < span[|span| - 1] :: i in span)
    && (SpanTokens(w, span) >= want || forall i: nat | Droppable(w, i) :: i in span)
    && (|span| > 1 ==> SpanTokens(w, span[..|span| - 1]) < want)
  }

  /** All but the last of the span falls short. */
  ghost predicate ShortOf(w: Work, span: seq<nat>, want: int) {
    |span| > 1 ==> SpanTokens(w, span[..|span| - 1]) < want
  }

  lemma SpanGrows(w: Work, span: seq<nat>, i: nat)
    requires ListsDroppable(w, span, i) && Droppable(w, i)
    ensures ListsDroppable(w, span + [i], i + 1) && (span + [i])[..|span|] == span
    ensures SpanTokens(w, span + [i]) == SpanTokens(w, span) + w.entries[i].tokens
  {
    assert forall k | 0 <= k < |span| :: span[k] in span;
    assert (span + [i])[..|span|] == span;
  }

  lemma SpanIsOldest(w: Work, span: seq<nat>, k: nat, want: int)
    requires span != [] && k <= |w.entries| && ListsDroppable(w, span, k) && ShortOf(w, span, want)
    requires SpanTokens(w, span) >= want || k == |w.entries|
    ensures IsOldestSpan(w, span, want)
  {
    assert span[|span| - 1] in span;
  }

  lemma {:induction false} PrefixTokens(w: Work, span: seq<nat>, k: nat)
    requires k <= |span|
    ensures SpanTokens(w, span[..k]) <= SpanTokens(w, span)
    decreases |span|
  {
    if k < |span| {
      var front := span[..|span| - 1];
      PrefixTokens(w, front, k);
      assert front[..k] == span[..k];
    } else {
      assert span[..k] == span;
    }
  }

  /** Of two lists of oldest droppable entries one starts with the other. */
  lemma {:induction false} SpansAlign(w: Work, a: seq<nat>, b: seq<nat>, k: nat)
    requires Ascending(a) && Ascending(b) && k < |a| && k < |b|
    requires (forall i | i in a :: Droppable(w, i)) && forall i | i in b :: Droppable(w, i)
    requires forall i: nat | Droppable(w, i) && i < a[|a| - 1] :: i in a
    requires forall i: nat | Droppable(w, i) && i < b[|b| - 1] :: i in b
    ensures a[..k + 1] == b[..k + 1]
  {
    if k > 0 {
      SpansAlign(w, a, b, k - 1);
      assert a[k - 1] == a[..k][k - 1] == b[..k][k - 1] == b[k - 1];
    }
    assert a[k] in a && b[k] in b;
    NextIsLeast(w, a, b, k);
    NextIsLeast(w, b, a, k);
  }

  lemma NextIsLeast(w: Work, a: seq<nat>, b: seq<nat>, k: nat)
    requires Ascending(a) && Ascending(b) && k < |a| && k < |b| && a[..k] == b[..k]
    requires b[k] in b && Droppable(w, b[k]) && forall i: nat | Droppable(w, i) && i < a[|a| - 1] :: i in a
    ensures a[k] <= b[k]
  {
    forall j | 0 <= j < k ensures a[j] < b[k] {
      assert a[j] == a[..k][j] == b[..k][j] == b[j];
    }
    if b[k] < a[|a| - 1] {
      var j :| 0 <= j < |a| && a[j] == b[k];
      assert k <= j;
    }
  }

  /** A part of the oldest span is not itself one. */
  lemma PrefixFallsShort(w: Work, a: seq<nat>, b: seq<nat>, want: int)
    requires IsOldestSpan(w, b, want) && 0 < |a| < |b| && a == b[..|a|]
    ensures !IsOldestSpan(w, a, want)
  {
    var front, last := b[..|b| - 1], b[|b| - 1];
    PrefixTokens(w, front, |a|);
    assert front[..|a|] == a;
    assert last in b;
    forall i | 0 <= i < |a| ensures a[i] != last {
      assert a[i] == b[i];
    }
  }

  /** There is only one oldest span. */
  lemma SpanUnique(w: Work, a: seq<nat>, b: seq<nat>, want: int)
    requires IsOldestSpan(w, a, want) && IsOldestSpan(w, b, want)
    ensures a == b
  {
    assert a[..|a|] == a && b[..|b|] == b;
    if |a| <= |b| {
      SpansAlign(w, a, b, |a| - 1);
    } else {
      SpansAlign(w, a, b, |b| - 1);
    }
    if |a| < |b| {
      PrefixFallsShort(w, a, b, want);
    } else if |b| < |a| {
      PrefixFallsShort(w, b, a, want);
    }
  }

  function SummaryEntry(index: int, key: string, ref: string, text: string, tokens: nat): Entry {
    Entry(index, KIND_SUMMARY, key, ref, false, 0, text, tokens)
  }

  function Insert(w: Work, at: nat, e: Entry): Work
    requires at <= |w.entries|
  {
    w.(entries := w.entries[..at] + [e] + w.entries[at..], nextSynthetic := w.nextSynthetic - 1)
  }

  function FoldedInto(gone: set<int>, ref: string): map<int, string> {
    map i | i in gone :: ref
  }

  lemma FoldNone(w: Work, into: map<int, string>, ref: string)
    ensures IndicesAt(w, Elements([])) == {} && into + FoldedInto({}, ref) == into
  {
  }

  /** Folding one more entry of the span. */
  lemma FoldOne(w: Work, span: seq<nat>, k: nat, into: map<int, string>, ref: string)
    requires k < |span| && span[k] < |w.entries|
    ensures IndicesAt(w, Elements(span[..k + 1]))
            == IndicesAt(w, Elements(span[..k])) + {w.entries[span[k]].sourceIndex}
    ensures into + FoldedInto(IndicesAt(w, Elements(span[..k + 1])), ref)
            == (into + FoldedInto(IndicesAt(w, Elements(span[..k])), ref))[w.entries[span[k]].sourceIndex := ref]
  {
    assert Elements(span[..k + 1]) == Elements(span[..k]) + {span[k]};
    assert IndicesAt(w, Elements(span[..k]) + {span[k]})
           == IndicesAt(w, Elements(span[..k])) + {w.entries[span[k]].sourceIndex};
  }

  /** The span is dropped and recorded as folded into ref; the summary stands where its oldest entry stood. */
  ghost function Folded(w: Work, span: seq<nat>, key: string, ref: string, text: string, tokens: nat): Work
    requires span != [] && span[0] <= |w.entries|
  {
    var gone := IndicesAt(w, Elements(span));
    var folded := w.(dropped := w.dropped + gone, summarizedInto := w.summarizedInto + FoldedInto(gone, ref));
    Insert(folded, span[0], SummaryEntry(w.nextSynthetic, key, ref, text, tokens))
  }

  lemma InsertKeeps(base: seq<Entry>, w: Work, at: nat, e: Entry)
    requires Keeps(base, w) && at <= |w.entries| && e.sourceIndex < 0
    ensures Keeps(base, Insert(w, at, e))
  {
    var a, b := w.entries[..at], w.entries[at..];
    assert w.entries == a + b;
    OriginalsConcat(a, b);
    OriginalsConcat(a, [e] + b);
    OriginalsConcat([e], b);
    assert a + [e] + b == a + ([e] + b);
    assert Originals([e]) == [];
  }

  lemma InsertMembers(w: Work, at: nat, e: Entry)
    requires at <= |w.entries|
    ensures forall x | x in Insert(w, at, e).entries :: x == e || x in w.entries
    ensures (DistinctSources(w.entries) && forall x | x in w.entries :: x.sourceIndex > e.sourceIndex)
            ==> DistinctSources(Insert(w, at, e).entries)
  {
    var now := Insert(w, at, e).entries;
    if DistinctSources(w.entries) && forall x | x in w.entries :: x.sourceIndex > e.sourceIndex {
      forall i, j | 0 <= i < j < |now| ensures now[i].sourceIndex != now[j].sourceIndex {
        var p, q := if i <= at then i else i - 1, if j <= at then j else j - 1;
        assert i == at || (now[i] == w.entries[p] && now[i] in w.entries);
        assert j == at || (now[j] == w.entries[q] && now[j] in w.entries);
      }
    }
  }

  lemma InsertKeepsSound(count: string -> nat, base: seq<Entry>, w: Work, at: nat, e: Entry)
    requires Sound(count, base, w) && at <= |w.entries|
    requires e.sourceIndex == w.nextSynthetic && !e.pinned && e.tokens == count(e.content)
    ensures Sound(count, base, Insert(w, at, e))
  {
    hide Keeps, DistinctSources;
    InsertKeeps(base, w, at, e);
    InsertMembers(w, at, e);
  }

  lemma FoldingKeepsSound(count: string -> nat, base: seq<Entry>, w: Work, span: seq<nat>, key: string, ref: string,
                          text: string)
    requires Sound(count, base, w) && span != [] && ref != ""
    requires forall i | i in span :: Droppable(w, i)
    ensures span[0] <= |w.entries| && Sound(count, base, Folded(w, span, key, ref, text, count(text)))
  {
    assert Droppable(w, span[0]);
    var gone := IndicesAt(w, Elements(span));
    UnpinnedAt(w, span);
    DropKeepsSound(count, base, w, gone, FoldedInto(gone, ref));
    var folded := w.(dropped := w.dropped + gone, summarizedInto := w.summarizedInto + FoldedInto(gone, ref));
    InsertKeepsSound(count, base, folded, span[0], SummaryEntry(w.nextSynthetic, key, ref, text, count(text)));
  }

  lemma UnpinnedAt(w: Work, span: seq<nat>)
    requires DistinctSources(w.entries) && forall i | i in span :: Droppable(w, i)
    ensures forall e | e in w.entries && e.sourceIndex in IndicesAt(w, Elements(span)) :: !e.pinned
  {
    forall e | e in w.entries && e.sourceIndex in IndicesAt(w, Elements(span)) ensures !e.pinned {
      var k :| 0 <= k < |w.entries| && w.entries[k] == e;
      var j :| j in Elements(span) && j < |w.entries| && w.entries[j].sourceIndex == e.sourceIndex;
      assert Droppable(w, j);
      assert j == k;
    }
  }
}
