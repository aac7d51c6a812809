/** Assembled context entries, their rendering, and the working set compaction mutates
    (internal/contextmgr/contextmgr.go, internal/contextmgr/compact.go). */
module Contexts {

  datatype Entry = Entry(sourceIndex: int, kind: string, name: string, ref: string,
                         pinned: bool, priority: int, content: string, tokens: nat)

  datatype Disposition = Included | Truncated | Skipped | Dropped | Summarized

  datatype SourceReport = SourceReport(index: int, kind: string, name: string, ref: string,
                                       status: Disposition, tokens: nat, pinned: bool)

  /** A token counter: any function, as long as the empty text counts nothing. */
  ghost predicate IsCounter(count: string -> nat) {
    count("") == 0
  }

  function RenderBlock(e: Entry): string {
    "<context name=\"" + e.name + "\" kind=\"" + e.kind + "\">\n" + e.content + "\n</context>"
  }

  function Render(entries: seq<Entry>): string {
    if entries == [] then ""
    else if |entries| == 1 then RenderBlock(entries[0])
    else RenderBlock(entries[0]) + "\n\n" + Render(entries[1..])
  }

  // ---------- what the rendered text shows ----------

  /** The content of e stands at position p, in an envelope that names the source and its kind. */
  ghost predicate ShowsAt(text: string, p: nat, e: Entry) {
    var tag, close := "<context name=\"" + e.name + "\" kind=\"" + e.kind + "\">\n", "\n</context>";
    && |tag| <= p && p + |e.content| + |close| <= |text|
    && text[p - |tag|..p] == tag
    && text[p..p + |e.content|] == e.content
    && text[p + |e.content|..p + |e.content| + |close|] == close
  }

  ghost predicate ShowsAll(text: string, entries: seq<Entry>, at: seq<nat>) {
    && |at| == |entries|
    && (forall i | 0 <= i < |at| :: ShowsAt(text, at[i], entries[i]))
    && (forall i, j | 0 <= i < j < |at| :: at[i] + |entries[i].content| < at[j])
  }

  /** Every entry is shown, in order and without overlap. */
  ghost predicate Shows(text: string, entries: seq<Entry>) {
    exists at: seq<nat> :: ShowsAll(text, entries, at)
  }

  /** Blocks are joined by blank lines. */
  lemma {:induction false} RenderConcat(a: seq<Entry>, b: seq<Entry>)
    ensures Render(a + b) ==
            if a == [] then Render(b) else if b == [] then Render(a) else Render(a) + "\n\n" + Render(b)
  {
    if a == [] {
      assert a + b == b;
    } else if b == [] {
      assert a + b == a;
    } else {
      assert (a + b)[1..] == a[1..] + b;
      if |a| > 1 {
        RenderConcat(a[1..], b);
      } else {
        assert a[1..] + b == b;
      }
    }
  }

  lemma ShowsBlock(e: Entry, rest: string)
    ensures var p := |e.name| + |e.kind| + 26;
            ShowsAt(RenderBlock(e) + rest, p, e) && p + |e.content| < |RenderBlock(e)|
  {
    var tag, close := "<context name=\"" + e.name + "\" kind=\"" + e.kind + "\">\n", "\n</context>";
    var text, p := RenderBlock(e) + rest, |e.name| + |e.kind| + 26;
    assert text == tag + (e.content + (close + rest)) && |tag| == p;
    Parts(tag, e.content, close, rest);
  }

  lemma Parts(a: string, b: string, c: string, d: string)
    ensures var text := a + (b + (c + d));
            && text[0..|a|] == a && text[|a|..|a| + |b|] == b && text[|a| + |b|..|a| + |b| + |c|] == c
  {
  }

  lemma ShowsLater(front: string, text: string, p: nat, e: Entry)
    requires ShowsAt(text, p, e)
    ensures ShowsAt(front + text, |front| + p, e)
  {
    SliceLater(front, text, p - (|e.name| + |e.kind| + 26), p);
    SliceLater(front, text, p, p + |e.content|);
    SliceLater(front, text, p + |e.content|, p + |e.content| + 11);
  }

  lemma SliceLater(front: string, text: string, i: nat, j: nat)
    requires i <= j <= |text|
    ensures (front + text)[|front| + i..|front| + j] == text[i..j]
  {
  }

  lemma ShowsCons(text: string, e: Entry, p: nat, entries: seq<Entry>, at: seq<nat>)
    requires ShowsAt(text, p, e) && ShowsAll(text, entries, at) && forall q | q in at :: p + |e.content| < q
    ensures ShowsAll(text, [e] + entries, [p] + at)
  {
    hide ShowsAt;
    forall i | 0 <= i < |at| + 1 ensures ShowsAt(text, ([p] + at)[i], ([e] + entries)[i]) {
      assert i > 0 ==> ShowsAt(text, at[i - 1], entries[i - 1]);
    }
    assert forall k | 0 <= k < |at| :: at[k] in at;
  }

  lemma ShowsPrepended(front: string, e: Entry, p: nat, text: string, entries: seq<Entry>, at: seq<nat>)
    requires ShowsAt(front + text, p, e) && p + |e.content| < |front| && ShowsAll(text, entries, at)
    ensures Shows(front + text, [e] + entries)
  {
    hide ShowsAt;
    var later := seq(|at|, i requires 0 <= i < |at| => |front| + at[i]);
    forall i | 0 <= i < |at| ensures ShowsAt(front + text, later[i], entries[i]) {
      ShowsLater(front, text, at[i], entries[i]);
    }
    assert ShowsAll(front + text, entries, later);
    ShowsCons(front + text, e, p, entries, later);
  }

  lemma ShowsFirst(e: Entry, gap: string, text: string, entries: seq<Entry>)
    requires Shows(text, entries)
    ensures Shows(RenderBlock(e) + gap + text, [e] + entries)
  {
    hide ShowsAt, ShowsAll, RenderBlock;
    var block := RenderBlock(e);
    ShowsBlock(e, gap + text);
    assert block + (gap + text) == (block + gap) + text;
    var at :| ShowsAll(text, entries, at);
    ShowsPrepended(block + gap, e, |e.name| + |e.kind| + 26, text, entries, at);
  }

  /** The rendered text shows every entry, in order. */
  lemma {:induction false} RenderShows(entries: seq<Entry>)
    ensures Shows(Render(entries), entries)
  {
    hide Shows, RenderBlock;
    if entries == [] {
      ShowsNothing("");
    } else {
      RenderShows(entries[1..]);
      RenderFirst(entries);
      ShowsFirst(entries[0], if |entries| == 1 then "" else "\n\n", Render(entries[1..]), entries[1..]);
      assert entries == [entries[0]] + entries[1..];
    }
  }

  lemma ShowsNothing(text: string)
    ensures ShowsAll(text, [], []) && Shows(text, [])
  {
    assert ShowsAll(text, [], []);
  }

  lemma RenderFirst(entries: seq<Entry>)
    requires entries != []
    ensures var front := RenderBlock(entries[0]) + if |entries| == 1 then "" else "\n\n";
            Render(entries) == front + Render(entries[1..])
  {
  }

  /** The strategies' working set, as a value. */
  datatype Work = Work(entries: seq<Entry>, dropped: set<int>, truncated: set<int>,
                       summarizedInto: map<int, string>, nextSynthetic: int)

  // ---------- live and original entries ----------

  function Without(entries: seq<Entry>, dropped: set<int>): seq<Entry> {
    if entries == [] then []
    else (if entries[0].sourceIndex in dropped then [] else [entries[0]]) + Without(entries[1..], dropped)
  }

  function Live(w: Work): seq<Entry> {
    Without(w.entries, w.dropped)
  }

  function Pinned(entries: seq<Entry>): seq<Entry> {
    if entries == [] then []
    else (if entries[0].pinned then [entries[0]] else []) + Pinned(entries[1..])
  }

  /** The entries that came from declared sources; compaction numbers its summaries below zero. */
  ghost function Originals(entries: seq<Entry>): seq<Entry> {
    if entries == [] then []
    else (if entries[0].sourceIndex >= 0 then [entries[0]] else []) + Originals(entries[1..])
  }

  /** An entry no strategy may touch, or one still open to them. */
  predicate Droppable(w: Work, i: nat) {
    i < |w.entries| && !w.entries[i].pinned && w.entries[i].sourceIndex !in w.dropped
  }

  lemma {:induction false} WithoutConcat(a: seq<Entry>, b: seq<Entry>, dropped: set<int>)
    ensures Without(a + b, dropped) == Without(a, dropped) + Without(b, dropped)
  {
    if a == [] {
      assert a + b == b;
    } else {
      assert (a + b)[1..] == a[1..] + b;
      WithoutConcat(a[1..], b, dropped);
    }
  }

  lemma {:induction false} OriginalsConcat(a: seq<Entry>, b: seq<Entry>)
    ensures Originals(a + b) == Originals(a) + Originals(b)
  {
    if a == [] {
      assert a + b == b;
    } else {
      OriginalsConcat(a[1..], b);
      var head, x, y := if a[0].sourceIndex >= 0 then [a[0]] else [], Originals(a[1..]), Originals(b);
      assert (a + b)[0] == a[0] && (a + b)[1..] == a[1..] + b;
      assert Originals(a + b) == head + (x + y) == (head + x) + y;
    }
  }

  /** Which entries survive, membership-wise. */
  lemma {:induction false} WithoutExact(entries: seq<Entry>, dropped: set<int>, e: Entry)
    ensures e in Without(entries, dropped) <==> e in entries && e.sourceIndex !in dropped
  {
    if entries != [] {
      WithoutExact(entries[1..], dropped, e);
      assert e in entries <==> e == entries[0] || e in entries[1..];
    }
  }

  /** Taking the originals of the survivors is the same as the survivors of the originals. */
  lemma {:induction false} OriginalsCommute(entries: seq<Entry>, dropped: set<int>)
    ensures Originals(Without(entries, dropped)) == Without(Originals(entries), dropped)
  {
    if entries != [] {
      var head := if entries[0].sourceIndex in dropped then [] else [entries[0]];
      OriginalsConcat(head, Without(entries[1..], dropped));
      OriginalsCommute(entries[1..], dropped);
      WithoutConcat(if entries[0].sourceIndex >= 0 then [entries[0]] else [], Originals(entries[1..]), dropped);
    }
  }

  /** With every unpinned entry dropped, what is left is the pinned set. */
  lemma {:induction false} OnlyPinnedLeft(entries: seq<Entry>, dropped: set<int>)
    requires forall e | e in entries :: e.pinned <==> e.sourceIndex !in dropped
    ensures Without(entries, dropped) == Pinned(entries)
  {
    if entries != [] {
      assert entries[0] in entries;
      OnlyPinnedLeft(entries[1..], dropped);
    }
  }

  lemma ShowsTail(text: string, entries: seq<Entry>, at: seq<nat>)
    requires ShowsAll(text, entries, at) && entries != []
    ensures |at| == |entries| && ShowsAt(text, at[0], entries[0]) && ShowsAll(text, entries[1..], at[1..])
    ensures forall q | q in at[1..] :: at[0] + |entries[0].content| < q
  {
    hide ShowsAt;
  }

  /** What shows a list of entries shows its pinned ones, in order. */
  lemma {:induction false} ShowsPinnedAt(text: string, entries: seq<Entry>, at: seq<nat>) returns (pins: seq<nat>)
    requires ShowsAll(text, entries, at)
    ensures ShowsAll(text, Pinned(entries), pins) && forall p | p in pins :: p in at
  {
    hide ShowsAt, ShowsAll;
    if entries == [] {
      pins := [];
      ShowsNothing(text);
    } else {
      ShowsTail(text, entries, at);
      assert forall p | p in at[1..] :: p in at;
      assert at[0] in at;
      pins := ShowsPinnedAt(text, entries[1..], at[1..]);
      if entries[0].pinned {
        ShowsCons(text, entries[0], at[0], Pinned(entries[1..]), pins);
        pins := [at[0]] + pins;
      } else {
        assert Pinned(entries) == Pinned(entries[1..]);
      }
    }
  }

  lemma ShowsPinned(text: string, entries: seq<Entry>)
    requires Shows(text, entries)
    ensures Shows(text, Pinned(entries))
  {
    var at :| ShowsAll(text, entries, at);
    var pins := ShowsPinnedAt(text, entries, at);
  }

  // ---------- token totals ----------

  ghost function TokenSum(entries: seq<Entry>): nat {
    if entries == [] then 0 else entries[0].tokens + TokenSum(entries[1..])
  }

  lemma {:induction false} TokenSumUpdate(entries: seq<Entry>, i: nat, e: Entry)
    requires i < |entries|
    ensures TokenSum(entries[i := e]) == TokenSum(entries) - entries[i].tokens + e.tokens
  {
    if i == 0 {
      assert entries[i := e][1..] == entries[1..];
    } else {
      assert entries[i := e][1..] == entries[1..][i - 1 := e];
      TokenSumUpdate(entries[1..], i - 1, e);
    }
  }

  lemma {:induction false} TokenSumConcat(a: seq<Entry>, b: seq<Entry>)
    ensures TokenSum(a + b) == TokenSum(a) + TokenSum(b)
  {
    if a == [] {
      assert a + b == b;
    } else {
      assert (a + b)[1..] == a[1..] + b;
      TokenSumConcat(a[1..], b);
    }
  }

  ghost function ReportSum(reports: seq<SourceReport>): nat {
    if reports == [] then 0 else reports[0].tokens + ReportSum(reports[1..])
  }

  lemma {:induction false} ReportSumConcat(a: seq<SourceReport>, b: seq<SourceReport>)
    ensures ReportSum(a + b) == ReportSum(a) + ReportSum(b)
  {
    if a == [] {
      assert a + b == b;
    } else {
      assert (a + b)[1..] == a[1..] + b;
      ReportSumConcat(a[1..], b);
    }
  }

  lemma {:induction false} ReportSumUpdate(reports: seq<SourceReport>, i: nat, r: SourceReport)
    requires i < |reports|
    ensures ReportSum(reports[i := r]) == ReportSum(reports) - reports[i].tokens + r.tokens
  {
    if i == 0 {
      assert reports[i := r][1..] == reports[1..];
    } else {
      assert reports[i := r][1..] == reports[1..][i - 1 := r];
      ReportSumUpdate(reports[1..], i - 1, r);
    }
  }

  /** The reports account for every token of the entries, and for no other. */
  ghost predicate Balanced(entries: seq<Entry>, reports: seq<SourceReport>) {
    ReportSum(reports) == TokenSum(entries)
  }

  // ---------- what every strategy keeps ----------

  /** The same source, changed at most in content and token count, and only if a strategy truncated it. */
  ghost predicate Evolved(before: Entry, now: Entry, truncated: set<int>) {
    && now == before.(content := now.content, tokens := now.tokens)
    && (now == before || (!before.pinned && before.sourceIndex in truncated))
  }

  ghost predicate DistinctSources(entries: seq<Entry>) {
    forall i, j | 0 <= i < j < |entries| :: entries[i].sourceIndex != entries[j].sourceIndex
  }

  /** Every declared entry is still accounted for, in order, untouched unless truncated. */
  ghost predicate Keeps(base: seq<Entry>, w: Work) {
    && |Originals(w.entries)| == |base|
    && forall i | 0 <= i < |base| :: Evolved(base[i], Originals(w.entries)[i], w.truncated)
  }

  /** The invariant of the working set: the sources are kept and distinct, counts are current, pins are
      neither dropped nor truncated, summaries are unpinned and numbered below zero. */
  ghost predicate Sound(count: string -> nat, base: seq<Entry>, w: Work) {
    && Keeps(base, w) && DistinctSources(w.entries)
    && w.nextSynthetic < 0
    && (forall e | e in w.entries :: e.tokens == count(e.content) && e.sourceIndex > w.nextSynthetic)
    && (forall e | e in w.entries && e.pinned :: e.sourceIndex !in w.dropped && e.sourceIndex >= 0)
    && (forall i | i in w.dropped || i in w.truncated :: i > w.nextSynthetic)
    && w.summarizedInto.Keys <= w.dropped
    && (forall i | i in w.summarizedInto :: w.summarizedInto[i] != "")
  }

  /** A fresh assembly: distinct non-negative sources, counted contents. */
  ghost predicate Assembled(count: string -> nat, base: seq<Entry>) {
    && DistinctSources(base)
    && forall e | e in base :: e.sourceIndex >= 0 && e.tokens == count(e.content)
  }

  lemma {:induction false} OriginalsOfDeclared(entries: seq<Entry>)
    requires forall e | e in entries :: e.sourceIndex >= 0
    ensures Originals(entries) == entries
  {
    if entries != [] {
      assert entries[0] in entries;
      OriginalsOfDeclared(entries[1..]);
    }
  }

  lemma StartsSound(count: string -> nat, base: seq<Entry>)
    requires Assembled(count, base)
    ensures Sound(count, base, Work(base, {}, {}, map[], -1))
  {
    OriginalsOfDeclared(base);
  }

  /** Dropping unpinned entries keeps the working set sound. */
  lemma DropKeepsSound(count: string -> nat, base: seq<Entry>, w: Work, more: set<int>, into: map<int, string>)
    requires Sound(count, base, w)
    requires forall e | e in w.entries && e.sourceIndex in more :: !e.pinned
    requires forall i | i in more :: i > w.nextSynthetic
    requires into.Keys <= more && forall i | i in into :: into[i] != ""
    ensures Sound(count, base, w.(dropped := w.dropped + more, summarizedInto := w.summarizedInto + into))
  {
  }

  /** Pointwise evolution of the working entries carries over to the originals among them. */
  lemma {:induction false} OriginalsEvolve(a: seq<Entry>, b: seq<Entry>, truncated: set<int>)
    requires |a| == |b| && forall i | 0 <= i < |a| :: Evolved(a[i], b[i], truncated)
    ensures |Originals(a)| == |Originals(b)|
    ensures forall i | 0 <= i < |Originals(a)| :: Evolved(Originals(a)[i], Originals(b)[i], truncated)
  {
    if a != [] {
      assert Evolved(a[0], b[0], truncated);
      forall i | 0 <= i < |a[1..]| ensures Evolved(a[1..][i], b[1..][i], truncated) {
        assert Evolved(a[i + 1], b[i + 1], truncated);
      }
      OriginalsEvolve(a[1..], b[1..], truncated);
    }
  }

  // ---------- what the invariant gives ----------

  lemma {:induction false} PinnedConcat(a: seq<Entry>, b: seq<Entry>)
    ensures Pinned(a + b) == Pinned(a) + Pinned(b)
  {
    if a == [] {
      assert a + b == b;
    } else {
      PinnedConcat(a[1..], b);
      var head, x, y := if a[0].pinned then [a[0]] else [], Pinned(a[1..]), Pinned(b);
      assert (a + b)[0] == a[0] && (a + b)[1..] == a[1..] + b;
      assert Pinned(a + b) == head + (x + y) == (head + x) + y;
    }
  }

  lemma {:induction false} PinnedStay(entries: seq<Entry>, dropped: set<int>)
    requires forall e | e in entries && e.pinned :: e.sourceIndex !in dropped && e.sourceIndex >= 0
    ensures Pinned(Without(entries, dropped)) == Pinned(entries) == Pinned(Originals(entries))
  {
    if entries != [] {
      assert entries[0] in entries;
      PinnedStay(entries[1..], dropped);
      PinnedConcat(if entries[0].sourceIndex in dropped then [] else [entries[0]], Without(entries[1..], dropped));
      PinnedConcat(if entries[0].sourceIndex >= 0 then [entries[0]] else [], Originals(entries[1..]));
    }
  }

  lemma {:induction false} PinnedUnevolved(a: seq<Entry>, b: seq<Entry>, truncated: set<int>)
    requires |a| == |b| && forall i | 0 <= i < |a| :: Evolved(a[i], b[i], truncated)
    ensures Pinned(a) == Pinned(b)
  {
    if a != [] {
      assert Evolved(a[0], b[0], truncated);
      forall i | 0 <= i < |a[1..]| ensures Evolved(a[1..][i], b[1..][i], truncated) {
        assert Evolved(a[i + 1], b[i + 1], truncated);
      }
      PinnedUnevolved(a[1..], b[1..], truncated);
    }
  }

  /** Whatever ran, the pinned entries are all live, in order and untouched. */
  lemma PinnedSurvive(count: string -> nat, base: seq<Entry>, w: Work)
    requires Sound(count, base, w)
    ensures Pinned(Live(w)) == Pinned(w.entries) == Pinned(base)
  {
    PinnedStay(w.entries, w.dropped);
    PinnedUnevolved(base, Originals(w.entries), w.truncated);
  }

  /** What is live of the declared sources is the declared list less the dropped ones, in the declared order. */
  lemma OrderSurvives(count: string -> nat, base: seq<Entry>, w: Work)
    requires Sound(count, base, w)
    ensures Originals(Live(w)) == Without(Originals(w.entries), w.dropped)
    ensures |Originals(w.entries)| == |base|
    ensures forall i | 0 <= i < |base| :: Evolved(base[i], Originals(w.entries)[i], w.truncated)
  {
    OriginalsCommute(w.entries, w.dropped);
  }
}
