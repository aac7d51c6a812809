/** Token-bounded truncation by binary search, and the assembly that applies per-source caps
    (internal/contextmgr/compact.go, internal/contextmgr/contextmgr.go). */
module Truncation {
  import opened Definitions
  import opened Contexts
  import opened Probes

  const ELISION_MARKER := "\n…[elided]…\n"
  const TRUNCATION_MARKER := "\n…[truncated]…"

  /** The k kept characters of text, split between head and tail, around the elision marker. */
  function Middle(text: string, k: nat): string
    requires k <= |text|
  {
    text[..(k + 1) / 2] + ELISION_MARKER + text[|text| - k / 2..]
  }

  /** One middle-out cut, or nothing left. */
  ghost predicate IsCut(before: string, after: string) {
    after == "" || exists k: nat :: k <= |before| && after == Middle(before, k)
  }

  /** Zero or more cuts, one after the other. */
  ghost predicate CutDown(before: string, after: string) {
    exists chain: seq<string> :: IsCutChain(chain) && chain[0] == before && chain[|chain| - 1] == after
  }

  ghost predicate IsCutChain(chain: seq<string>) {
    chain != [] && forall i, j | 0 <= i < j < |chain| && j == i + 1 :: IsCut(chain[i], chain[j])
  }

  lemma CutNothing(text: string)
    ensures CutDown(text, text)
  {
    assert IsCutChain([text]);
  }

  lemma CutOnceMore(a: string, b: string, c: string)
    requires CutDown(a, b) && IsCut(b, c)
    ensures CutDown(a, c)
  {
    var chain: seq<string> :| IsCutChain(chain) && chain[0] == a && chain[|chain| - 1] == b;
    var more := chain + [c];
    forall i, j | 0 <= i < j < |more| && j == i + 1 ensures IsCut(more[i], more[j]) {
      assert j < |chain| ==> IsCut(chain[i], chain[j]);
    }
    assert IsCutChain(more);
  }

  /** Which middle-out cuts fit the target. */
  ghost function MiddleFits(text: string, target: int, count: string -> nat): nat -> bool {
    (k: nat) => k <= |text| && count(Middle(text, k)) <= target
  }

  lemma MiddleNone(text: string)
    ensures Middle(text, 0) == ELISION_MARKER
  {
  }

  /** A cut keeps the start and the end of the text around the marker, k characters in all, the odd one at the start. */
  lemma MiddleKeeps(text: string, k: nat)
    requires k <= |text|
    ensures var a, b := k - k / 2, k / 2;
            && a + b == k && b <= a <= b + 1
            && text[..a] + ELISION_MARKER <= Middle(text, k)
            && Middle(text, k)[a + |ELISION_MARKER|..] == text[|text| - b..]
  {
  }

  /** In particular the longest when keeping more characters never counts fewer tokens. */
  lemma MonotoneMiddle(text: string, target: int, count: string -> nat)
    requires forall i, j | 0 <= i <= j <= |text| :: count(Middle(text, i)) <= count(Middle(text, j))
    ensures !Misled(MiddleFits(text, target, count), 0, |text|)
  {
    hide Middle;
    MonotoneNeverMisleads(MiddleFits(text, target, count), 0, |text|);
  }

  /** What is left of a text that has to count at most the target. */
  ghost function CutTo(text: string, target: int, count: string -> nat): string {
    if count(text) <= target then text
    else if count(ELISION_MARKER) > target then ""
    else
      var k := Probe(MiddleFits(text, target, count), 0, |text|, 0);
      if k <= |text| then Middle(text, k) else ""
  }

  /** At most target tokens for every counter. The result is text itself when that fits, nothing when not even the
      marker does, and else a middle-out cut: the longest one that fits exactly when no probe misleads the search. */
  method TruncateMiddle(text: string, target: int, count: string -> nat) returns (r: string, tokens: nat)
    requires IsCounter(count) && target >= 0
    ensures tokens == count(r) <= target && r == CutTo(text, target, count)
    ensures count(text) <= target ==> r == text
    ensures count(text) > target ==> IsCut(text, r)
    ensures count(text) > target && count(ELISION_MARKER) > target ==> r == ""
    ensures count(text) > target >= count(ELISION_MARKER) ==>
              var fits := MiddleFits(text, target, count);
              var k := Probe(fits, 0, |text|, 0);
              && k <= |text| && r == Middle(text, k)
              && (IsLongest(fits, |text|, k) <==> !Misled(fits, 0, |text|))
  {
    hide Middle, Misled, IsLongest, Probe;
    if count(text) <= target {
      return text, count(text);
    }
    if count(ELISION_MARKER) > target {
      return "", 0;
    }
    ghost var fits := MiddleFits(text, target, count);
    MiddleNone(text);
    ProbeExact(fits, |text|);
    var lo, hi, best := 0, |text|, 0;
    while lo <= hi
      invariant 0 <= lo <= hi + 1 <= |text| + 1 && 0 <= best <= |text|
      invariant Probe(fits, lo, hi, best) == Probe(fits, 0, |text|, 0)
    {
      ProbeOnce(fits, lo, hi, best);
      var mid := (lo + hi) / 2;
      if count(Middle(text, mid)) <= target {
        best := mid;
        lo := mid + 1;
      } else {
        hi := mid - 1;
      }
    }
    ProbesSpent(fits, lo, hi, best);
    r := Middle(text, best);
    tokens := count(r);
  }

  /** A counter that keeping one character more can lower makes the code cut too much: nothing of the two characters is
      kept although both would fit around the marker. */
  method CutsTooMuch() returns (r: string, tokens: nat)
    ensures var count := GappyCount;
            && IsCounter(count) && r == Middle("ab", 0) && tokens <= 1 && count(Middle("ab", 2)) <= 1
  {
    GappyCounts();
    ghost var fits := MiddleFits("ab", 1, GappyCount);
    GapMisleads(fits);
    r, tokens := TruncateMiddle("ab", 1, GappyCount);
  }

  function GappyCount(s: string): nat {
    if s == "" then 0 else if s == "ab" || s == Middle("ab", 1) || s == Prefixed("ab", 1, true) then 2 else 1
  }

  lemma GappyCounts()
    ensures IsCounter(GappyCount) && GappyCount("ab") == 2
    ensures GappyCount(Middle("ab", 0)) == GappyCount(Middle("ab", 2)) == GappyCount(ELISION_MARKER) == 1
    ensures GappyCount(Middle("ab", 1)) == 2
    ensures GappyCount(Prefixed("ab", 0, true)) == GappyCount(Prefixed("ab", 2, true)) == 1
    ensures GappyCount(TRUNCATION_MARKER) == 1
    ensures GappyCount(Prefixed("ab", 1, true)) == 2
  {
    assert Middle("ab", 0) == ELISION_MARKER && Prefixed("ab", 0, true) == TRUNCATION_MARKER;
    assert |Middle("ab", 2)| == |ELISION_MARKER| + 2 && |Middle("ab", 1)| == |ELISION_MARKER| + 1;
    assert |Prefixed("ab", 2, true)| == |TRUNCATION_MARKER| + 2 && |Prefixed("ab", 1, true)| == |TRUNCATION_MARKER| + 1;
    assert Middle("ab", 2)[0] == 'a' && Prefixed("ab", 1, true)[0] == 'a'
           && TRUNCATION_MARKER[0] == ELISION_MARKER[0] == '\n';
  }

  function Prefixed(text: string, n: nat, withMarker: bool): string
    requires n <= |text|
  {
    text[..n] + if withMarker then TRUNCATION_MARKER else ""
  }

  /** Which prefixes fit the cap. */
  ghost function PrefixFits(text: string, cap: nat, count: string -> nat, withMarker: bool): nat -> bool {
    (n: nat) => n <= |text| && count(Prefixed(text, n, withMarker)) <= cap
  }

  lemma MonotonePrefix(text: string, cap: nat, count: string -> nat, withMarker: bool)
    requires forall i, j | 0 <= i <= j <= |text| ::
               count(Prefixed(text, i, withMarker)) <= count(Prefixed(text, j, withMarker))
    ensures !Misled(PrefixFits(text, cap, count, withMarker), 0, |text|)
  {
    hide Prefixed;
    MonotoneNeverMisleads(PrefixFits(text, cap, count, withMarker), 0, |text|);
  }

  /** The start of the text at the length the search settles on, then the marker whenever the marker itself fits. */
  ghost predicate IsCapped(text: string, cap: nat, count: string -> nat, kept: string) {
    var withMarker := count(TRUNCATION_MARKER) <= cap;
    var fits := PrefixFits(text, cap, count, withMarker);
    var n := Probe(fits, 0, |text|, 0);
    && n <= |text| && kept == text[..n] + (if withMarker then TRUNCATION_MARKER else "") && count(kept) <= cap
    && (IsLongest(fits, |text|, n) <==> !Misled(fits, 0, |text|))
  }

  /** Keeps a prefix of text within the cap, marked as truncated whenever the marker itself fits: the longest such one
      exactly when no probe misleads the search. */
  method TruncateToTokens(text: string, cap: nat, count: string -> nat) returns (kept: string, cut: bool)
    requires IsCounter(count)
    ensures count(kept) <= cap
    ensures cut <==> count(text) > cap
    ensures !cut ==> kept == text
    ensures cut ==> IsCapped(text, cap, count, kept)
  {
    hide Misled, IsLongest, Probe;
    if count(text) <= cap {
      return text, false;
    }
    var withMarker := count(TRUNCATION_MARKER) <= cap;
    ghost var fits := PrefixFits(text, cap, count, withMarker);
    assert Prefixed(text, 0, withMarker) == if withMarker then TRUNCATION_MARKER else "";
    ProbeExact(fits, |text|);
    var lo, hi, best := 0, |text|, 0;
    while lo <= hi
      invariant 0 <= lo <= hi + 1 <= |text| + 1 && 0 <= best <= |text|
      invariant Probe(fits, lo, hi, best) == Probe(fits, 0, |text|, 0)
    {
      ProbeOnce(fits, lo, hi, best);
      var mid := (lo + hi) / 2;
      if count(Prefixed(text, mid, withMarker)) <= cap {
        best := mid;
        lo := mid + 1;
      } else {
        hi := mid - 1;
      }
    }
    ProbesSpent(fits, lo, hi, best);
    kept := Prefixed(text, best, withMarker);
    cut := true;
  }

  /** The same gap in front of the truncation marker. */
  method CapsTooMuch() returns (kept: string, cut: bool)
    ensures var count := GappyCount;
            && IsCounter(count) && cut && kept == Prefixed("ab", 0, true) && count(Prefixed("ab", 2, true)) <= 1
  {
    GappyCounts();
    ghost var fits := PrefixFits("ab", 1, GappyCount, true);
    GapMisleads(fits);
    kept, cut := TruncateToTokens("ab", 1, GappyCount);
  }

  // ---------- assembly ----------

  datatype Source = Source(kind: string, name: string, pinned: bool, priority: int, maxTokens: Option<nat>,
                           skipMissing: bool)

  /** What resolving a source yielded: nothing, or text with a human-readable ref. */
  datatype Resolved = Missing(ref: string) | Text(ref: string, content: string)

  datatype AssemblyResult =
    | MissingSource(index: nat)
    | Assembly(entries: seq<Entry>, sources: seq<SourceReport>, preamble: string, tokens: nat)

  /** The per-source cap cuts this content; a pinned source has no cap. */
  ghost predicate Cuts(s: Source, content: string, count: string -> nat) {
    s.maxTokens.Some? && !s.pinned && count(content) > s.maxTokens.value
  }

  /** The entry of source i: its content whole, or within its cap. */
  ghost predicate EntryFor(i: nat, s: Source, content: Resolved, count: string -> nat, e: Entry) {
    && content.Text?
    && e == Entry(i, s.kind, s.name, content.ref, s.pinned, s.priority, e.content, count(e.content))
    && (if Cuts(s, content.content, count) then IsCapped(content.content, s.maxTokens.value, count, e.content)
        else e.content == content.content)
  }

  /** The report of source i. */
  ghost predicate ReportFor(i: nat, s: Source, content: Resolved, count: string -> nat, r: SourceReport) {
    r == SourceReport(i, s.kind, s.name, content.ref,
                      if content.Missing? then Skipped
                      else if Cuts(s, content.content, count) then Truncated else Included,
                      r.tokens, s.pinned)
  }

  /** One report per declared source, in order; an entry for each that was not skipped, reported with its count. */
  ghost predicate ReportsSources(entries: seq<Entry>, reports: seq<SourceReport>) {
    && (forall i | 0 <= i < |reports| :: reports[i].index == i && reports[i].status in {Included, Truncated, Skipped})
    && (forall e | e in entries :: 0 <= e.sourceIndex < |reports|
                                   && var r := reports[e.sourceIndex];
                                      r.status != Skipped && r.tokens == e.tokens && r.pinned == e.pinned)
    && (forall i | 0 <= i < |reports| && reports[i].status != Skipped :: exists e :: e in entries && e.sourceIndex == i)
  }

  /** Entries appear in declaration order. */
  ghost predicate InOrder(entries: seq<Entry>) {
    forall i, j | 0 <= i < j < |entries| :: entries[i].sourceIndex < entries[j].sourceIndex
  }

  lemma NothingBalances()
    ensures Balanced([], [])
  {
  }

  lemma BalanceSkips(entries: seq<Entry>, reports: seq<SourceReport>, r: SourceReport)
    requires Balanced(entries, reports) && r.tokens == 0
    ensures Balanced(entries, reports + [r])
  {
    ReportSumConcat(reports, [r]);
  }

  lemma BalanceGrows(entries: seq<Entry>, reports: seq<SourceReport>, e: Entry, r: SourceReport)
    requires Balanced(entries, reports) && e.tokens == r.tokens
    ensures Balanced(entries + [e], reports + [r])
  {
    TokenSumConcat(entries, [e]);
    ReportSumConcat(reports, [r]);
    assert TokenSum([e]) == ReportSum([r]);
  }

  lemma SkippedReport(i: nat, s: Source, content: Resolved, count: string -> nat)
    requires content.Missing?
    ensures ReportFor(i, s, content, count, SourceReport(i, s.kind, s.name, content.ref, Skipped, 0, s.pinned))
  {
  }

  lemma SourceEntry(i: nat, s: Source, content: Resolved, count: string -> nat, kept: string, status: Disposition)
    requires content.Text?
    requires if Cuts(s, content.content, count)
             then IsCapped(content.content, s.maxTokens.value, count, kept) && status == Truncated
             else kept == content.content && status == Included
    ensures EntryFor(i, s, content, count,
                     Entry(i, s.kind, s.name, content.ref, s.pinned, s.priority, kept, count(kept)))
    ensures ReportFor(i, s, content, count, SourceReport(i, s.kind, s.name, content.ref, status, count(kept), s.pinned))
  {
  }

  lemma EntryCounted(i: nat, s: Source, content: Resolved, count: string -> nat, e: Entry)
    requires EntryFor(i, s, content, count, e)
    ensures e.tokens == count(e.content)
  {
  }

  lemma KeptWhole(specs: seq<Source>, resolved: seq<Resolved>, count: string -> nat, entries: seq<Entry>,
                  reports: seq<SourceReport>, i: nat)
    requires i < |specs| == |resolved| == |reports| && ReportsSources(entries, reports) && resolved[i].Text?
    requires ReportFor(i, specs[i], resolved[i], count, reports[i]) && (specs[i].pinned || specs[i].maxTokens.None?)
    requires forall e | e in entries && e.sourceIndex == i :: EntryFor(i, specs[i], resolved[i], count, e)
    ensures exists e :: e in entries && e.sourceIndex == i && e.content == resolved[i].content
  {
  }

  /** Resolves the sources in declaration order; the first missing one without a skip policy fails the whole. */
  method Assemble(specs: seq<Source>, resolved: seq<Resolved>, count: string -> nat) returns (r: AssemblyResult)
    requires |specs| == |resolved| && IsCounter(count)
    ensures r.MissingSource? <==> exists i :: 0 <= i < |specs| && resolved[i].Missing? && !specs[i].skipMissing
    ensures r.MissingSource? ==>
              && r.index < |specs| && resolved[r.index].Missing? && !specs[r.index].skipMissing
              && forall j | 0 <= j < r.index :: resolved[j].Missing? ==> specs[j].skipMissing
    ensures r.Assembly? ==>
              && Assembled(count, r.entries) && InOrder(r.entries)
              && |r.sources| == |specs| && ReportsSources(r.entries, r.sources)
              && Balanced(r.entries, r.sources)
              && r.preamble == Render(r.entries) && Shows(r.preamble, r.entries) && r.tokens == count(r.preamble)
    ensures r.Assembly? ==> forall i | 0 <= i < |specs| :: ReportFor(i, specs[i], resolved[i], count, r.sources[i])
    ensures r.Assembly? ==>
              forall e | e in r.entries ::
                && 0 <= e.sourceIndex < |specs|
                && EntryFor(e.sourceIndex, specs[e.sourceIndex], resolved[e.sourceIndex], count, e)
    // A pinned or uncapped source is never cut.
    ensures r.Assembly? ==>
              forall i | 0 <= i < |specs| && resolved[i].Text? && (specs[i].pinned || specs[i].maxTokens.None?) ::
                exists e :: e in r.entries && e.sourceIndex == i && e.content == resolved[i].content
  {
    var entries: seq<Entry>, reports: seq<SourceReport> := [], [];
    NothingBalances();
    hide Balanced, IsCapped, EntryFor, ReportFor;
    for i := 0 to |specs|
      invariant forall j | 0 <= j < i :: resolved[j].Missing? ==> specs[j].skipMissing
      invariant |reports| == i && ReportsSources(entries, reports) && InOrder(entries) && Balanced(entries, reports)
      invariant forall j | 0 <= j < i :: ReportFor(j, specs[j], resolved[j], count, reports[j])
      invariant forall e | e in entries ::
                  && 0 <= e.sourceIndex < i
                  && EntryFor(e.sourceIndex, specs[e.sourceIndex], resolved[e.sourceIndex], count, e)
    {
      var s := specs[i];
      match resolved[i]
      case Missing(ref) =>
        if !s.skipMissing {
          return MissingSource(i);
        }
        var skipped := SourceReport(i, s.kind, s.name, ref, Skipped, 0, s.pinned);
        BalanceSkips(entries, reports, skipped);
        SkippedReport(i, s, resolved[i], count);
        reports := reports + [skipped];
      case Text(ref, whole) =>
        var content, status := whole, Included;
        if s.maxTokens.Some? && !s.pinned {
          var kept, cut := TruncateToTokens(whole, s.maxTokens.value, count);
          if cut {
            content, status := kept, Truncated;
          }
        }
        var entry := Entry(i, s.kind, s.name, ref, s.pinned, s.priority, content, count(content));
        var report := SourceReport(i, s.kind, s.name, ref, status, count(content), s.pinned);
        BalanceGrows(entries, reports, entry, report);
        SourceEntry(i, s, resolved[i], count, content, status);
        entries := entries + [entry];
        reports := reports + [report];
    }
    forall e | e in entries ensures e.sourceIndex >= 0 && e.tokens == count(e.content) {
      EntryCounted(e.sourceIndex, specs[e.sourceIndex], resolved[e.sourceIndex], count, e);
    }
    forall i | 0 <= i < |specs| && resolved[i].Text? && (specs[i].pinned || specs[i].maxTokens.None?)
      ensures exists e :: e in entries && e.sourceIndex == i && e.content == resolved[i].content
    {
      KeptWhole(specs, resolved, count, entries, reports, i);
    }
    RenderShows(entries);
    r := Assembly(entries, reports, Render(entries), count(Render(entries)));
  }
}
