/** What each compaction strategy does to the working set (internal/contextmgr/compact.go). */
module Strategies {
  import opened Counting
  import opened Contexts
  import opened Definitions
  import opened Truncation

  /** Counts the framed request for a preamble; None when the request cannot be built. */
  type Measure = string -> Option<int>

  ghost predicate FitsBudget(w: Work, budget: int, measure: Measure) {
    var m := measure(Render(Live(w)));
    m.Some? && m.value <= budget
  }

  /** Nothing is left for any strategy to act on. */
  ghost predicate Spent(w: Work) {
    forall i: nat :: !Droppable(w, i)
  }

  // ---------- dropping ----------

  function IndicesAt(w: Work, positions: set<nat>): set<int> {
    set i | i in positions && i < |w.entries| :: w.entries[i].sourceIndex
  }

  function DropAll(w: Work, positions: set<nat>): Work {
    w.(dropped := w.dropped + IndicesAt(w, positions))
  }

  lemma DroppableAfter(w: Work, positions: set<nat>, i: nat)
    requires DistinctSources(w.entries)
    ensures Droppable(DropAll(w, positions), i) <==> Droppable(w, i) && i !in positions
  {
    if i < |w.entries| && w.entries[i].sourceIndex in IndicesAt(w, positions) {
      var j :| j in positions && j < |w.entries| && w.entries[j].sourceIndex == w.entries[i].sourceIndex;
      assert i == j;
    }
  }

  lemma DropAllKeepsSound(count: string -> nat, base: seq<Entry>, w: Work, positions: set<nat>)
    requires Sound(count, base, w) && forall i | i in positions :: Droppable(w, i)
    ensures Sound(count, base, DropAll(w, positions))
  {
    forall e | e in w.entries && e.sourceIndex in IndicesAt(w, positions) ensures !e.pinned {
      var k :| 0 <= k < |w.entries| && w.entries[k] == e;
      var j :| j in positions && j < |w.entries| && w.entries[j].sourceIndex == e.sourceIndex;
      assert Droppable(w, j);
      assert j == k;
    }
    DropKeepsSound(count, base, w, IndicesAt(w, positions), map[]);
    assert w.summarizedInto + map[] == w.summarizedInto;
  }

  // ---------- sliding window ----------

  /** How many droppable entries stand at position i or later. */
  ghost function DroppableFrom(w: Work, i: nat): nat
    decreases |w.entries| - i
  {
    if i >= |w.entries| then 0 else DroppableFrom(w, i + 1) + if Droppable(w, i) then 1 else 0
  }

  /** Everything but the last n droppable entries. */
  ghost function OutsideWindow(w: Work, n: nat): set<nat> {
    set i | 0 <= i < |w.entries| && Droppable(w, i) && DroppableFrom(w, i + 1) >= n
  }

  /** live lists the droppable positions below k in order. */
  ghost predicate ListsDroppable(w: Work, live: seq<nat>, k: nat) {
    Ascending(live) && forall i: nat :: i in live <==> i < k && Droppable(w, i)
  }

  /** The j-th droppable entry has exactly the rest of the list behind it. */
  lemma {:induction false} BehindInList(w: Work, live: seq<nat>, j: nat)
    requires ListsDroppable(w, live, |w.entries|) && j < |live|
    ensures DroppableFrom(w, live[j] + 1) == |live| - j - 1
    decreases |live| - j
  {
    assert live[j] in live;
    if j == |live| - 1 {
      NoneBetween(w, live, j, live[j] + 1, |w.entries|);
    } else {
      BehindInList(w, live, j + 1);
      assert live[j + 1] in live;
      NoneBetween(w, live, j, live[j] + 1, live[j + 1]);
    }
  }

  /** Between two neighbours of the list nothing is droppable. */
  lemma {:induction false} NoneBetween(w: Work, live: seq<nat>, j: nat, from: nat, to: nat)
    requires ListsDroppable(w, live, |w.entries|) && j < |live| && live[j] < from <= to <= |w.entries|
    requires j + 1 < |live| ==> to <= live[j + 1]
    ensures DroppableFrom(w, from) == DroppableFrom(w, to)
    decreases |w.entries| - from
  {
    if from < to {
      NoneBetween(w, live, j, from + 1, to);
      forall k | 0 <= k < |live| ensures live[k] != from {
        assert k < j || k == j || k == j + 1 || live[j + 1] < live[k];
      }
    }
  }

  lemma WindowExact(w: Work, live: seq<nat>, n: nat)
    requires ListsDroppable(w, live, |w.entries|) && n <= |live|
    ensures OutsideWindow(w, n) == Elements(live[..|live| - n])
  {
    forall i | i in OutsideWindow(w, n) ensures i in live[..|live| - n] {
      var j :| 0 <= j < |live| && live[j] == i;
      BehindInList(w, live, j);
      assert live[..|live| - n][j] == i;
    }
    forall i | i in live[..|live| - n] ensures i in OutsideWindow(w, n) {
      var j :| 0 <= j < |live| - n && live[j] == i;
      assert live[j] in live;
      BehindInList(w, live, j);
    }
  }

  lemma WindowWide(w: Work, live: seq<nat>, n: nat)
    requires ListsDroppable(w, live, |w.entries|) && |live| <= n
    ensures OutsideWindow(w, n) == {}
  {
    forall i | 0 <= i < |w.entries| && Droppable(w, i) ensures DroppableFrom(w, i + 1) < n {
      var j :| 0 <= j < |live| && live[j] == i;
      BehindInList(w, live, j);
    }
  }

  // ---------- drop lowest priority ----------

  /** Entry i goes before entry j: lower priority first, later position first on a tie. */
  predicate Precedes(w: Work, i: nat, j: nat)
    requires i < |w.entries| && j < |w.entries|
  {
    w.entries[i].priority < w.entries[j].priority || (w.entries[i].priority == w.entries[j].priority && i > j)
  }

  /** A set of droppable positions that goes before every droppable position outside it. */
  ghost predicate IsSegment(w: Work, s: set<nat>) {
    && (forall i | i in s :: Droppable(w, i))
    && (forall i: nat, j: nat | i in s && Droppable(w, j) && j !in s :: Precedes(w, i, j))
  }

  /** Each position goes before all later ones of the list. */
  ghost predicate InEvictionOrder(w: Work, order: seq<nat>) {
    forall i, j | 0 <= i < j < |order| ::
      order[i] < |w.entries| && order[j] < |w.entries| && Precedes(w, order[i], order[j])
  }

  /** s is the shortest initial segment of the eviction order whose removal fits the budget, or all there is. */
  ghost predicate IsShortestFit(w: Work, s: set<nat>, budget: int, measure: Measure) {
    && IsSegment(w, s)
    && (FitsBudget(DropAll(w, s), budget, measure) || forall i: nat | Droppable(w, i) :: i in s)
    && TooShort(w, s, budget, measure)
  }

  ghost predicate TooShort(w: Work, s: set<nat>, budget: int, measure: Measure) {
    forall t: set<nat> | t < s && IsSegment(w, t) :: !FitsBudget(DropAll(w, t), budget, measure)
  }

  lemma SegmentGrows(w: Work, s: set<nat>, v: nat)
    requires DistinctSources(w.entries) && IsSegment(w, s) && Droppable(w, v) && v !in s
    requires forall j: nat | Droppable(w, j) && j !in s && j != v :: Precedes(w, v, j)
    ensures IsSegment(w, s + {v})
  {
  }

  /** Segments are nested: one short of s and its next victim lies within s. */
  lemma SegmentsNest(w: Work, s: set<nat>, v: nat, t: set<nat>)
    requires IsSegment(w, s) && Droppable(w, v) && v !in s
    requires IsSegment(w, t) && t < s + {v}
    ensures t <= s
  {
    if v in t {
      forall i | i in s ensures i in t {
        assert Precedes(w, i, v);
      }
    }
  }

  lemma StillTooShort(w: Work, s: set<nat>, v: nat, budget: int, measure: Measure)
    requires IsSegment(w, s) && Droppable(w, v) && v !in s
    requires TooShort(w, s, budget, measure) && !FitsBudget(DropAll(w, s), budget, measure)
    ensures TooShort(w, s + {v}, budget, measure)
  {
    hide IsSegment, FitsBudget;
    forall t: set<nat> | t < s + {v} && IsSegment(w, t) ensures !FitsBudget(DropAll(w, t), budget, measure) {
      SegmentsNest(w, s, v, t);
      assert t == s || t < s;
    }
  }

  // ---------- truncate oldest ----------

  /** No droppable entry is above the floor. */
  ghost predicate AtFloor(w: Work, floor: nat) {
    forall i: nat | Droppable(w, i) :: w.entries[i].tokens <= floor
  }

  /** Entry i was open to truncation above the floor and lost tokens, nothing else. */
  ghost predicate Shrunk(before: Work, after: Work, i: nat, floor: nat)
    requires |before.entries| == |after.entries|
  {
    && Droppable(before, i) && before.entries[i].tokens > floor
    && after.entries[i] == before.entries[i].(content := after.entries[i].content, tokens := after.entries[i].tokens)
    && after.entries[i].tokens < before.entries[i].tokens
    && CutDown(before.entries[i].content, after.entries[i].content)
    && after.entries[i].sourceIndex in after.truncated
  }

  /** The effect of truncation: unpinned entries above the floor shrink, oldest first, and are marked. */
  ghost predicate TruncatesOldest(before: Work, after: Work, floor: nat) {
    && |after.entries| == |before.entries|
    && after == before.(entries := after.entries, truncated := after.truncated)
    && before.truncated <= after.truncated
    && (forall i: nat | i < |before.entries| && after.entries[i] != before.entries[i] ::
          Shrunk(before, after, i, floor))
    && (forall i: nat, j: nat
          | j < i < |before.entries| && after.entries[i] != before.entries[i] && Droppable(before, j) ::
          after.entries[j].tokens <= floor)
    && (forall x | x in after.truncated - before.truncated ::
          exists i: nat ::
            i < |before.entries| && after.entries[i] != before.entries[i] && before.entries[i].sourceIndex == x)
  }

  function ShrinkAt(w: Work, i: nat, content: string, tokens: nat): Work
    requires i < |w.entries|
  {
    w.(entries := w.entries[i := w.entries[i].(content := content, tokens := tokens)],
       truncated := w.truncated + {w.entries[i].sourceIndex})
  }

  /** The oldest droppable entry above the floor. */
  ghost predicate IsOldestAbove(w: Work, i: nat, floor: nat) {
    && Droppable(w, i) && w.entries[i].tokens > floor
    && forall j: nat | j < i && Droppable(w, j) :: w.entries[j].tokens <= floor
  }

  /** One round: while the request is over budget, the oldest entry above the floor is cut by the overrun, though not
      below the floor. */
  ghost predicate IsRound(budget: int, floor: nat, count: string -> nat, measure: Measure, w: Work, after: Work) {
    var total := measure(Render(Live(w)));
    && total.Some? && total.value > budget
    && exists i: nat :: IsOldestAbove(w, i, floor) && CutsAt(w, i, total.value - budget, floor, count, after)
  }

  ghost predicate CutsAt(w: Work, i: nat, over: int, floor: nat, count: string -> nat, after: Work)
    requires i < |w.entries|
  {
    var aim := w.entries[i].tokens - over;
    var text := CutTo(w.entries[i].content, if aim < floor then floor else aim, count);
    after == ShrinkAt(w, i, text, count(text))
  }

  ghost predicate AreRounds(budget: int, floor: nat, count: string -> nat, measure: Measure, rounds: seq<Work>) {
    && rounds != []
    && forall i, j | 0 <= i < j < |rounds| && j == i + 1 :: IsRound(budget, floor, count, measure, rounds[i], rounds[j])
  }

  lemma NoRounds(budget: int, floor: nat, count: string -> nat, measure: Measure, w: Work)
    ensures AreRounds(budget, floor, count, measure, [w])
  {
  }

  lemma NextRound(budget: int, floor: nat, count: string -> nat, measure: Measure, rounds: seq<Work>, i: nat,
                  after: Work)
    requires AreRounds(budget, floor, count, measure, rounds)
    requires var w := rounds[|rounds| - 1];
             && measure(Render(Live(w))).Some? && measure(Render(Live(w))).value > budget && IsOldestAbove(w, i, floor)
             && CutsAt(w, i, measure(Render(Live(w))).value - budget, floor, count, after)
    ensures AreRounds(budget, floor, count, measure, rounds + [after])
  {
    hide CutsAt, IsOldestAbove;
    assert IsRound(budget, floor, count, measure, rounds[|rounds| - 1], after);
    hide IsRound;
    var more := rounds + [after];
    forall a, b | 0 <= a < b < |more| && b == a + 1 ensures IsRound(budget, floor, count, measure, more[a], more[b]) {
      assert b < |rounds| ==> IsRound(budget, floor, count, measure, rounds[a], rounds[b]);
    }
  }

  lemma TruncatesNothing(w: Work, floor: nat)
    ensures TruncatesOldest(w, w, floor)
  {
  }

  /** Shrinking the oldest entry above the floor extends a truncation run by one step. */
  lemma TruncateStep(before: Work, w: Work, i: nat, content: string, tokens: nat, floor: nat)
    requires TruncatesOldest(before, w, floor) && Droppable(w, i)
    requires w.entries[i].tokens > floor && tokens < w.entries[i].tokens && IsCut(w.entries[i].content, content)
    requires forall j: nat | j < i && Droppable(w, j) :: w.entries[j].tokens <= floor
    ensures TruncatesOldest(before, ShrinkAt(w, i, content, tokens), floor)
  {
    hide CutDown, IsCut;
    var after := ShrinkAt(w, i, content, tokens);
    assert w.entries[i] != before.entries[i] ==> Shrunk(before, w, i, floor);
    if w.entries[i] == before.entries[i] {
      CutNothing(before.entries[i].content);
    }
    CutOnceMore(before.entries[i].content, w.entries[i].content, content);
    forall k: nat | k < |before.entries| && after.entries[k] != before.entries[k]
      ensures Shrunk(before, after, k, floor)
    {
      assert w.entries[k] != before.entries[k] ==> Shrunk(before, w, k, floor);
    }
    forall j: nat | j < |before.entries| ensures Droppable(before, j) <==> Droppable(w, j) {
      assert w.entries[j] != before.entries[j] ==> Shrunk(before, w, j, floor);
    }
    forall x | x in after.truncated - before.truncated
      ensures exists k: nat ::
                k < |before.entries| && after.entries[k] != before.entries[k] && before.entries[k].sourceIndex == x
    {
      assert w.entries[i] != before.entries[i] ==> Shrunk(before, w, i, floor);
      if x != w.entries[i].sourceIndex {
        assert x in w.truncated - before.truncated;
        var k: nat :| k < |before.entries| && w.entries[k] != before.entries[k] && before.entries[k].sourceIndex == x;
        assert Shrunk(before, w, k, floor);
        assert k != i;
      }
    }
  }

  lemma ShrinkEvolves(before: Work, after: Work, floor: nat)
    requires TruncatesOldest(before, after, floor)
    ensures forall i | 0 <= i < |before.entries| :: Evolved(before.entries[i], after.entries[i], after.truncated)
  {
    forall i: nat | i < |before.entries| ensures Evolved(before.entries[i], after.entries[i], after.truncated) {
      assert after.entries[i] != before.entries[i] ==> Shrunk(before, after, i, floor);
    }
  }

  lemma KeepsTransfers(base: seq<Entry>, before: Work, after: Work)
    requires Keeps(base, before) && before.truncated <= after.truncated
    requires |before.entries| == |after.entries|
    requires forall i | 0 <= i < |before.entries| :: Evolved(before.entries[i], after.entries[i], after.truncated)
    ensures Keeps(base, after)
  {
    OriginalsEvolve(before.entries, after.entries, after.truncated);
    forall i | 0 <= i < |base| ensures Evolved(base[i], Originals(after.entries)[i], after.truncated) {
      assert Evolved(base[i], Originals(before.entries)[i], before.truncated);
    }
  }

  lemma SameSources(before: Work, after: Work, floor: nat)
    requires TruncatesOldest(before, after, floor) && DistinctSources(before.entries)
    ensures DistinctSources(after.entries)
    ensures forall e | e in after.entries ::
              exists b :: b in before.entries && b.sourceIndex == e.sourceIndex && b.pinned == e.pinned
  {
    ShrinkEvolves(before, after, floor);
    forall e | e in after.entries
      ensures exists b :: b in before.entries && b.sourceIndex == e.sourceIndex && b.pinned == e.pinned
    {
      var i: nat :| i < |after.entries| && after.entries[i] == e;
      assert Evolved(before.entries[i], after.entries[i], after.truncated);
      assert before.entries[i] in before.entries;
    }
    forall i, j | 0 <= i < j < |after.entries| ensures after.entries[i].sourceIndex != after.entries[j].sourceIndex {
      assert Evolved(before.entries[i], after.entries[i], after.truncated);
      assert Evolved(before.entries[j], after.entries[j], after.truncated);
    }
  }

  lemma TruncatedKnown(before: Work, after: Work, floor: nat)
    requires TruncatesOldest(before, after, floor)
    ensures after == before.(entries := after.entries, truncated := after.truncated)
    ensures forall x | x in after.truncated ::
              x in before.truncated || exists b :: b in before.entries && b.sourceIndex == x
  {
    forall x | x in after.truncated && x !in before.truncated
      ensures exists b :: b in before.entries && b.sourceIndex == x
    {
      assert x in after.truncated - before.truncated;
      var i: nat :| i < |before.entries| && after.entries[i] != before.entries[i] && before.entries[i].sourceIndex == x;
      assert before.entries[i] in before.entries;
    }
  }

  lemma TruncationKeepsSound(count: string -> nat, base: seq<Entry>, before: Work, after: Work, floor: nat)
    requires Sound(count, base, before) && TruncatesOldest(before, after, floor)
    requires forall e | e in after.entries :: e.tokens == count(e.content)
    ensures Sound(count, base, after)
  {
    TruncationKeepsAll(base, before, after, floor);
    hide Keeps, TruncatesOldest, DistinctSources;
    SameSources(before, after, floor);
    TruncatedKnown(before, after, floor);
  }

  lemma TruncationKeepsAll(base: seq<Entry>, before: Work, after: Work, floor: nat)
    requires Keeps(base, before) && TruncatesOldest(before, after, floor)
    ensures Keeps(base, after)
  {
    ShrinkEvolves(before, after, floor);
    KeepsTransfers(base, before, after);
  }
}
