/** Cycle detection by iterative three-colour depth-first search (internal/dag/graph.go). */
module Cycles {
  import opened Walks
  import opened Counting
  import opened Definitions
  import opened Graphs

  datatype Color = White | Gray | Black

  /** A step on the current path and the position of its next unexplored out-edge. */
  datatype Frame = Frame(step: nat, next: nat)

  datatype Finding = Finding(edge: nat, path: seq<string>)

  function Outs(g: Graph, v: nat): seq<nat> {
    if v < |g.outNormal| then g.outNormal[v] else []
  }

  ghost predicate NormalEdge(def: Definition, e: nat) {
    e < |def.edges| && !def.edges[e].IsLoop()
  }

  /** The path is a closed normal-edge walk without inner repetition, and the edge closes it. */
  ghost predicate IsCycleFinding(def: Definition, f: Finding) {
    && NormalEdge(def, f.edge)
    && |f.path| >= 2
    && IsWalk(Pairs(def.edges), f.path)
    && f.path[0] == f.path[|f.path| - 1] == def.edges[f.edge].to
    && f.path[|f.path| - 2] == def.edges[f.edge].from
    && Distinct(f.path[..|f.path| - 1])
  }

  /** The first declared step is searched from first, so it can only be where a reported cycle closes. */
  ghost predicate ClosesAtFirst(def: Definition, f: Finding) {
    |def.steps| > 0 && |f.path| > 0 && def.steps[0].id in f.path ==> f.path[0] == def.steps[0].id
  }

  ghost function Reported(findings: seq<Finding>): set<nat> {
    set f | f in findings :: f.edge
  }

  /** The normal edges left once the reported ones are deleted. */
  ghost function Unreported(def: Definition, reported: set<nat>): set<(string, string)> {
    set e | 0 <= e < |def.edges| && NormalEdge(def, e) && e !in reported :: (def.edges[e].from, def.edges[e].to)
  }

  /** Every finding is a genuine cycle, the list is empty exactly on acyclic graphs,
      and deleting the reported edges leaves an acyclic graph. */
  ghost predicate IsSearchResult(def: Definition, findings: seq<Finding>) {
    && (forall f | f in findings :: IsCycleFinding(def, f) && ClosesAtFirst(def, f))
    && (findings == [] <==> Acyclic(Pairs(def.edges)))
    && Acyclic(Unreported(def, Reported(findings)))
  }

  ghost predicate Genuine(g: Graph, f: Finding) {
    IsCycleFinding(g.def, f) && ClosesAtFirst(g.def, f)
  }

  // ---------- the search state ----------

  ghost predicate OnStack(stack: seq<Frame>, v: nat) {
    exists i :: 0 <= i < |stack| && stack[i].step == v
  }

  /** Gray steps are those on the stack, black ones those finished. */
  ghost predicate Colored(g: Graph, color: seq<Color>, stack: seq<Frame>, finished: seq<nat>) {
    && |color| == g.Size()
    && Distinct(finished)
    && (forall v | v in finished :: v < g.Size())
    && (forall v: nat | v < g.Size() :: color[v] == Black <==> v in finished)
    && (forall v: nat | v < g.Size() :: color[v] == Gray <==> OnStack(stack, v))
    && (forall i | 0 <= i < |stack| :: stack[i].step < g.Size() && stack[i].next <= |Outs(g, stack[i].step)|)
    && (forall i, j | 0 <= i < j < |stack| :: stack[i].step != stack[j].step)
    && (forall i | 0 < i < |stack| :: stack[i].step != 0)
    && (stack != [] && |color| > 0 ==> color[0] != White)
  }

  /** The edge frame a explored last leads to frame b. */
  ghost predicate Leads(g: Graph, a: Frame, b: Frame) {
    1 <= a.next <= |Outs(g, a.step)| && g.To(Outs(g, a.step)[a.next - 1]) == b.step
  }

  ghost predicate Chained(g: Graph, stack: seq<Frame>) {
    forall i, j | 0 <= i < j < |stack| && j == i + 1 :: Leads(g, stack[i], stack[j])
  }

  /** Every edge out of a finished step is reported or leads to an earlier finished step. */
  ghost predicate FinishedDown(g: Graph, finished: seq<nat>, reported: set<nat>) {
    forall j, e | 0 <= j < |finished| && e in Outs(g, finished[j]) :: e in reported || g.To(e) in finished[..j]
  }

  /** Every explored edge of a stacked step is reported, leads to a finished step, or to the next frame. */
  ghost predicate ExploredDown(g: Graph, stack: seq<Frame>, finished: seq<nat>, reported: set<nat>) {
    forall i, k | 0 <= i < |stack| && 0 <= k < stack[i].next && k < |Outs(g, stack[i].step)| ::
      var e := Outs(g, stack[i].step)[k];
      || e in reported
      || g.To(e) in finished
      || (i + 1 < |stack| && g.To(e) == stack[i + 1].step)
  }

  ghost predicate Searching(g: Graph, color: seq<Color>, stack: seq<Frame>, finished: seq<nat>, reported: set<nat>) {
    && Colored(g, color, stack, finished)
    && Chained(g, stack)
    && FinishedDown(g, finished, reported)
    && ExploredDown(g, stack, finished, reported)
  }

  // ---------- the four moves of the search ----------

  lemma Enter(g: Graph, color: seq<Color>, finished: seq<nat>, reported: set<nat>, root: nat)
    requires Searching(g, color, [], finished, reported) && root < g.Size() && color[root] == White
    requires root == 0 || color[0] != White
    ensures Searching(g, color[root := Gray], [Frame(root, 0)], finished, reported)
  {
    var stack := [Frame(root, 0)];
    forall v: nat | v < g.Size() ensures color[root := Gray][v] == Gray <==> OnStack(stack, v) {
      assert stack[0].step == root;
      assert v != root ==> !OnStack([], v);
    }
  }

  lemma Pop(g: Graph, color: seq<Color>, stack: seq<Frame>, finished: seq<nat>, reported: set<nat>)
    requires Searching(g, color, stack, finished, reported) && stack != []
    requires stack[|stack| - 1].next == |Outs(g, stack[|stack| - 1].step)|
    ensures stack[|stack| - 1].step < |color|
    ensures Searching(g, color[stack[|stack| - 1].step := Black], stack[..|stack| - 1],
                      finished + [stack[|stack| - 1].step], reported)
  {
    var top, rest := stack[|stack| - 1].step, stack[..|stack| - 1];
    PopColored(g, color, stack, finished);
    forall j, e | 0 <= j < |finished + [top]| && e in Outs(g, (finished + [top])[j])
      ensures e in reported || g.To(e) in (finished + [top])[..j]
    {
      if j < |finished| {
        assert (finished + [top])[..j] == finished[..j];
      } else {
        assert (finished + [top])[..j] == finished;
        var k :| 0 <= k < |Outs(g, top)| && Outs(g, top)[k] == e;
      }
    }
    assert forall i | 0 <= i < |rest| :: rest[i] == stack[i];
  }

  lemma PopColored(g: Graph, color: seq<Color>, stack: seq<Frame>, finished: seq<nat>)
    requires Colored(g, color, stack, finished) && stack != []
    ensures stack[|stack| - 1].step < |color|
    ensures Colored(g, color[stack[|stack| - 1].step := Black], stack[..|stack| - 1],
                    finished + [stack[|stack| - 1].step])
  {
    var top, rest := stack[|stack| - 1].step, stack[..|stack| - 1];
    assert OnStack(stack, top);
    DistinctAppend(finished, top);
    forall v: nat | v < g.Size() ensures color[top := Black][v] == Gray <==> OnStack(rest, v) {
      if v != top && OnStack(stack, v) {
        var i :| 0 <= i < |stack| && stack[i].step == v;
        assert rest[i].step == v;
      }
      if OnStack(rest, v) {
        var i :| 0 <= i < |rest| && rest[i].step == v;
        assert stack[i].step == v;
      }
    }
  }

  /** Moving past the top frame's next edge, once it is reported or leads to a finished step. */
  lemma Advance(g: Graph, color: seq<Color>, stack: seq<Frame>, finished: seq<nat>, reported: set<nat>, more: set<nat>)
    requires Searching(g, color, stack, finished, reported) && stack != [] && reported <= more
    requires var top := stack[|stack| - 1];
             && top.next < |Outs(g, top.step)|
             && (Outs(g, top.step)[top.next] in more || g.To(Outs(g, top.step)[top.next]) in finished)
    ensures Searching(g, color, Stepped(stack), finished, more)
  {
    SteppedColored(g, color, stack, finished);
    SteppedChained(g, stack);
    var next := Stepped(stack);
    forall i, k | 0 <= i < |next| && 0 <= k < next[i].next && k < |Outs(g, next[i].step)|
      ensures var e := Outs(g, next[i].step)[k];
              e in more || g.To(e) in finished || (i + 1 < |next| && g.To(e) == next[i + 1].step)
    {
      assert next[i].step == stack[i].step;
      if k < stack[i].next {
        assert i + 1 < |stack| ==> next[i + 1].step == stack[i + 1].step;
      }
    }
  }

  /** The stack with the top frame moved on by one edge. */
  function Stepped(stack: seq<Frame>): seq<Frame>
    requires stack != []
  {
    var top := stack[|stack| - 1];
    stack[|stack| - 1 := Frame(top.step, top.next + 1)]
  }

  lemma SteppedColored(g: Graph, color: seq<Color>, stack: seq<Frame>, finished: seq<nat>)
    requires Colored(g, color, stack, finished) && stack != []
    requires stack[|stack| - 1].next < |Outs(g, stack[|stack| - 1].step)|
    ensures Colored(g, color, Stepped(stack), finished)
  {
    forall v: nat ensures OnStack(Stepped(stack), v) <==> OnStack(stack, v) {
      if OnStack(stack, v) {
        var i :| 0 <= i < |stack| && stack[i].step == v;
        assert Stepped(stack)[i].step == v;
      }
    }
  }

  lemma SteppedChained(g: Graph, stack: seq<Frame>)
    requires Chained(g, stack) && stack != []
    ensures Chained(g, Stepped(stack))
  {
    forall i, j | 0 <= i < j < |stack| && j == i + 1 ensures Leads(g, Stepped(stack)[i], Stepped(stack)[j]) {
      assert Leads(g, stack[i], stack[j]);
    }
  }

  lemma PushChained(g: Graph, stack: seq<Frame>, frame: Frame)
    requires Chained(g, stack) && stack != [] && Leads(g, stack[|stack| - 1], frame)
    ensures Chained(g, stack + [frame])
  {
    var next := stack + [frame];
    forall i, j | 0 <= i < j < |next| && j == i + 1 ensures Leads(g, next[i], next[j]) {
      assert j < |stack| ==> Leads(g, stack[i], stack[j]);
    }
  }

  lemma Push(g: Graph, color: seq<Color>, stack: seq<Frame>, finished: seq<nat>, reported: set<nat>, t: nat)
    requires Searching(g, color, stack, finished, reported) && stack != []
    requires var top := stack[|stack| - 1];
             top.next < |Outs(g, top.step)| && t == g.To(Outs(g, top.step)[top.next])
    requires t < g.Size() && color[t] == White
    ensures Searching(g, color[t := Gray], Stepped(stack) + [Frame(t, 0)], finished, reported)
  {
    SteppedColored(g, color, stack, finished);
    PushColored(g, color, Stepped(stack), finished, t);
    SteppedChained(g, stack);
    PushChained(g, Stepped(stack), Frame(t, 0));
    PushExplored(g, stack, finished, reported, t);
  }

  lemma PushExplored(g: Graph, stack: seq<Frame>, finished: seq<nat>, reported: set<nat>, t: nat)
    requires ExploredDown(g, stack, finished, reported) && stack != []
    requires var top := stack[|stack| - 1];
             top.next < |Outs(g, top.step)| && t == g.To(Outs(g, top.step)[top.next])
    ensures ExploredDown(g, Stepped(stack) + [Frame(t, 0)], finished, reported)
  {
    var next := Stepped(stack) + [Frame(t, 0)];
    forall i, k | 0 <= i < |next| && 0 <= k < next[i].next && k < |Outs(g, next[i].step)|
      ensures var e := Outs(g, next[i].step)[k];
              e in reported || g.To(e) in finished || (i + 1 < |next| && g.To(e) == next[i + 1].step)
    {
      assert next[i].step == stack[i].step;
      if k < stack[i].next {
        assert i + 1 < |stack| ==> next[i + 1].step == stack[i + 1].step;
      }
    }
  }

  lemma PushColored(g: Graph, color: seq<Color>, stack: seq<Frame>, finished: seq<nat>, t: nat)
    requires Colored(g, color, stack, finished) && stack != [] && t < g.Size() && color[t] == White
    ensures Colored(g, color[t := Gray], stack + [Frame(t, 0)], finished)
  {
    var next := stack + [Frame(t, 0)];
    assert next[|stack|].step == t;
    assert !OnStack(stack, t);
    forall v: nat | v < g.Size() ensures color[t := Gray][v] == Gray <==> OnStack(next, v) {
      if OnStack(stack, v) {
        var i :| 0 <= i < |stack| && stack[i].step == v;
        assert next[i].step == v;
      }
      if v != t && OnStack(next, v) {
        var i :| 0 <= i < |next| && next[i].step == v;
        assert stack[i].step == v;
      }
    }
  }

  // ---------- soundness of one finding ----------

  function StackIds(g: Graph, frames: seq<Frame>): seq<string> {
    seq(|frames|, k requires 0 <= k < |frames| => g.IdAt(frames[k].step))
  }

  /** The step ids on the stack from frame i to the top, closed back to frame i. */
  function CyclePath(g: Graph, stack: seq<Frame>, i: nat): seq<string>
    requires i < |stack|
  {
    StackIds(g, stack[i..]) + [g.IdAt(stack[i].step)]
  }

  lemma OutIsEdge(g: Graph, v: nat, k: nat)
    requires g.Valid() && v < g.Size() && k < |Outs(g, v)|
    ensures var e := Outs(g, v)[k];
            && g.Normal(e) && g.From(e) == v && g.To(e) < g.Size()
            && g.def.edges[e].from == g.IdAt(v) && g.def.edges[e].to == g.IdAt(g.To(e))
            && (g.IdAt(v), g.IdAt(g.To(e))) in g.Relation()
  {
    g.AdjacencyExact(v);
    assert Outs(g, v)[k] in g.outNormal[v];
  }

  lemma StackIdsWalk(g: Graph, frames: seq<Frame>)
    requires g.Valid() && Chained(g, frames) && frames != []
    requires forall i | 0 <= i < |frames| :: frames[i].step < g.Size()
    ensures IsWalk(g.Relation(), StackIds(g, frames))
  {
    var p := StackIds(g, frames);
    forall a, b | 0 <= a < b < |p| && b == a + 1 ensures (p[a], p[b]) in g.Relation() {
      assert Leads(g, frames[a], frames[b]);
      OutIsEdge(g, frames[a].step, frames[a].next - 1);
    }
  }

  lemma StackIdsDistinct(g: Graph, frames: seq<Frame>)
    requires g.Valid()
    requires forall i | 0 <= i < |frames| :: frames[i].step < g.Size()
    requires forall i, j | 0 <= i < j < |frames| :: frames[i].step != frames[j].step
    ensures Distinct(StackIds(g, frames))
  {
    var p := StackIds(g, frames);
    forall a, b | 0 <= a < b < |p| ensures p[a] != p[b] {
      assert g.IndexOf(p[a]) == frames[a].step && g.IndexOf(p[b]) == frames[b].step;
    }
  }

  lemma SuffixChained(g: Graph, stack: seq<Frame>, i: nat)
    requires Chained(g, stack) && i <= |stack|
    ensures Chained(g, stack[i..])
  {
    var rest := stack[i..];
    forall a, b | 0 <= a < b < |rest| && b == a + 1 ensures Leads(g, rest[a], rest[b]) {
      assert Leads(g, stack[i + a], stack[i + b]);
    }
  }

  lemma FirstOnlyCloses(g: Graph, stack: seq<Frame>, i: nat)
    requires g.Valid() && i < |stack|
    requires forall i | 0 <= i < |stack| :: stack[i].step < g.Size()
    requires forall i | 0 < i < |stack| :: stack[i].step != 0
    ensures g.IdAt(0) in CyclePath(g, stack, i) ==> CyclePath(g, stack, i)[0] == g.IdAt(0)
  {
    var p := CyclePath(g, stack, i);
    forall k | 0 < k < |p| - 1 ensures p[k] != g.IdAt(0) {
      assert g.IndexOf(p[k]) == stack[i + k].step;
    }
  }

  lemma CyclePathSound(g: Graph, stack: seq<Frame>, i: nat, e: nat)
    requires g.Valid() && Chained(g, stack) && i < |stack|
    requires forall i | 0 <= i < |stack| :: stack[i].step < g.Size()
    requires forall i, j | 0 <= i < j < |stack| :: stack[i].step != stack[j].step
    requires forall i | 0 < i < |stack| :: stack[i].step != 0
    requires var top := stack[|stack| - 1]; top.next < |Outs(g, top.step)| && Outs(g, top.step)[top.next] == e
    requires g.To(e) == stack[i].step
    ensures Genuine(g, Finding(e, CyclePath(g, stack, i)))
  {
    hide Graph.Valid, Chained, StackIds;
    var ids := StackIds(g, stack[i..]);
    SuffixChained(g, stack, i);
    StackIdsWalk(g, stack[i..]);
    StackIdsDistinct(g, stack[i..]);
    StackEnds(g, stack, i);
    OutIsEdge(g, stack[|stack| - 1].step, stack[|stack| - 1].next);
    FirstOnlyCloses(g, stack, i);
    ClosedWalk(g.Relation(), ids);
  }

  lemma StackEnds(g: Graph, stack: seq<Frame>, i: nat)
    requires i < |stack|
    ensures var ids := StackIds(g, stack[i..]);
            && ids != [] && ids[0] == g.IdAt(stack[i].step) && ids[|ids| - 1] == g.IdAt(stack[|stack| - 1].step)
            && CyclePath(g, stack, i) == ids + [ids[0]]
  {
  }

  /** A walk whose last step has an edge to its first closes into a longer walk. */
  lemma ClosedWalk(edges: set<(string, string)>, ids: seq<string>)
    requires ids != [] && IsWalk(edges, ids) && (ids[|ids| - 1], ids[0]) in edges
    ensures IsWalk(edges, ids + [ids[0]]) && (ids + [ids[0]])[..|ids|] == ids
  {
    var p := ids + [ids[0]];
    forall a, b | 0 <= a < b < |p| && b == a + 1 ensures (p[a], p[b]) in edges {
      if b < |p| - 1 {
        assert (ids[a], ids[b]) in edges;
      }
    }
  }

  // ---------- termination ----------

  ghost function Whites(color: seq<Color>): set<nat> {
    set v | 0 <= v < |color| && color[v] == White
  }

  lemma Recolored(color: seq<Color>, v: nat, c: Color)
    requires v < |color| && c != White
    ensures color[v] == White ==> |Whites(color[v := c])| < |Whites(color)|
    ensures Whites(color[v := c]) == Whites(color) - {v}
    ensures color[v] != White ==> Whites(color[v := c]) == Whites(color)
  {
    assert Whites(color[v := c]) == Whites(color) - {v};
    if color[v] == White {
      assert v in Whites(color);
    } else {
      assert v !in Whites(color);
    }
  }

  /** Out-edges the stacked steps have yet to explore. */
  ghost function Todo(g: Graph, stack: seq<Frame>): nat {
    if stack == [] then 0
    else
      var top := stack[|stack| - 1];
      var left := |Outs(g, top.step)| - top.next;
      Todo(g, stack[..|stack| - 1]) + if left > 0 then left else 0
  }

  lemma TodoStepped(g: Graph, stack: seq<Frame>)
    requires stack != [] && stack[|stack| - 1].next < |Outs(g, stack[|stack| - 1].step)|
    ensures Todo(g, Stepped(stack)) < Todo(g, stack)
  {
    assert Stepped(stack)[..|stack| - 1] == stack[..|stack| - 1];
  }

  // ---------- the search ----------

  /** One finding per back edge. The list is empty exactly on acyclic graphs, and deleting the reported edges
      always leaves an acyclic graph. */
  method FindCycles(g: Graph) returns (findings: seq<Finding>)
    requires g.Valid()
    ensures IsSearchResult(g.def, findings)
  {
    findings := [];
    var color := seq(g.Size(), i => White);
    ghost var finished: seq<nat> := [];
    for root := 0 to g.Size()
      invariant Searching(g, color, [], finished, Reported(findings))
      invariant forall f | f in findings :: Genuine(g, f)
      invariant forall v | v in Whites(color) :: root <= v
    {
      if color[root] == White {
        assert 0 in Whites(color) <==> color[0] == White;
        color, findings, finished := Explore(g, root, color, findings, finished);
      }
    }
    Conclude(g, color, findings, finished);
  }

  /** The depth-first search from one white root. */
  method Explore(g: Graph, root: nat, colors: seq<Color>, found: seq<Finding>, ghost done: seq<nat>)
    returns (color: seq<Color>, findings: seq<Finding>, ghost finished: seq<nat>)
    requires g.Valid() && root < g.Size()
    requires Searching(g, colors, [], done, Reported(found)) && colors[root] == White
    requires root == 0 || colors[0] != White
    requires forall f | f in found :: Genuine(g, f)
    ensures Searching(g, color, [], finished, Reported(findings))
    ensures forall f | f in findings :: Genuine(g, f)
    ensures Whites(color) <= Whites(colors) - {root}
  {
    Enter(g, colors, done, Reported(found), root);
    color, findings, finished := colors[root := Gray], found, done;
    var stack := [Frame(root, 0)];
    while |stack| > 0
      invariant Searching(g, color, stack, finished, Reported(findings))
      invariant forall f | f in findings :: Genuine(g, f)
      invariant Whites(color) <= Whites(colors) - {root}
      decreases |Whites(color)|, Todo(g, stack), |stack|
    {
      var top := stack[|stack| - 1];
      if top.next == |Outs(g, top.step)| {
        Pop(g, color, stack, finished, Reported(findings));
        PopLeavesWhites(g, color, stack, finished);
        color, stack, finished := color[top.step := Black], stack[..|stack| - 1], finished + [top.step];
      } else {
        color, stack, findings := Follow(g, color, stack, findings, finished);
      }
    }
  }

  /** Explores the top frame's next edge: descend into a white step, report a gray one, pass by a black one. */
  method Follow(g: Graph, colors: seq<Color>, frames: seq<Frame>, found: seq<Finding>, ghost finished: seq<nat>)
    returns (color: seq<Color>, stack: seq<Frame>, findings: seq<Finding>)
    requires g.Valid() && frames != [] && frames[|frames| - 1].next < |Outs(g, frames[|frames| - 1].step)|
    requires Searching(g, colors, frames, finished, Reported(found))
    requires forall f | f in found :: Genuine(g, f)
    ensures Searching(g, color, stack, finished, Reported(findings))
    ensures forall f | f in findings :: Genuine(g, f)
    ensures Whites(color) <= Whites(colors)
    ensures |Whites(color)| < |Whites(colors)| || (Whites(color) == Whites(colors) && Todo(g, stack) < Todo(g, frames))
  {
    var top := frames[|frames| - 1];
    var e := Outs(g, top.step)[top.next];
    var t := g.To(e);
    OutIsEdge(g, top.step, top.next);
    if colors[t] == White {
      Descend(g, colors, frames, finished, Reported(found), t);
      color, stack, findings := colors[t := Gray], Stepped(frames) + [Frame(t, 0)], found;
      return;
    }
    color, stack, findings := colors, Stepped(frames), found;
    if colors[t] == Gray {
      var finding := Close(g, colors, frames, finished, e);
      findings := found + [finding];
    }
    PassBy(g, colors, frames, finished, found, findings, e);
  }

  lemma Descend(g: Graph, color: seq<Color>, stack: seq<Frame>, finished: seq<nat>, reported: set<nat>, t: nat)
    requires stack != [] && Searching(g, color, stack, finished, reported) && t < |color| && color[t] == White
    requires var top := stack[|stack| - 1]; top.next < |Outs(g, top.step)| && t == g.To(Outs(g, top.step)[top.next])
    ensures Searching(g, color[t := Gray], Stepped(stack) + [Frame(t, 0)], finished, reported)
    ensures Whites(color[t := Gray]) <= Whites(color) && |Whites(color[t := Gray])| < |Whites(color)|
  {
    Push(g, color, stack, finished, reported, t);
    Recolored(color, t, Gray);
  }

  /** A gray target has just been reported, a black one needs no report. */
  lemma PassBy(g: Graph, color: seq<Color>, stack: seq<Frame>, finished: seq<nat>, found: seq<Finding>,
               findings: seq<Finding>, e: nat)
    requires stack != [] && Searching(g, color, stack, finished, Reported(found)) && found <= findings
    requires var top := stack[|stack| - 1]; top.next < |Outs(g, top.step)| && Outs(g, top.step)[top.next] == e
    requires g.To(e) < |color| && color[g.To(e)] != White
    requires color[g.To(e)] == Gray ==> e in Reported(findings)
    ensures Searching(g, color, Stepped(stack), finished, Reported(findings))
    ensures Todo(g, Stepped(stack)) < Todo(g, stack)
  {
    TodoStepped(g, stack);
    assert Reported(found) <= Reported(findings);
    Advance(g, color, stack, finished, Reported(found), Reported(findings));
  }

  /** The finding for a back edge: the current path from the edge's target to the top, closed by the edge. */
  method Close(g: Graph, color: seq<Color>, stack: seq<Frame>, ghost finished: seq<nat>, e: nat) returns (f: Finding)
    requires g.Valid() && Colored(g, color, stack, finished) && Chained(g, stack) && stack != []
    requires var top := stack[|stack| - 1]; top.next < |Outs(g, top.step)| && Outs(g, top.step)[top.next] == e
    requires g.To(e) < |color| && color[g.To(e)] == Gray
    ensures f.edge == e && Genuine(g, f)
  {
    hide Graph.Valid, Genuine, Chained;
    var i := 0;
    while i < |stack| && stack[i].step != g.To(e)
      invariant i <= |stack| && forall j | 0 <= j < i :: stack[j].step != g.To(e)
    {
      i := i + 1;
    }
    CyclePathSound(g, stack, i, e);
    f := Finding(e, CyclePath(g, stack, i));
  }

  lemma PopLeavesWhites(g: Graph, color: seq<Color>, stack: seq<Frame>, finished: seq<nat>)
    requires Colored(g, color, stack, finished) && stack != []
    ensures stack[|stack| - 1].step < |color|
    ensures Whites(color[stack[|stack| - 1].step := Black]) == Whites(color)
  {
    var top := stack[|stack| - 1].step;
    assert OnStack(stack, top);
    Recolored(color, top, Black);
  }

  /** With every step finished, the finishing order ranks whatever is not reported. */
  lemma Conclude(g: Graph, color: seq<Color>, findings: seq<Finding>, finished: seq<nat>)
    requires g.Valid() && Searching(g, color, [], finished, Reported(findings))
    requires forall v | v in Whites(color) :: g.Size() <= v
    requires forall f | f in findings :: Genuine(g, f)
    ensures findings == [] <==> Acyclic(g.Relation())
    ensures Acyclic(Unreported(g.def, Reported(findings)))
  {
    UnreportedAcyclic(g, color, finished, Reported(findings));
    if findings == [] {
      assert Unreported(g.def, Reported(findings)) == g.Relation();
    } else {
      var p := findings[0].path;
      assert findings[0] in findings;
      WalkReaches(g.Relation(), p, 0, |p| - 1);
    }
  }

  lemma UnreportedDescends(g: Graph, color: seq<Color>, finished: seq<nat>, reported: set<nat>, e: nat)
    requires g.Valid() && Searching(g, color, [], finished, reported)
    requires forall v | v in Whites(color) :: g.Size() <= v
    requires g.Normal(e) && e !in reported
    ensures g.From(e) in finished && g.To(e) in finished
    ensures Position(finished, g.To(e)) < Position(finished, g.From(e))
  {
    var u := g.From(e);
    assert !OnStack([], u);
    assert u !in Whites(color) && color[u] == Black;
    g.AdjacencyExact(u);
    assert g.To(e) in finished[..Position(finished, u)];
  }

  lemma UnreportedAcyclic(g: Graph, color: seq<Color>, finished: seq<nat>, reported: set<nat>)
    requires g.Valid() && Searching(g, color, [], finished, reported)
    requires forall v | v in Whites(color) :: g.Size() <= v
    ensures Acyclic(Unreported(g.def, reported))
  {
    var rank: string -> int := (id: string) =>
      if g.IndexOf(id) in finished then |finished| - Position(finished, g.IndexOf(id)) else 0;
    var flat: string -> int := (id: string) => 0;
    forall p | p in Unreported(g.def, reported) ensures Increases(rank, flat, p.0, p.1) {
      var e: nat :| e < |g.def.edges| && g.Normal(e) && e !in reported && p == (g.def.edges[e].from, g.def.edges[e].to);
      UnreportedDescends(g, color, finished, reported, e);
    }
    RankedAcyclic(Unreported(g.def, reported), rank, flat);
  }
}
