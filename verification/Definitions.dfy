/** Workflow definitions: steps, edges, and the normal-edge graph they span
    (internal/dag/definition.go). Step ids are strings, as in the source. */
module Definitions {
  import opened Walks

  datatype Option<+T> = None | Some(value: T)

  datatype Result<+T, +E> = Ok(value: T) | Err(error: E)

  datatype JoinMode = JoinAll | JoinAny

  datatype StepType = StepJoin | StepGather | StepOther(name: string)

  /** A reference token of a template expression; lenient when it was a quoted path. */
  datatype Token = Token(text: string, lenient: bool)

  /** What the graph engine reads of a step's config: the join mode, or the
      reference tokens of its template expressions in order of appearance. */
  datatype Config = NoConfig | JoinConfig(mode: JoinMode) | Templated(tokens: seq<Token>)

  datatype SourceKind = StepOutput | OtherSource

  datatype ContextSource = ContextSource(kind: SourceKind, step: string)

  datatype Step = Step(id: string, typ: StepType, config: Config, context: seq<ContextSource>)

  datatype EdgeType = Normal | Loop

  datatype Edge = Edge(from: string, to: string, when: string, typ: EdgeType,
                       condition: string, maxIterations: int, decision: string)
  {
    predicate IsLoop() {
      typ == Loop
    }
  }

  datatype Definition = Definition(steps: seq<Step>, edges: seq<Edge>)

  /** An unconditioned normal edge. */
  function Plain(from: string, to: string): Edge {
    Edge(from, to, "", Normal, "", 0, "")
  }

  function Ids(steps: seq<Step>): (ids: set<string>)
    ensures forall i | 0 <= i < |steps| :: steps[i].id in ids
    ensures forall id | id in ids :: exists i :: 0 <= i < |steps| && steps[i].id == id
  {
    set s | s in steps :: s.id
  }

  ghost predicate DistinctIds(steps: seq<Step>) {
    forall i, j | 0 <= i < j < |steps| :: steps[i].id != steps[j].id
  }

  ghost predicate EndpointsIn(edges: seq<Edge>, ids: set<string>) {
    forall k | 0 <= k < |edges| :: edges[k].from in ids && edges[k].to in ids
  }

  ghost predicate WellFormed(def: Definition) {
    DistinctIds(def.steps) && EndpointsIn(def.edges, Ids(def.steps))
  }

  /** The normal edges as pairs of step ids; loop edges confer no order. */
  function Pairs(edges: seq<Edge>): (pairs: set<(string, string)>)
    ensures forall k | 0 <= k < |edges| && !edges[k].IsLoop() :: (edges[k].from, edges[k].to) in pairs
    ensures forall p | p in pairs ::
              exists k :: 0 <= k < |edges| && !edges[k].IsLoop() && p == (edges[k].from, edges[k].to)
  {
    set e | e in edges && !e.IsLoop() :: (e.from, e.to)
  }

  lemma PairsConcat(a: seq<Edge>, b: seq<Edge>)
    ensures Pairs(a + b) == Pairs(a) + Pairs(b)
  {
  }

  lemma PairsEmpty()
    ensures Pairs([]) == {}
  {
  }

  lemma PairsWithin(edges: seq<Edge>, ids: set<string>)
    requires EndpointsIn(edges, ids)
    ensures Within(Pairs(edges), ids)
  {
  }

  // ---------- declaration order ----------

  ghost predicate DeclaredBefore(steps: seq<Step>, a: string, b: string) {
    exists p, q :: 0 <= p < q < |steps| && steps[p].id == a && steps[q].id == b
  }

  /** The ids follow the order of the steps. */
  ghost predicate FollowsOrder(steps: seq<Step>, ids: seq<string>) {
    forall i, j | 0 <= i < j < |ids| :: DeclaredBefore(steps, ids[i], ids[j])
  }

  lemma OrderGrows(steps: seq<Step>, ids: seq<string>, k: nat)
    requires FollowsOrder(steps, ids) && k < |steps| && forall id | id in ids :: id in Ids(steps[..k])
    ensures FollowsOrder(steps, ids + [steps[k].id])
  {
    forall i | 0 <= i < |ids| ensures DeclaredBefore(steps, ids[i], steps[k].id) {
      assert ids[i] in ids;
      var p :| 0 <= p < k && steps[..k][p].id == ids[i];
      assert steps[p].id == ids[i];
    }
  }
}
