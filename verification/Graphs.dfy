/** The adjacency view of a definition and its order and reachability queries
    (internal/dag/graph.go). The algorithms run on declaration indices; their
    contracts speak about walks between step ids. */
module Graphs {
  import opened Walks
  import opened Counting
  import opened Definitions

  datatype GraphError =
    | DuplicateStep(first: nat, second: nat)
    | UnknownFrom(edge: nat)
    | UnknownTo(edge: nat)

  /** Which end of an edge an adjacency list is grouped by. */
  datatype End = Source | Target

  function EndOf(e: Edge, end: End): string {
    if end == Source then e.from else e.to
  }

  /** Among the first n edges, the indices of the normal ones with the given end at id, in order. */
  function Incident(edges: seq<Edge>, end: End, id: string, n: nat): seq<nat>
    requires n <= |edges|
  {
    if n == 0 then []
    else
      var rest := Incident(edges, end, id, n - 1);
      if !edges[n - 1].IsLoop() && EndOf(edges[n - 1], end) == id then rest + [n - 1] else rest
  }

  lemma {:induction false} IncidentExact(edges: seq<Edge>, end: End, id: string, n: nat)
    requires n <= |edges|
    ensures var r := Incident(edges, end, id, n);
            && Ascending(r)
            && forall e: nat :: e in r <==> e < n && !edges[e].IsLoop() && EndOf(edges[e], end) == id
  {
    if n > 0 {
      IncidentExact(edges, end, id, n - 1);
      var rest := Incident(edges, end, id, n - 1);
      assert forall i | 0 <= i < |rest| :: rest[i] in rest;
    }
  }

  function LoopEdges(edges: seq<Edge>, n: nat): seq<nat>
    requires n <= |edges|
  {
    if n == 0 then []
    else if edges[n - 1].IsLoop() then LoopEdges(edges, n - 1) + [n - 1]
    else LoopEdges(edges, n - 1)
  }

  datatype Graph = Graph(def: Definition, index: map<string, nat>,
                         outNormal: seq<seq<nat>>, inNormal: seq<seq<nat>>, loopEdges: seq<nat>)
  {
    function Size(): nat {
      |def.steps|
    }

    /** The index inverts the step list and every adjacency list is exact and in declaration order. */
    ghost predicate Valid() {
      && WellFormed(def)
      && index.Keys == Ids(def.steps)
      && IndexesPrefix(def.steps, index, |def.steps|)
      && Adjacency(def, Source, outNormal, |def.edges|)
      && Adjacency(def, Target, inNormal, |def.edges|)
      && loopEdges == LoopEdges(def.edges, |def.edges|)
    }

    function IndexOf(id: string): nat {
      if id in index then index[id] else 0
    }

    function From(e: nat): (i: nat)
      ensures Valid() && e < |def.edges| ==> i < Size() && def.steps[i].id == def.edges[e].from
    {
      if e < |def.edges| then IndexOf(def.edges[e].from) else 0
    }

    function To(e: nat): (i: nat)
      ensures Valid() && e < |def.edges| ==> i < Size() && def.steps[i].id == def.edges[e].to
    {
      if e < |def.edges| then IndexOf(def.edges[e].to) else 0
    }

    /** Normal edge number e. */
    predicate Normal(e: nat) {
      e < |def.edges| && !def.edges[e].IsLoop()
    }

    /** The normal-edge graph on declaration indices. */
    ghost function Arcs(): set<(nat, nat)> {
      set e | 0 <= e < |def.edges| && Normal(e) :: (From(e), To(e))
    }

    ghost function Relation(): set<(string, string)> {
      Pairs(def.edges)
    }

    lemma AdjacencyExact(i: nat)
      requires Valid() && i < Size()
      ensures Ascending(outNormal[i]) && Ascending(inNormal[i])
      ensures forall e: nat :: e in outNormal[i] <==> Normal(e) && From(e) == i
      ensures forall e: nat :: e in inNormal[i] <==> Normal(e) && To(e) == i
    {
      IncidentExact(def.edges, Source, def.steps[i].id, |def.edges|);
      IncidentExact(def.edges, Target, def.steps[i].id, |def.edges|);
    }

    function IdAt(k: nat): string {
      if k < |def.steps| then def.steps[k].id else ""
    }

    lemma ArcReachesIds(i: nat, j: nat)
      requires Valid() && Reaches(Arcs(), i, j)
      ensures Reaches(Relation(), IdAt(i), IdAt(j))
    {
      forall a | a in Arcs() ensures (IdAt(a.0), IdAt(a.1)) in Relation() {
        var e: nat :| e < |def.edges| && Normal(e) && a == (From(e), To(e));
      }
      MappedReach(Arcs(), Relation(), IdAt, i, j);
    }

    lemma IdsReachArcs(a: string, b: string)
      requires Valid() && Reaches(Relation(), a, b)
      ensures Reaches(Arcs(), IndexOf(a), IndexOf(b))
    {
      forall p | p in Relation() ensures (IndexOf(p.0), IndexOf(p.1)) in Arcs() {
        var e: nat :| e < |def.edges| && !def.edges[e].IsLoop() && p == (def.edges[e].from, def.edges[e].to);
        assert Normal(e) && (From(e), To(e)) == (IndexOf(p.0), IndexOf(p.1));
      }
      MappedReach(Relation(), Arcs(), IndexOf, a, b);
    }

    lemma ArcReach(i: nat, j: nat)
      requires Valid() && i < Size() && j < Size()
      ensures Reaches(Arcs(), i, j) <==> Reaches(Relation(), def.steps[i].id, def.steps[j].id)
    {
      if Reaches(Arcs(), i, j) {
        ArcReachesIds(i, j);
      }
      if Reaches(Relation(), def.steps[i].id, def.steps[j].id) {
        IdsReachArcs(def.steps[i].id, def.steps[j].id);
      }
    }

    lemma ArcsAcyclic()
      requires Valid()
      ensures Acyclic(Arcs()) <==> Acyclic(Relation())
    {
      if !Acyclic(Arcs()) {
        var v :| Reaches(Arcs(), v, v);
        ArcReachesIds(v, v);
      }
      if !Acyclic(Relation()) {
        var id :| Reaches(Relation(), id, id);
        IdsReachArcs(id, id);
      }
    }
  }

  /** The error names the first offence: a repeated id, else the first edge with an unknown end. */
  ghost predicate Diagnoses(def: Definition, error: GraphError) {
    match error
    case DuplicateStep(first, second) =>
      && first < second < |def.steps| && def.steps[first].id == def.steps[second].id
      && DistinctIds(def.steps[..second])
    case UnknownFrom(k) =>
      && DistinctIds(def.steps) && k < |def.edges| && EndpointsIn(def.edges[..k], Ids(def.steps))
      && def.edges[k].from !in Ids(def.steps)
    case UnknownTo(k) =>
      && DistinctIds(def.steps) && k < |def.edges| && EndpointsIn(def.edges[..k], Ids(def.steps))
      && def.edges[k].from in Ids(def.steps) && def.edges[k].to !in Ids(def.steps)
  }

  lemma DiagnosedIsMalformed(def: Definition, error: GraphError)
    requires Diagnoses(def, error)
    ensures !WellFormed(def)
  {
  }

  method NewGraph(def: Definition) returns (r: Result<Graph, GraphError>)
    ensures r.Ok? <==> WellFormed(def)
    ensures r.Ok? ==> r.value.def == def && r.value.Valid()
    ensures r.Err? ==> Diagnoses(def, r.error)
  {
    var index: map<string, nat> := map[];
    for i := 0 to |def.steps|
      invariant IndexesPrefix(def.steps, index, i)
    {
      var id := def.steps[i].id;
      if id in index {
        r := Err(DuplicateStep(index[id], i));
        DiagnosedIsMalformed(def, r.error);
        return;
      }
      index := index[id := i];
    }
    IndexComplete(def.steps, index);
    var known, outNormal, inNormal, loopEdges := Connect(def, index);
    KnownEnds(def, index, known);
    if known < |def.edges| {
      r := Err(if def.edges[known].from !in index then UnknownFrom(known) else UnknownTo(known));
      DiagnosedIsMalformed(def, r.error);
    } else {
      assert def.edges[..known] == def.edges;
      r := Ok(Graph(def, index, outNormal, inNormal, loopEdges));
    }
  }

  /** Groups the edges by source and target step, stopping at the first edge with an unknown end. */
  method Connect(def: Definition, index: map<string, nat>)
    returns (known: nat, outNormal: seq<seq<nat>>, inNormal: seq<seq<nat>>, loopEdges: seq<nat>)
    requires DistinctIds(def.steps) && IndexesPrefix(def.steps, index, |def.steps|)
    ensures KnownPrefix(def, index, known)
    ensures known == |def.edges| || def.edges[known].from !in index || def.edges[known].to !in index
    ensures Adjacency(def, Source, outNormal, known) && Adjacency(def, Target, inNormal, known)
    ensures loopEdges == LoopEdges(def.edges, known)
  {
    AdjacencyStarts(def, Source);
    AdjacencyStarts(def, Target);
    hide Adjacency;
    outNormal := seq(|def.steps|, i => []);
    inNormal := seq(|def.steps|, i => []);
    loopEdges := [];
    known := 0;
    while known < |def.edges| && def.edges[known].from in index && def.edges[known].to in index
      invariant KnownPrefix(def, index, known)
      invariant Adjacency(def, Source, outNormal, known) && Adjacency(def, Target, inNormal, known)
      invariant loopEdges == LoopEdges(def.edges, known)
    {
      var e := def.edges[known];
      if e.IsLoop() {
        AdjacencySkips(def, Source, outNormal, known);
        AdjacencySkips(def, Target, inNormal, known);
        loopEdges := loopEdges + [known];
      } else {
        var from, to := index[e.from], index[e.to];
        AdjacencyGrows(def, Source, outNormal, known, from);
        AdjacencyGrows(def, Target, inNormal, known, to);
        outNormal := outNormal[from := outNormal[from] + [known]];
        inNormal := inNormal[to := inNormal[to] + [known]];
      }
      known := known + 1;
    }
  }

  ghost predicate KnownPrefix(def: Definition, index: map<string, nat>, k: nat) {
    k <= |def.edges| && forall i | 0 <= i < k :: def.edges[i].from in index && def.edges[i].to in index
  }

  lemma KnownEnds(def: Definition, index: map<string, nat>, k: nat)
    requires KnownPrefix(def, index, k) && index.Keys == Ids(def.steps)
    ensures EndpointsIn(def.edges[..k], Ids(def.steps))
  {
  }

  /** The index built from the first n steps. */
  ghost predicate IndexesPrefix(steps: seq<Step>, index: map<string, nat>, n: nat) {
    && n <= |steps|
    && (forall i | 0 <= i < n :: steps[i].id in index && index[steps[i].id] == i)
    && (forall id | id in index :: index[id] < n && steps[index[id]].id == id)
  }

  lemma IndexComplete(steps: seq<Step>, index: map<string, nat>)
    requires IndexesPrefix(steps, index, |steps|)
    ensures index.Keys == Ids(steps) && DistinctIds(steps)
  {
  }

  ghost predicate Adjacency(def: Definition, end: End, lists: seq<seq<nat>>, k: nat) {
    && k <= |def.edges|
    && |lists| == |def.steps|
    && forall i | 0 <= i < |lists| :: lists[i] == Incident(def.edges, end, def.steps[i].id, k)
  }

  lemma AdjacencyStarts(def: Definition, end: End)
    ensures Adjacency(def, end, seq(|def.steps|, i => []), 0)
  {
  }

  lemma AdjacencySkips(def: Definition, end: End, lists: seq<seq<nat>>, k: nat)
    requires k < |def.edges| && Adjacency(def, end, lists, k) && def.edges[k].IsLoop()
    ensures Adjacency(def, end, lists, k + 1)
  {
  }

  lemma AdjacencyGrows(def: Definition, end: End, lists: seq<seq<nat>>, k: nat, at: nat)
    requires DistinctIds(def.steps) && k < |def.edges| && Adjacency(def, end, lists, k)
    requires !def.edges[k].IsLoop() && at < |def.steps| && def.steps[at].id == EndOf(def.edges[k], end)
    ensures |lists| == |def.steps|
    ensures Adjacency(def, end, lists[at := lists[at] + [k]], k + 1)
  {
  }
}
