# Verified models of the agentloom engine

This project models the parts of the agentloom workflow engine whose correctness rests on more than one function, and
proves what they promise: the graph engine that schedules and grows a run, the context manager that shrinks a prompt to
a token budget, and three small encodings (cache keys, bust patterns, JSON pointers). Nothing here is executed; every
claim is a proof over all inputs.

`dafny verify dfyconfig.toml` checks the whole project.

## What is modelled

**The graph engine** (`internal/dag`). A definition is a list of steps and a list of edges; only normal edges order
steps. `Graphs`, `TopoOrders`, `Searches` and `Cycles` are the compiled graph and its algorithms, proved against one
notion of path (`Walks`). `Scheduling` states readiness and skip propagation as sets and least fixed points and proves
confluence and progress of every run; `Readiness` is the code, proved to compute those sets. `Expansions` is the gate a
running graph passes before it grows, `Gate` and `Conservativity` say what an accepted expansion does to the graph and
to the steps already there, and `Runs` puts scheduler moves and expansions into one machine. `Unrolling`, `Loops` and
`LoopGate` are the loop unroller, `Fanout`, `Maps` and `MapGate` the map fan-out: each generator is proved to produce
the delta its graph-level theory speaks of, and that delta is proved to pass the gate for every iteration and every item
count. `Growth` puts the generated plans back into the machine: a run that grows only by them stays a DAG.
`LoopGate.SmallestLoop` and `MapGate.SmallestTemplate` show that the hypotheses are met. `StepIds` holds the ids and
references both mint, and `Rendering` reads references as the template renderer does and proves that rewriting them
preserves what every cloned step reads.

**The context manager** (`internal/contextmgr`). `Contexts` is the working set and the invariant every strategy keeps,
`Probes` the binary search over lengths, `Truncation` the two texts it cuts and the assembly, `Strategies` and
`Summaries` what each strategy does to the working set, `Compaction` the mutable state with the strategies as methods,
`Effects` the effect of one stage as a relation, `Accounting` the tokens every stage conserves, `Reports` the reports
per source and `Pipeline` the whole. The token counter and the request measure are arbitrary functions, and so is the
summarizer, which may answer each stage anew.

**Encodings.** `Framing` and `CacheKeys` are the bytes hashed into a cache key, `Globs` and `Busts` the storage keys and
the glob patterns that invalidate them, `Pointers` and `Resolution` JSON pointers (RFC 6901).

## Where the code falls short of its promise

- The expansion gate blames a plan for a cycle only if the edge that closes the reported path touches the plan. A plan
  can thus close a cycle through existing steps and be accepted (`Gate.CycleSlipsThrough`, `Gate.AcceptsCycle`), in a
  run that respects every guard (`Runs.AcceptedGrowthCanCycle`). `Gate.AcceptedAcyclicIff` gives the exact condition
  under which an accepted plan is safe, `Gate.SeparatedAnchorsExact` a simple sufficient one, and `Gate.PathTestExact` a
  test that is always exact. Plans of the loop unroller and of the map fan-out are always safe
  (`Growth.GeneratedIsDetourFree`).
- A kind-wide bust pattern also matches entries of plugins named like the kind (`Busts.KindPatternExact`,
  `Busts.KindPatternOverreaches`).
- The pointer resolver accepts array indices with a sign or leading zeros, which section 4 of RFC 6901 excludes
  (`Resolution.StandardIff`, `Resolution.LooseExact`, `Resolution.LooseIndexWitness`).
- A truncation is the longest cut that fits if and only if no probe of the binary search misleads it: fails although a
  longer length still in range fits (`Probes.ProbeExact`, `Truncation.TruncateMiddle`, `Truncation.TruncateToTokens`).
  Monotone counting suffices and is not necessary (`Probes.GapSteppedOver`); `Truncation.CutsTooMuch` and
  `Truncation.CapsTooMuch` are inputs that are cut too much. The token bound itself always holds.
- The report of a summary tells its true fate if and only if it was not folded into a later summary; such a summary is
  reported as dropped (`Reports.SummaryReportsExact`, `Refolding.ReportsRefoldedAsDropped`).

## Model

| member | source | states |
|---|---|---|
| `Graphs.NewGraph` | internal/dag/graph.go:34-67 | Compiles exactly the well-formed definitions (distinct ids, known edge ends) into an index that inverts the step list and exact adjacency lists in declaration order; otherwise names the first offence. |
| `Graphs.Connect` | internal/dag/graph.go:50-66 | The adjacency lists hold, for each step, exactly the normal edges at that end in declaration order, up to the first edge with an unknown end. |
| `Graphs.Graph.AdjacencyExact` | internal/dag/graph.go:16-32 | An edge is in a step's out (in) list if and only if it is a normal edge leaving (entering) that step. |
| `Graphs.Graph.ArcReach` | internal/dag/graph.go:16-32 | A path between declaration indices exists if and only if a normal-edge path between the step ids does. |
| `TopoOrders.TopoOrder` | internal/dag/graph.go:90-112 | Kahn's order is complete if and only if the normal-edge graph is acyclic; whatever it emits is duplicate-free and puts every edge's source before its target. |
| `TopoOrders.Release` | internal/dag/graph.go:103-110 | Consuming a step's out-edges keeps the in-degree counts exact and queues exactly the steps that become free. |
| `TopoOrders.NothingStuck` | internal/dag/graph.go:90-112 | In an acyclic graph no step is left behind when the queue runs empty. |
| `Searches.Descendants` | internal/dag/graph.go:147-168 | Exactly the steps with a non-empty normal-edge path from the step; none for an unknown step. |
| `Searches.Ancestors` | internal/dag/graph.go:120-141 | Exactly the steps with a non-empty normal-edge path to the step; none for an unknown step. |
| `Searches.CanReach` | internal/dag/graph.go:173-191 | True if and only if a non-empty normal-edge path exists, with the early exit. |
| `Cycles.FindCycles` | internal/dag/graph.go:208-260 | Sound and complete: every finding is a closed normal-edge walk without inner repetition ended by its edge; the list is empty if and only if the graph is acyclic; deleting the reported edges leaves an acyclic graph; and the first declared step occurs in a reported cycle only as its closing point. |
| `Cycles.Explore` | internal/dag/graph.go:224-257 | The search from one root keeps the colour, path and finishing-order invariants and ends with the root finished. |
| `Cycles.Follow` | internal/dag/graph.go:226-256 | One edge of the search: descend, report or pass by, each keeping the invariants and lowering the termination measure. |
| `Cycles.Close` | internal/dag/graph.go:239-254 | The path reported for a back edge is a genuine cycle closed by that edge. |
| `Cycles.UnreportedAcyclic` | internal/dag/graph.go:208-260 | The finishing order ranks every unreported edge downwards, so what is left is acyclic. |
| `Scheduling.SkipSetIsLeast` | internal/dag/ready.go:81-99 | The skip set is below every set closed under "all in-edges skipped". |
| `Scheduling.SkipSetIsClosed` | internal/dag/ready.go:81-99 | The skip set is itself closed under "all in-edges skipped". |
| `Scheduling.SkipFixpoint` | internal/dag/ready.go:81-99 | A step is in the skip set if and only if it was skipped or all its parents are in the set. |
| `Scheduling.FoldIsIdempotent` | internal/dag/ready.go:42-58 | Folding the new skips back in changes neither the ready set nor the skip set. |
| `Scheduling.StuckBehindFailure` | internal/dag/ready.go:103-133 | If nothing is ready, every step still pending has a failed ancestor. |
| `Scheduling.AlwaysProgress` | internal/dag/ready.go:103-133 | Without failures, as long as a step is pending after propagation, some step is ready. |
| `Scheduling.ReadyPersists` | internal/dag/ready.go:59-135 | A ready step stays ready through every move that does not settle it: propagation never takes it away. |
| `Scheduling.RunFated` | internal/dag/ready.go:59-135 | Along every run a step settles only as the order-free fate of its parents says. |
| `Scheduling.TerminalIsFate` | internal/dag/ready.go:59-135 | Every maximal run ends in the completed, skipped, failed and blocked partition given by the fates. |
| `Scheduling.Confluence` | internal/dag/ready.go:59-135 | With each step's outcome fixed, all maximal runs end in the same state, whatever the order of settling and folding, `join any` included. |
| `Readiness.ReadySteps` | internal/dag/ready.go:59-135 | Unknown or overlapping input ids and cyclic graphs are the only errors, each reported exactly; otherwise the two lists spell, in declaration order, exactly the ready set and the newly skipped part of the least fixed point. |
| `Readiness.Propagate` | internal/dag/ready.go:81-101 | One pass in topological order reaches the least fixed point and lists exactly the new skips. |
| `Readiness.PassStep` | internal/dag/ready.go:84-98 | Deciding one step from its in-edges, once its sources are passed, agrees with membership in the fixed point and keeps the propagation. |
| `Readiness.CollectReady` | internal/dag/ready.go:103-133 | The readiness pass lists exactly the ready steps in declaration order. |
| `Readiness.ReadyAt` | internal/dag/ready.go:103-132 | The edge-counting test of one step (entry, `join any`, all others) decides membership in the ready set. |
| `Readiness.ReadyByConfig` | internal/dag/ready.go:103-149 | From a step's own type and config and the definition's edges: an unsettled, unskipped step is ready if and only if it has no normal in-edge, or some source of one is completed and either it is a join of mode any or every source is completed or skipped. A join of mode all, a join without config and every other step follow the strict rule. |
| `Readiness.SkippedByEdges` | internal/dag/ready.go:81-99 | A step is in the skip set if and only if it was skipped, or it is unsettled, has a normal in-edge and every source of one is in the skip set. |
| `Readiness.ConsistentIff` | internal/dag/ready.go:152-188 | The three input sets are usable if and only if no id is unknown and none is in two sets. |
| `Expansions.Breaches` | internal/dag/expansion.go:370-394 | A breach record exists if and only if some run guard is crossed, and each record shows a value above its cap. |
| `Expansions.BreachesExact` | internal/dag/expansion.go:370-394 | The records are exactly the crossed guards, each under its own name with the value reached and that guard's cap. |
| `Expansions.CheckIds` | internal/dag/expansion.go:402-417 | Clean if and only if every injected id is legal for the origin kind, new to the run, and unique. |
| `Expansions.PlannersMintNothing` | internal/dag/expansion.go:396-417 | A planner's plan with a minted id never passes: its ids hold no hash mark and no dot. |
| `Expansions.CheckEdges` | internal/dag/expansion.go:434-467 | Clean if and only if every edge resolves, touches an injected step, leaves no terminal step and enters an existing step only while it is pending. |
| `Expansions.BuildMerged` | internal/dag/expansion.go:567-591 | The merged definition holds the existing steps in id order, then the plan's, and both edge lists. |
| `Expansions.CheckCycles` | internal/dag/expansion.go:598-613 | Clean if and only if no reported cycle closes on an edge that touches the delta. |
| `Expansions.CheckLoops` | internal/dag/expansion.go:614-628 | Clean if and only if every loop edge of the plan leads back to a normal-edge ancestor. |
| `LoopGate.AcceptedLoopUnrolls` | internal/dag/expansion.go:614-628 | What anchoring is for: over an acyclic merged graph of authored ids, every loop edge let in spans exactly the steps between its target and its source, has the target as its one entry, and stays acyclic for every number of iterations. |
| `Expansions.CheckRefs` | internal/dag/expansion.go:643-726 | Clean if and only if every reference is to a strict ancestor or to an existing step that already succeeded. |
| `Expansions.StepRefsExact` | internal/dag/expansion.go:643-726 | The references looked at are exactly the steps named by a strict token of the config or a step-output source of the context. |
| `Expansions.ValidateExpansion` | internal/dag/expansion.go:356-482 | The verdict is clean if and only if the plan fits by version, size, caps, ids and edges and, when the merged graph compiles, no cycle is blamed on it, its loop edges are anchored and its references resolve; then every loop edge's target reaches its source. A crossed guard always shows as a cap breach. |
| `Gate.FittingPlanSplices` | internal/dag/expansion.go:434-467 | A plan with fitting ids and edges only adds: the merged graph compiles and is the run graph plus edges that each touch a fresh step. |
| `Gate.AcceptedAcyclicIff` | internal/dag/expansion.go:594-613 | An accepted plan leaves the merged graph acyclic if and only if the run graph stays acyclic with every detour the plan opens between two existing steps drawn as an edge. |
| `Gate.SeparatedAnchorsExact` | internal/dag/expansion.go:594-613 | When no step the plan enters leads to a step the plan leaves, the closing-edge test blames the plan if and only if the merged graph has a cycle. |
| `Gate.PathTestExact` | internal/dag/expansion.go:594-613 | Over an acyclic run graph, the test "the path visits an injected step" is exact for every plan. |
| `Gate.CycleSlipsThrough` | internal/dag/expansion.go:594-613 | Run p to z to a with p active and z and a pending, plan a to x to z: whatever the search reports, the plan passes every check although the merged graph is cyclic. |
| `Gate.AcceptsCycle` | internal/dag/expansion.go:356-482 | Running the gate on that input returns a clean verdict for a cyclic merged graph. |
| `Conservativity.ExpansionIsConservative` | internal/dag/expansion.go:434-467 | Splicing a delta whose anchors are in the demanded states leaves the skip set unchanged and the readiness of every existing step as it was. |
| `Conservativity.FittingPlanIsConservative` | internal/dag/expansion.go:434-467 | Any plan that fits, spliced while the reported anchor statuses hold, leaves every existing step's ready and skipped verdict as it was. |
| `Runs.StepGuarded` | internal/dag/expansion.go:370-394 | Every scheduler move and every accepted expansion keeps expansions, total steps and nesting depth within the caps and strictly increases progress. |
| `Runs.RunsAreFinite` | internal/dag/expansion.go:77-100 | Every state of every run respects the caps, and no run has more than max expansions plus max total steps moves. |
| `Runs.ExpansionKeepsDagIff` | internal/dag/expansion.go:594-613 | An accepted expansion of a run keeps its graph a DAG if and only if the plan opens no detour that closes a cycle. |
| `Runs.AcceptedGrowthCanCycle` | internal/dag/expansion.go:594-613 | The failure lifted to runs: a guarded DAG run whose statuses are as reported, with an accepted expansion after which its graph is no longer a DAG. |
| `Runs.ExpandedNet` | internal/dag/expansion.go:567-591 | Appending an accepted plan to the definition splices exactly its delta, steps and join modes into the scheduling net. |
| `Runs.ExpansionMoveIsConservative` | internal/dag/expansion.go:434-467 | An expansion move made while the reported statuses hold leaves the skip set and the readiness of every existing step of the run as they were. |
| `Runs.DetourFreeRunsStayDags` | internal/dag/expansion.go:356-482 | A run all of whose expansions are free of such detours has a DAG throughout. |
| `Runs.NoHiddenDeadlock` | internal/dag/ready.go:103-133 | At every point of such a run, a pending step that propagation spares means some step is ready or it has a failed ancestor. |
| `StepIds.MintedSplits` | internal/dag/validate.go:28-45 | The authored id is recovered from any minted id. |
| `StepIds.InstanceIdInjective` | internal/dag/mapexpand.go:87-87 | Instance ids determine both the authored id and the index. |
| `StepIds.InstanceIdReads` | internal/dag/mapexpand.go:87-87 | Cut at the hash mark, an instance id reads as the authored id and the decimal index. |
| `StepIds.MintedFresh` | internal/dag/validate.go:28-45 | Instance ids lie outside the authored id space and never equal a gather id. |
| `StepIds.GatherIdValid` | internal/dag/validate.go:28-45 | The gather of an authored or a minted map step has a legal minted id. |
| `StepIds.InstanceIdValid` | internal/dag/validate.go:28-45 | Every instance of an authored id is a legal minted id. |
| `StepIds.LoopRewriteRefers` | internal/dag/loopexpand.go:216-233 | The loop rewriter re-points exactly the references to body members, and keeps the path behind the step. |
| `StepIds.MapRewriteRefers` | internal/dag/mapexpand.go:227-251 | The map rewriter turns item tokens into references to the map step and step references into references to the same instance, and makes no other token a reference. |
| `Rendering.ResolvePath` | internal/dag/template.go:834-858 | The segment loop computes the walk along the dotted path: objects by key, arrays by integer index, and nothing on any miss. |
| `Rendering.LoopRewriteReads` | internal/dag/loopexpand.go:216-233 | Meaning preserved: a reference rewritten for an iteration reads in the run what the authored one reads when the body's steps mean that iteration's. |
| `Rendering.MapRewriteReads` | internal/dag/mapexpand.go:227-251 | Meaning preserved: a reference rewritten for instance k reads, over the map step's recorded output, item k and the path into it, position k, or the instance's own step output; everything else reads as before. |
| `Loops.LoopBody` | internal/dag/loopexpand.go:138-154 | Computes exactly the loop body; none for an unknown endpoint. |
| `Unrolling.BodyIsSpan` | internal/dag/loopexpand.go:134-154 | The body is exactly the set of steps on paths from the loop target to the loop source. |
| `Unrolling.BodyIsConvex` | internal/dag/loopexpand.go:134-154 | A path between two body members never leaves the body. |
| `Loops.LoopEntries` | internal/dag/loopexpand.go:159-174 | Lists, in definition order and without repetition, exactly the body members no body member leads to. |
| `Loops.EntriesAreTarget` | internal/dag/loopexpand.go:155-174 | That list is always exactly the loop target. |
| `Loops.CloneRefs` | internal/dag/loopexpand.go:181-210 | A cloned step refers to what its original did, in the same order, with body members moved to the iteration. |
| `Rendering.CloneMirrors` | internal/dag/loopexpand.go:182-210 | A cloned step has its original's type, join mode or fixed config, and reads, token by token and source by source and as strictly, what the original reads in that iteration. |
| `Loops.GenerateLoopExpansion` | internal/dag/loopexpand.go:45-132 | Fails exactly on a definition that does not compile, an unknown loop edge end, or a body left from a step other than the loop source; otherwise yields the clones in id order with the cloned, entry and exit edges. |
| `Loops.PlanIsDelta` | internal/dag/loopexpand.go:45-132 | The normal edges of that plan are exactly the delta of the iteration, and it holds no loop edge. |
| `Loops.PlanStepsAreClones` | internal/dag/loopexpand.go:45-132 | The plan's steps are the body's clones with distinct ids. |
| `Loops.PlanEdgesExact` | internal/dag/loopexpand.go:86-128 | The plan's edges one by one: each normal edge inside the body between the clones of its ends, the splice into each entry, each exit of the source from the source's clone; clones keep condition and decision, in definition order, and there are no others. |
| `Rendering.IterationMirrors` | internal/dag/loopexpand.go:65-84 | Every body member has a clone in the plan that mirrors it in the iteration. |
| `Unrolling.ClonesFresh` | internal/dag/loopexpand.go:45-132 | The ids of the next iteration are new to the run graph. |
| `Unrolling.UnrollingStaysAcyclic` | internal/dag/loopexpand.go:45-132 | For every number of iterations, each spliced after the previous source instance, the run graph stays acyclic. |
| `Unrolling.IterationKeepsAcyclic` | internal/dag/loopexpand.go:45-132 | Splicing the next iteration into any acyclic run graph that holds the earlier ones, whatever else has grown there, keeps it acyclic. |
| `Unrolling.RefStaysUpstream` | internal/dag/loopexpand.go:181-275 | A reference upstream in the authored graph is, once rewritten, still to an ancestor in every iteration of every unrolling. |
| `LoopGate.IterationAccepted` | internal/dag/loopexpand.go:45-132 | In any acyclic run graph that holds the earlier iterations, the plan of the next one passes every check of the expansion gate once its ids are new, its anchors open and the caps respected. |
| `LoopGate.NextIteration` | internal/dag/loopexpand.go:45-132 | Generator and gate composed, over any acyclic run that holds the earlier iterations: a plan is generated if and only if only the loop source leaves the body, and accepted if and only if the caps allow it, its ids are new, the completing source is not terminal and the loop's exits are pending. |
| `Maps.TemplateFrontier` | internal/dag/mapexpand.go:93-120 | Lists, in template order and without repetition, exactly the template steps without a normal in-edge and those without a normal out-edge. |
| `Maps.InstanceRefs` | internal/dag/mapexpand.go:127-176 | Every reference of an instance step is to the map step or to the same instance of a template reference. |
| `Rendering.InstanceMirrors` | internal/dag/mapexpand.go:127-176 | An instance step has its template step's type and fixed config, and reads what the template step reads given item k, position k and the instance's own outputs. |
| `Maps.GenerateMapExpansion` | internal/dag/mapexpand.go:38-84 | Fails exactly on an empty template or one without a single sink, reporting the sinks; otherwise yields the instances and the gather with their edges. |
| `Maps.MapEdgesExact` | internal/dag/mapexpand.go:60-74 | An edge is in the plan if and only if it is, for some item, a template edge between that item's instances with every other field kept, the map step into an entry, or the sink into the gather. |
| `Rendering.FanoutMirrors` | internal/dag/mapexpand.go:51-59 | Every template step has, for every item, a clone in the plan that mirrors it with that item. |
| `Rendering.GatherReads` | internal/dag/mapexpand.go:74-83 | The gather reads, strictly and in item order, the output of every instance's sink. |
| `Fanout.MapReachesInstances` | internal/dag/mapexpand.go:60-83 | The map step leads to every step of every instance. |
| `Fanout.InstancesReachGather` | internal/dag/mapexpand.go:60-83 | Every step of every instance leads to the gather. |
| `Fanout.InstancesIndependent` | internal/dag/mapexpand.go:60-83 | In the merged graph no path leads from one instance into another. |
| `Fanout.FanoutAcyclic` | internal/dag/mapexpand.go:38-84 | The injected part is acyclic for every item count and acyclic single-sink template. |
| `Fanout.FanoutKeepsAcyclic` | internal/dag/mapexpand.go:38-84 | Splicing a fan-out into any acyclic run graph keeps it acyclic. |
| `MapGate.FanoutDelta` | internal/dag/mapexpand.go:38-84 | The plan's steps and normal edges are exactly those of the fan-out, with distinct ids. |
| `MapGate.PlanRefUpstream` | internal/dag/mapexpand.go:227-251 | Every rewritten reference, of an instance step or of the gather, is to an ancestor. |
| `MapGate.FanoutAccepted` | internal/dag/mapexpand.go:38-84 | In any acyclic run graph the plan of a fan-out passes every check of the expansion gate once its ids are new, the map step is open and the caps are respected. |
| `MapGate.FanOut` | internal/dag/mapexpand.go:38-84 | Generator and gate composed, over any acyclic run: a valid template always yields its fan-out plan, for any number of items, and the plan is accepted if and only if the caps allow it, its ids are new and, with at least one item, the map step is not terminal. |
| `Growth.GeneratedIsDetourFree` | internal/dag/expansion.go:594-613 | Every accepted iteration or fan-out plan opens no detour that closes a cycle, so the run graph stays a DAG. |
| `Growth.GeneratedRunsStayDags` | internal/dag/expansion.go:356-482 | Any number of loops and maps, unrolled and fanned out in any order between scheduler moves, keep the run graph a DAG and within the caps, with no further hypothesis on the plans. |
| `Growth.GeneratedRunsNeverHang` | internal/dag/ready.go:103-133 | At every point of such a run, a pending step that propagation spares means some step is ready or it has a failed ancestor. |
| `Truncation.TruncateToTokens` | internal/contextmgr/contextmgr.go:450-487 | Cuts if and only if the text is over the cap; the result counts at most the cap for every counter and is the prefix the search settles on, with the marker whenever the marker fits. It is the longest prefix that fits if and only if no probe misleads the search. |
| `Truncation.MonotonePrefix` | internal/contextmgr/contextmgr.go:470-480 | No probe misleads when longer prefixes never count fewer tokens. |
| `Truncation.CapsTooMuch` | internal/contextmgr/contextmgr.go:470-480 | A counter with a gap at one character: the code keeps nothing although both characters fit with the marker. |
| `Contexts.RenderConcat` | internal/contextmgr/contextmgr.go:228-237 | Rendering two non-empty lists one after the other joins their renderings by a blank line. |
| `Contexts.RenderShows` | internal/contextmgr/contextmgr.go:228-237 | The rendered text shows every entry's content in an envelope with its name and kind, in order and without overlap. |
| `Truncation.Assemble` | internal/contextmgr/contextmgr.go:178-221 | Fails exactly at the first missing source without a skip policy; otherwise entries and reports follow the declaration order with the declared attributes, the content whole or the capped prefix exactly where the cap applies, a pinned or uncapped source always whole; the preamble shows every entry in order, and the reported tokens add up to the entries' tokens. |
| `Probes.ProbeExact` | internal/contextmgr/compact.go:574-583 | The binary search ends on a length that fits, for every test of lengths, and on the longest one if and only if no probe on its path fails below a longer length still in range that fits. |
| `Probes.MonotoneNeverMisleads` | internal/contextmgr/compact.go:574-583 | A test that only lets go as lengths grow misleads no probe. |
| `Probes.GapMisleads` | internal/contextmgr/compact.go:574-583 | Lengths 0 and 2 fit and 1 does not: the search settles on 0. |
| `Probes.GapSteppedOver` | internal/contextmgr/compact.go:574-583 | A test with gaps that still misleads no probe, so monotonicity is not necessary. |
| `Truncation.TruncateMiddle` | internal/contextmgr/compact.go:558-586 | The result counts at most the target for every counter; it is the text if that fits, nothing if not even the marker does, and else the middle-out cut the search settles on, which is the longest one that fits if and only if no probe misleads the search. |
| `Truncation.MiddleKeeps` | internal/contextmgr/compact.go:558-586 | A cut keeps the start and the end of the text around the marker, as many characters as asked, the odd one at the start. |
| `Truncation.MonotoneMiddle` | internal/contextmgr/compact.go:574-583 | No probe misleads when keeping more characters never counts fewer tokens. |
| `Truncation.CutsTooMuch` | internal/contextmgr/compact.go:558-586 | A counter with a gap at one character: the code keeps nothing although both characters fit around the marker. |
| `Contexts.StartsSound` | internal/contextmgr/compact.go:188-195 | A fresh assembly satisfies the working-set invariant. |
| `Contexts.PinnedSurvive` | internal/contextmgr/compact.go:188-254 | Under the invariant the pinned entries are all live, in order and untouched. |
| `Contexts.OrderSurvives` | internal/contextmgr/compact.go:188-254 | Under the invariant what is live of the declared entries is the declared list less the dropped ones, in order, each unchanged unless truncated. |
| `Strategies.DropAllKeepsSound` | internal/contextmgr/compact.go:290-352 | Dropping droppable entries keeps the invariant. |
| `Strategies.WindowExact` | internal/contextmgr/compact.go:290-310 | The dropped head of the live list is exactly what has at least n droppable entries behind it. |
| `Effects.WindowSparesLast` | internal/contextmgr/compact.go:290-310 | After a sliding-window stage the droppable entries are exactly the last n of those before it, in order. |
| `Strategies.SegmentsNest` | internal/contextmgr/compact.go:315-352 | Initial segments of the eviction order are nested. |
| `Effects.EvictedFirst` | internal/contextmgr/compact.go:315-352 | What an eviction stage dropped has a lower priority than anything it spared, or the same and a later position. |
| `Strategies.TruncationKeepsSound` | internal/contextmgr/compact.go:358-414 | Oldest-first truncation keeps the invariant. |
| `Summaries.FoldingKeepsSound` | internal/contextmgr/compact.go:513-534 | Folding a span into a summary keeps the invariant, with the summary as a new unpinned entry numbered below all others. |
| `Summaries.SpanUnique` | internal/contextmgr/compact.go:441-454 | There is only one shortest run of oldest droppable entries that holds the wanted tokens. |
| `Accounting.FoldFreesOverrun` | internal/contextmgr/compact.go:434-454 | A summary within its allowance frees the whole overrun, unless every droppable entry was folded. |
| `Accounting.SummaryStands` | internal/contextmgr/compact.go:513-534 | The summary stands where the oldest of its span stood: the live entries keep their order around it, and only pinned ones come before it. |
| `Compaction.SummaryRefInjective` | internal/contextmgr/compact.go:515-515 | The ref determines the blackboard key and version. |
| `Compaction.LiveEntries` | internal/contextmgr/compact.go:589-604 | The non-dropped entries in message order. |
| `Compaction.CompactState.constructor` | internal/contextmgr/compact.go:188-195 | The working set starts as the assembled entries with nothing dropped, truncated or folded. |
| `Compaction.CompactState.SlideWindow` | internal/contextmgr/compact.go:290-310 | Drops exactly the droppable entries outside the last n, and logs exactly those, in message order, with their tokens. |
| `Compaction.CompactState.SelectVictim` | internal/contextmgr/compact.go:326-345 | The droppable entry of lowest priority, the later one on a tie, or none if nothing is droppable. |
| `Compaction.CompactState.EvictLowest` | internal/contextmgr/compact.go:315-352 | The dropped entries are the shortest initial segment of the eviction order that fits the budget, or all droppable entries; no shorter segment fits; the log lists exactly them in eviction order. |
| `Compaction.CompactState.SelectOldest` | internal/contextmgr/compact.go:369-381 | The oldest droppable entry above the floor, or none if all are at or below it. |
| `Compaction.CompactState.CutEntry` | internal/contextmgr/compact.go:383-397 | The victim is cut by the overrun though not below the floor, to the cut the search settles on; it always loses tokens, so the no-progress exit is dead. |
| `Compaction.CompactState.ShrinkOldest` | internal/contextmgr/compact.go:358-414 | Runs round by round, each while over budget and each cutting the oldest droppable entry above the floor by the overrun; terminates without the no-progress exit; one log record per changed entry, from its first count to its last; at the end the request fits or every droppable entry is at or below the floor. |
| `Compaction.CompactState.GatherSpan` | internal/contextmgr/compact.go:441-454 | The shortest run of oldest droppable entries that holds the wanted tokens, or all of them. |
| `Compaction.CompactState.Summarize` | internal/contextmgr/compact.go:424-546 | Folds the oldest span that holds the wanted tokens, logging it entry by entry, if and only if a summarizer is configured and its answer for that span was written and is strictly smaller; otherwise nothing changes and nothing is logged. |
| `Compaction.CompactState.Fold` | internal/contextmgr/compact.go:513-534 | The span is dropped, recorded as folded into the ref, logged entry by entry, and replaced by the summary entry where its oldest entry stood. |
| `Effects.EffectKeepsSound` | internal/contextmgr/compact.go:261-285 | Whatever a stage of any strategy does, as its effect states it, keeps the working-set invariant. |
| `Effects.EffectLogsChange` | internal/contextmgr/compact.go:261-285 | A stage logs no action if and only if it changed nothing, and changes nothing once nothing is droppable. |
| `Effects.EvictionEnds` | internal/contextmgr/compact.go:315-352 | After an eviction stage the request fits or nothing droppable is left. |
| `Accounting.EffectBalances` | internal/contextmgr/compact.go:261-285 | Conservation: the tokens a stage's log says were taken are missing from the live entries afterwards, exactly, but for a strictly smaller summary put in; no stage makes the live tokens grow. |
| `Reports.CompactedReports` | internal/contextmgr/compact.go:634-681 | The declared sources' reports updated by what happened to their entries, then the reports of the summaries. |
| `Reports.SummaryReportsExact` | internal/contextmgr/compact.go:641-661 | Exactly one report per summary ever made, in message order, with its live tokens: Dropped if and only if the summary is not live, never Summarized, and naming its true fate if and only if it was not folded into a later summary. |
| `Refolding.ReportsRefoldedAsDropped` | internal/contextmgr/compact.go:641-661 | Two summarize stages in a row: the second folds the first one's summary, whose report then says dropped. |
| `Reports.UpdatedExact` | internal/contextmgr/compact.go:634-681 | Each declared source's report is decided by its one entry; a source without an entry keeps its report. |
| `Reports.DispositionExact` | internal/contextmgr/compact.go:634-681 | A declared source is reported summarized, dropped, truncated or unchanged exactly as its entry fared, Dropped or Summarized if and only if it is not live, with the live token count. |
| `Reports.ReportsStayBalanced` | internal/contextmgr/compact.go:634-681 | Reports that account for every token of the assembly account for every token left after any compaction. |
| `Pipeline.SpentOnlyPinned` | internal/contextmgr/compact.go:224-243 | With nothing droppable left, what is live is the pinned set. |
| `Pipeline.ApplyStrategy` | internal/contextmgr/compact.go:261-285 | Every strategy has exactly its effect on the working set and logs exactly that effect; it fails only where the measure or the summarizer does. |
| `Pipeline.KeptNames` | internal/contextmgr/compact.go:618-628 | The names of the non-dropped entries in message order. |
| `Pipeline.RunPipeline` | internal/contextmgr/compact.go:202-227 | Strategies run in order and only while over budget. The trail replays the run: each revision holds the totals around its stage, the actions of the stage's effect on the working set before it, and the names it kept. |
| `Accounting.TrailShrinks` | internal/contextmgr/compact.go:202-227 | Along every audit trail the live entries' tokens never grow from stage to stage. |
| `Pipeline.Compact` | internal/contextmgr/compact.go:188-254 | Success means a measured total within the budget, a prompt that shows every live entry in order and so every pinned one unchanged, balanced reports and a trail that replays every stage's effect from the assembled entries to what is sent; it leaves a fitting request alone. With an eviction stage in the pipeline, over budget is reported only when the pinned set alone exceeds the budget, and says so. |
| `Framing.FramedInjective` | internal/cache/key.go:229-242 | Two different component lists never feed the hash the same bytes. |
| `Framing.UnframeInverts` | internal/cache/key.go:229-242 | Reading eight-byte big-endian lengths and that many bytes gives the component list back. |
| `Framing.FeedComponents` | internal/cache/key.go:233-242 | The loop writes the length-prefixed components in order. |
| `CacheKeys.NumeralInjective` | internal/cache/key.go:93-162 | Decimal components determine the number. |
| `CacheKeys.ComponentsExact` | internal/cache/key.go:93-162 | Two requests have the same components if and only if they are of one type and agree field by field on canonical content, the optional output format included. |
| `CacheKeys.Key` | internal/cache/key.go:173-219 | Refuses exactly a missing plugin identity or body, an unknown scope, a run scope without run id, and malformed JSON; otherwise hashes the framed header and body. |
| `CacheKeys.KeysExact` | internal/cache/key.go:164-219 | Two accepted inputs feed the hash the same bytes if and only if they agree on schema version, normalized scope, run id when run-scoped, both plugin identities and the canonical request. |
| `CacheKeys.SharedAcrossRuns` | internal/cache/key.go:187-202 | Another run's id leaves the hashed bytes the same if and only if the scope is global, written out or left empty, or the id is the same. |
| `CacheKeys.MissingIsNull` | internal/cache/key.go:251-260 | A missing document keys like a null one. |
| `Globs.GlobEscape` | internal/cache/bust.go:161-172 | Escapes every glob metacharacter and nothing else. |
| `Globs.EscapedExact` | internal/cache/bust.go:158-172 | Escaped text matches itself and nothing else, whatever pattern follows. |
| `Globs.ShapeExact` | internal/cache/bust.go:56-72 | Two escaped literals, each followed by a star, match exactly the texts of that shape. |
| `Busts.AllPatternExact` | internal/cache/bust.go:56-60 | The match-all pattern reaches every entry under the prefix, of every key version. |
| `Busts.PluginPatternExact` | internal/cache/bust.go:68-71 | The (kind, name) pattern matches an entry under the prefix, of any key version, if and only if the entry is that plugin's. |
| `Busts.KindPatternExact` | internal/cache/bust.go:66-67 | The kind pattern matches an entry if and only if its kind is that kind or its plugin is named like it. |
| `Busts.KindPatternOverreaches` | internal/cache/bust.go:22-35 | Busting the kind tool also takes the entries of a retriever named tool. |
| `Busts.StatsSurvive` | internal/cache/bust.go:53-55 | No bust pattern matches a stats key of the same prefix. |
| `Busts.BustPattern` | internal/cache/bust.go:56-72 | Refuses exactly a name without a kind and an unknown kind; otherwise the pattern matches exactly the entries it is said to reach and no stats key. |
| `Busts.StatsRoundTrip` | internal/cache/bust.go:120-131 | Parsing a stats key yields a plugin if and only if the key is the one built for it, with non-empty kind and name and no separator in the kind. |
| `Pointers.CheckJSONPointer` | internal/dag/validation.go:18-35 | Accepts exactly the empty string and the slash-led strings whose every tilde starts an escape. |
| `Pointers.TwoPassesAreOne` | internal/blackboard/blackboard.go:361-365 | Replacing ~1 and then ~0 over the whole string equals the one-pass reading of section 4 of RFC 6901, for every string. |
| `Pointers.ParsePointer` | internal/blackboard/blackboard.go:356-367 | Refuses exactly a pointer without leading slash; otherwise yields the segments, each read as the standard reads it. |
| `Pointers.ParsePointerInverts` | internal/blackboard/blackboard.go:354-367 | Writing any token list and parsing it back returns the list. |
| `Pointers.PointerIsValid` | internal/dag/validation.go:11-35 | Every written pointer is accepted by the check. |
| `Pointers.PointerRoundTrip` | internal/blackboard/blackboard.go:354-367 | Reading an accepted pointer and writing it back returns it. |
| `Resolution.ResolvePointer` | internal/blackboard/blackboard.go:312-352 | The token loop computes the walk along the decoded tokens; the empty pointer selects the whole document. |
| `Resolution.WalkExact` | internal/blackboard/blackboard.go:318-352 | The walk finds a value if and only if a path of keys and positions spelled by the tokens leads to it: nothing comes from a missing key, a position out of range or a scalar. |
| `Resolution.AtoiExact` | internal/blackboard/blackboard.go:337-342 | Read as an index: an optional sign, any number of zeros, the numeral, and nothing else. |
| `Resolution.LooseExact` | internal/blackboard/blackboard.go:337-342 | The index tokens outside the standard are exactly those with a plus sign, a leading zero, or a negative zero. |
| `Resolution.EveryValueIsAddressed` | internal/blackboard/blackboard.go:306-352 | Every value inside a document is addressed by the pointer written for its path, whatever characters its keys hold. |
| `Resolution.StandardIff` | internal/blackboard/blackboard.go:337-342 | The resolver agrees with the standard on every document if and only if no token is a signed or zero-padded index. |
| `Resolution.StrictIndex` | internal/blackboard/blackboard.go:337-342 | The strict reading the resolver is compared with takes exactly the numerals of the positions in range. |
| `Resolution.LooseIndexWitness` | internal/blackboard/blackboard.go:337-342 | /1, /01 and /+1 address the same array element. |

## Left out

- The engine, store, HTTP, authentication and transport layers: wiring over databases and libraries; the store's commit of an expansion appears only as the move that appends an accepted plan.
- JSON decoding and encoding of definitions, step configs, map items and summaries: configs are reduced to the join mode and the reference tokens of their template expressions.
- Finding the reference tokens inside template text (`rewriteExprRefs`, `rewriteTemplateString`): the rewriters are modelled token by token, and malformed templates are not; rendering is modelled as what each reference reads, not as text.
- Expansions.CheckRefs: does not check references to run parameters, because each is one lookup in a set that no other check reads.
- Expansions.ValidateExpansion: does not model the per-field checks of steps and edges (type, config, retry, cache, timeout, budget, validation, blackboard, context and edge-condition fields) nor the parameter lint, because each looks at one field on its own and adds its issue independently of the graph.
- Loops.GenerateLoopExpansion: does not model the failures of agent resolution and of rewriting a config document, because both come from the JSON layer that is left out.
- Maps.GenerateMapExpansion: does not model the failures of rewriting a config document, because they come from the JSON layer that is left out.
- Issue texts, reasons in reports, the fallback text of a revision, summary provenance and prices: labels carried along unchanged.
- The conditions on edges: a step's outcome when run is a parameter, so an edge that does not fire is a skip outcome.
- Truncation.Assemble: does not resolve sources or quote names in rendered blocks, because both are string plumbing; what a source resolved to is an input.
- Truncation.TruncateToTokens: does not return the number of removed tokens, because it only feeds a reason text.
- Compaction.CompactState.Summarize: does not model blackboard reads and writes step by step, because only their outcome matters to the working set; it is part of the summarizer's reply.
- SHA-256 and hexadecimal encoding: the model stops at the bytes fed to the hash. Canonical JSON and float formatting are parameters, a float text being only known not to start with the letter n.
- Redis bracket expressions: no pattern built here contains one, so every result holds for any reading of them; Redis itself and time-to-live are not modelled.
- Text is a sequence of characters; UTF-8 and invalid byte sequences are not modelled, except that cache-key components are byte sequences.
- Integers are unbounded; lengths in frames are below two to the 64th, as slices are.
- Slices that are local to one Go function are reassigned sequences here, not arrays, so in-place update and aliasing inside a function are not captured; the compaction state, which outlives its functions, is an object.
- The resolved expansion defaults, the hit-rate arithmetic, retry and backoff policies, and schema output: short functions without a property worth a theorem.
