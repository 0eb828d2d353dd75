# Circuit scheduling, modelled in Dafny

This project models the scheduling half of the controller `Circuit` of a
minimalist, graph-based logic circuit simulator
(`src/simulator/control/Circuit.java`). The controller holds:

- level 0 of its net list: the explicit inputs and clocks, registered by `addNode`;
- a list of clocks;
- a record `removed` of the edges it has cut.

`startCircuit` then runs three phases:

1. `removeLoop` repeats an iterative depth-first search from every level-0
   node. Each search that finds a back edge cuts one edge and records it.
   The repetition stops once a whole pass cuts nothing.
2. A levelizer sorts the reachable nodes into levels:
   - exact mode (`initializeNetList`/`initializeLevel`) promotes a node only
     once all of its input links are valid;
   - real mode (`realModeInitializeNetList`/`realModeInitializeLevel`) promotes
     every destination.
3. `addLoop` puts every recorded edge back.

`evaluateNetList` then evaluates the levels in order.

The graph is an arena. `Network.Node` and `Network.Link` are values stored in
two sequences and named by their index (`NodeId`, `LinkId`). A node keeps:

- its kind (explicit input, clock, other);
- its input links and output links, in order;
- its `loop` and `visited` flags.

A link keeps its destinations, in order, and its `valid` flag.
`Control.Circuit` is a class with fields for the arena, the net list, the
records, the clocks and the shared `StackFrame.returnValue` flag. Its methods
update these fields in place.

Files and what each holds:

- `network.dfy`: the graph, the sequence edits `List.remove(int)` and
  `List.remove(Object)`, cutting and restoring edges, and the ghost ranking
  that proves a part of the graph reaches no cycle.
- `search.dfy`: the search stack and the invariant of `depthFirstSearch`.
- `levels.dfy`: the level sets as values (`Levelized`), and what they
  guarantee.
- `circuit.dfy`: the class and its methods, and the chain of passes of
  `removeLoop` (`Pass`, `Cut`, `PassCuts`, `PassesCut`, `CutByPasses`).
- `scenarios.dfy`: the smallest feedback loop (an input E driving A, A
  driving B, B driving A), on which `startCircuit` is shown to cut exactly
  the edge B→A.

Assumptions about code this model does not include (`Node`, `Link` and
`StackFrame` are not part of this model):

- a new element has `loop` true and `visited` false, and a new link has
  `valid` false;
- `new StackFrame(n)` starts its cursor at `i = j = 0`, and `j` is an `int`,
  so `getDestinations().remove(j)` removes by position;
- `StackFrame.returnValue` is a single static flag, shared by all searches;
- `node.addInput(link)` appends `link` to the node's inputs and appends the
  node to `link`'s destinations.

How the code maps to the model:

- `depthFirstSearch` runs on the arena as values (`Control.RunSearch`), and the
  class method stores the result back.
- Its outer loop is split by the two things a frame does in one turn
  (`EnterFrame`, `CutBackEdgeAt`, `FinishFrame`, `SkipExhausted`).
  - The inner `while` over `j` either cuts or pushes on its first turn, so it
    is modelled as an `if`.
  - Each `continue outer` becomes a return from `EnterFrame`.
- The nested loops of both level methods are written once, as
  `VisitLevel`, `VisitNode` and `VisitLink`. A `realMode` flag skips the
  `flag` check of exact mode.
- `addLoop`'s loops work on values (`RestoreAll`, `RestoreNext`, `RestoreLink`);
  `Circuit.AddLoop` stores the result back.
- `Schedule`, `LevelizeAndRestore` and `Levelize` hold the phases that both
  `startCircuit` overloads share.

Termination of the search and of `removeLoop`:

- Each pass of `removeLoop` that cuts an edge leaves fewer edges.
- The passes form a ghost chain of graphs (`Control.CutByPasses`). Each
  graph in it comes from the one before by cutting one back edge of THAT
  graph, found at the end of a simple path from a level-0 node
  (`Control.PassCuts`). Each cut is named by a ghost `Cut` value: the
  level-0 root, the link, the position in its destinations and the path.
  The methods that run `removeLoop` return these passes and cuts as ghost
  results. A last pass that cuts nothing only clears flags.
- A search terminates by a lexicographic measure: the flag set by a cut, the
  number of `loop` flags still set, the number of unentered nodes, the
  remaining cursor work, and the stack height.
- A cleared node gets a ghost `rank` when its `loop` flag is cleared. Every
  successor of a cleared node is cleared, with a smaller rank
  (`Network.LoopFreeRanked`).
- Once no level-0 node is a loop candidate, the ranking proves that every
  path from level 0 is simple. It also bounds the number of levels, which is
  why the levelizers' loops end.

Where the documentation of the system says otherwise, the model follows the
code:

- `addLoop` puts a cut destination back at the END of its link's
  destinations, and the input at the end of the node's inputs. It does not
  restore their old positions, so only their multisets come back.
- `removed` is never cleared.
- The mode test is case-sensitive: exactly `"REAL"`, `"Real"` and `"real"`
  select real mode (`Control.ModeSpellings`).
- Nodes do not end up on exactly one level each:
  - real mode puts every destination of level k on level k+1, so a node
    reached by paths of different lengths appears on several levels;
  - exact mode places a node only once all of its input links are valid, so
    a node with an input whose producer is never scheduled (not reachable
    from level 0) is left out of every level;
  - what the model proves is that no level from 1 on holds a node twice
    (`Levels.LevelizedHasNoDuplicates`); level 0 is as `addNode` built it,
    duplicates included.

## Model

| member | source | states |
|---|---|---|
| Control.Circuit.constructor | src/simulator/control/Circuit.java:16-22 | a new controller over a graph of unvisited loop candidates has one empty level, no records, no clocks and `returnValue` false, and keeps the graph as built |
| Control.Circuit.AddNode | src/simulator/control/Circuit.java:24-32 | explicit inputs and clocks are appended to level 0 (with no duplicate check), clocks are also appended to the clocks, and any other node changes nothing |
| Control.Circuit.StartCircuit | src/simulator/control/Circuit.java:34-45 | the new state is `Scheduled` from the old one in the mode `IsRealMode(mode)` selects, through the chain of passes `removeLoop` went through, each cutting one back edge of the graph the pass before left; the clocks are unchanged and the circuit is started |
| Control.Circuit.StartCircuitDefault | src/simulator/control/Circuit.java:47-54 | the same as `StartCircuit`, always in exact mode, with the same chain of cutting passes |
| Control.Circuit.Schedule | src/simulator/control/Circuit.java:47-50 | the phases run in order: `removeLoop`, then the levelizer, then `addLoop`; the result is `Scheduled`: edges cut and accounted for; the cuts form a chain of passes in which each pass cuts one back edge of the graph the pass before left, at the end of a simple path from a level-0 node (so no pass cuts an edge whose cycle an earlier cut already broke); each cut edge closes a cycle of the given graph reachable from level 0; level 0 reaches no cycle in the cut graph, the levels are the levelization of the cut graph, exact mode makes the levels' outputs valid, and the cut edges are put back |
| Control.Circuit.LevelizeAndRestore | src/simulator/control/Circuit.java:36-41 | the levelizer of the mode, then the restoration, over the graph `removeLoop` left |
| Control.Circuit.Levelize | src/simulator/control/Circuit.java:36-40 | real mode runs the real-mode levelizer, any other mode the exact one; the graph's destinations are unchanged |
| Control.IsRealMode | src/simulator/control/Circuit.java:36 | the mode selection, as a predicate on the mode string |
| Control.ModeSpellings | src/simulator/control/Circuit.java:36 | "REAL", "Real" and "real" select real mode; other capitalisations, the empty string and other words do not |
| Control.Circuit.AddLoop | src/simulator/control/Circuit.java:62-68 | every recorded link gets its records back, appended to its destinations; every node gets one more input per record naming it; nothing else changes, and `removed` is kept |
| Control.RestoreAll | src/simulator/control/Circuit.java:63-67 | after visiting every key of `removed`, in any order, all records are restored (`RestoredLinks` over all keys) |
| Control.RestoreNext | src/simulator/control/Circuit.java:63-67 | one more key of `removed` restored keeps the restoration invariant |
| Control.RestoreLink | src/simulator/control/Circuit.java:64-66 | `addInput(link)` for each record in order: the link's destinations get the records appended; each node gets `link` once per occurrence in the records; nothing else changes |
| Control.Circuit.DepthFirstSearch | src/simulator/control/Circuit.java:103-153 | the result equals `returnValue`. If true, exactly one edge was cut and recorded, and it closes a cycle through a path from the root (`BackEdgeCut`). If false, links and records are unchanged and the root is no longer a loop candidate. Either way no node stays visited, `loop` flags are only cleared, validity is unchanged, and the loop-freedom ranking is kept |
| Control.RunSearch | src/simulator/control/Circuit.java:103-153 | the search on the arena as values, with the same guarantees; a root that is not a loop candidate changes nothing |
| Control.EnterFrame | src/simulator/control/Circuit.java:119-149 | one turn on a loop-candidate frame keeps the search invariant and decreases the termination measure |
| Control.CutBackEdgeAt | src/simulator/control/Circuit.java:123-134 | cutting a back edge: relative to its own inputs exactly that edge is severed (`Severed`: the destination is recorded, the first matching input removed, the destination removed by position), the top frame is popped and its node unvisited; the invariant is kept and the cut edge closes a cycle |
| Control.FinishFrame | src/simulator/control/Circuit.java:145-149 | a node with no destination left is unvisited and cleared (one fewer loop candidate), its frame is popped and its parent's cursor advances |
| Control.SkipExhausted | src/simulator/control/Circuit.java:121-143 | the cursor skips exhausted output links and stops at an existing destination or past the last output link; nothing else changes |
| Control.SearchOutcomeInRange | src/simulator/control/Circuit.java:124-128 | the records a search adds name existing links and nodes |
| Search.CutBackEdge | src/simulator/control/Circuit.java:123-134 | the state after a cut satisfies the unwinding invariant with the cut edge recorded |
| Search.CutClosesCycle | src/simulator/control/Circuit.java:123-130 | a visited destination of the top frame lies on the stack's path, so the cut edge closes a cycle |
| Search.SearchEnds | src/simulator/control/Circuit.java:108-152 | when the stack is empty, no node is visited |
| Search.FinishNode | src/simulator/control/Circuit.java:145-149 | clearing a finished node keeps the search invariant and the ranking |
| Search.UnwindStep | src/simulator/control/Circuit.java:111-117 | after a cut, each pop keeps the unwinding invariant |
| Search.SkipCleared | src/simulator/control/Circuit.java:111-117 | popping a node that is not a loop candidate keeps the search invariant |
| Search.PushChild | src/simulator/control/Circuit.java:137-138 | pushing an unvisited destination keeps the search invariant |
| Control.Circuit.RemoveLoop | src/simulator/control/Circuit.java:155-168 | the loop ends (each restart follows one cut edge fewer); afterwards no level-0 node is a loop candidate and `returnValue` is false; the graph differs from the old one only by cut and recorded edges and cleared flags; every edge it cut closes a cycle of the old graph reachable from level 0 (`CutsCloseCycles`), so on a graph with no such cycle it cuts nothing; the restarts form a chain of passes (`CutByPasses`), each cutting one back edge of the graph the pass before left, one edge fewer per pass |
| Control.Circuit.TrackedScan | src/simulator/control/Circuit.java:158-167 | one turn of `removeLoop`'s loop keeps, relative to the graph the loop started on, both the edge accounting and the fact that every cut closes a cycle; a turn that cuts leaves exactly one edge fewer and extends the chain of passes by one back-edge cut of the graph on entry; one that does not changes neither links nor records and closes the chain |
| Control.Circuit.ScanLevelZero | src/simulator/control/Circuit.java:159-166 | one pass: `returnValue` is reset, searches run in level-0 order until one cuts; a pass that cuts removes exactly one edge, which closes a cycle through a path from a level-0 node of the graph on entry (`BackEdgeCut`); a pass that does not has every level-0 node cleared and nothing cut |
| Control.CutFromScan | src/simulator/control/Circuit.java:161-165 | searches that cut nothing followed by one that cuts make up a step of the loop breaker, with one edge fewer, and the cut closes a cycle of the graph the pass started on |
| Control.ScanStep | src/simulator/control/Circuit.java:158-167 | a pass, whether or not it cut, keeps the accounting and the cycle-closing of all records since `removeLoop` began |
| Control.CutAddsCycleRecord | src/simulator/control/Circuit.java:123-134 | a cut found in a graph that has only lost edges closes a cycle of the original graph too, so the records stay cycle-closing |
| Network.CycleGivesRepeat | src/simulator/control/Circuit.java:123 | an edge that closes a cycle from level 0 gives a path from level 0 that repeats a node |
| Network.NoCycleNoCut | src/simulator/control/Circuit.java:155-168 | when no cycle is reachable from level 0, a loop breaker that only cuts cycle-closing edges leaves records, links and inputs as they were |
| Network.LoopFreePathsAreSimple | src/simulator/control/Circuit.java:145-146 | no cycle is reachable from a node whose `loop` flag is cleared, and every path from it is bounded by the ranking |
| Network.RankedPathDescends | src/simulator/control/Circuit.java:145-146 | along a path from a cleared node, every node is cleared and the ranks strictly decrease |
| Network.RemoveAt | src/simulator/control/Circuit.java:130 | `List.remove(int)`: one element fewer, the multiset loses exactly the element at the position |
| Network.RemoveFirst | src/simulator/control/Circuit.java:129 | `List.remove(Object)`: if the element is present, one occurrence is removed; otherwise the list is unchanged |
| Network.SeverSummary | src/simulator/control/Circuit.java:124-130 | one cut removes exactly one edge, accounts for it in the records, and keeps destinations and inputs matched |
| Network.SeverCountsDown | src/simulator/control/Circuit.java:130 | removing one destination lowers the edge count by one |
| Network.SeverKeepsAccount | src/simulator/control/Circuit.java:124-130 | per link, destinations plus records are the same multiset before and after a cut |
| Network.SeverKeepsConsistent | src/simulator/control/Circuit.java:129-130 | a cut keeps every destination matched by an input |
| Network.SeverKeepsRecordsInRange | src/simulator/control/Circuit.java:128 | a cut records an existing node |
| Network.RestoredLinksRestored | src/simulator/control/Circuit.java:62-68 | the restoration after levelization, seen from the cut graph: each link's destinations are its cut destinations plus its records, and each node's input counts grow by its records |
| Network.RestoredLinksKeepValid | src/simulator/control/Circuit.java:62-68 | restoring in-range records keeps the graph well formed, keeps the outputs, and keeps all nodes unvisited |
| Network.RestoredLinkStep | src/simulator/control/Circuit.java:65 | one more `addInput` appends one destination and one input |
| Network.RestoredLinksStep | src/simulator/control/Circuit.java:63-67 | restoring one more link extends the restoration |
| Control.Circuit.InitializeNetList | src/simulator/control/Circuit.java:170-175 | the loop ends; the levels are the exact-mode levelization of the graph on entry; the links made valid are exactly the outputs of the levels |
| Control.Circuit.InitializeLevel | src/simulator/control/Circuit.java:177-206 | every output of the level becomes valid; then the ready destinations of the level, in visiting order, are appended to the next level (created if needed) without duplicates |
| Control.Circuit.MarkOutputsValid | src/simulator/control/Circuit.java:178-182 | the valid links grow by exactly the outputs of the level's nodes; destinations are unchanged |
| Control.Circuit.AllInputsValid | src/simulator/control/Circuit.java:187-192 | the flag is true exactly when every input link of the node is valid |
| Control.Circuit.PromoteReady | src/simulator/control/Circuit.java:184-205 | the next level gets the level's ready successors appended in order, minus those already there |
| Control.Circuit.RealModeInitializeNetList | src/simulator/control/Circuit.java:208-213 | the loop ends; the levels are the real-mode levelization |
| Control.Circuit.RealModeInitializeLevel | src/simulator/control/Circuit.java:215-229 | the next level gets every destination of the level's outputs appended in order, minus those already there; validity plays no part |
| Control.Circuit.VisitLevel | src/simulator/control/Circuit.java:216-228 | the loop over the level's nodes computes `Visit` over the level's successors, in order |
| Control.Circuit.VisitNode | src/simulator/control/Circuit.java:217-227 | the loop over one node's outputs extends `Visit` by that node's destinations |
| Control.Circuit.VisitLink | src/simulator/control/Circuit.java:186-202 | the loop over one link's destinations extends `Visit` by them: each one is promoted (exact mode: only if ready) |
| Control.ExactLevelStep | src/simulator/control/Circuit.java:172-173 | one turn of `initializeNetList` keeps the levelization invariant; the valid links are the outputs of the processed levels |
| Control.RealLevelStep | src/simulator/control/Circuit.java:210-211 | one turn of `realModeInitializeNetList` keeps the levelization invariant |
| Levels.AppendNew | src/simulator/control/Circuit.java:199-200 | appending only what is absent: the members are those of both lists, the old list is a prefix, and distinct stays distinct |
| Levels.ReadyOnly | src/simulator/control/Circuit.java:187-194 | keeps exactly the ready elements |
| Levels.VisitIsGrow | src/simulator/control/Circuit.java:194-201 | visiting the successors in turn equals appending the promoted ones (`Grow`) |
| Levels.ExactLevelsRespectInputs | src/simulator/control/Circuit.java:184-205 | in exact mode, a node placed at level k+1 is a destination of a level-k node; each of its inputs was valid before or is an output of a node at level k or below |
| Levels.ExactMemberIsReady | src/simulator/control/Circuit.java:187-201 | a node exact mode adds at level k+1 is a ready successor of level k |
| Levels.RealLevelsFollowEdges | src/simulator/control/Circuit.java:216-225 | in real mode, a node placed at level k+1 is a destination of a level-k node |
| Levels.LevelizedIsComplete | src/simulator/control/Circuit.java:172-173 | a node promoted from level k is at level k+1 |
| Levels.LevelizedHasNoDuplicates | src/simulator/control/Circuit.java:199-200 | levels 1 and above hold no node twice |
| Levels.LevelizedStopsOnlyWhenDone | src/simulator/control/Circuit.java:172 | every added level was promoted from the one before it |
| Levels.LevelizedIsDeterministic | src/simulator/control/Circuit.java:170-229 | the same graph and the same level 0 always give the same levels |
| Levels.LevelizedAgreeBelow | src/simulator/control/Circuit.java:170-229 | two levelizations agree on every common prefix |
| Levels.LevelizedStepAgrees | src/simulator/control/Circuit.java:195-200 | each level is fixed by the levels before it |
| Levels.LevelizedPrefixIsWhole | src/simulator/control/Circuit.java:172 | a levelization that is a prefix of another is all of it |
| Levels.RankedLevelsAreFew | src/simulator/control/Circuit.java:172 | on loop-free levels, the number of levels is bounded by the ranking |
| Levels.GrowKeepsRanked | src/simulator/control/Circuit.java:194-201 | promoting the successors of loop-free nodes keeps the levels loop-free, with smaller ranks |
| Levels.FlattenSplits | src/simulator/control/Circuit.java:232-236 | level order: everything on the levels below k is evaluated before anything on level k or above |
| Levels.FlattenMembership | src/simulator/control/Circuit.java:231-237 | a node is evaluated exactly when it is on some level |
| Control.Circuit.EvaluateNetList | src/simulator/control/Circuit.java:231-237 | the `evaluate` calls are every level in turn, level 0 first, each in list order (`Flatten`) |
| Control.PhasesSchedule | src/simulator/control/Circuit.java:35-41 | the three phases together give `Scheduled`, carrying the chain of passes of `removeLoop` |
| Control.PassesCutSnoc | src/simulator/control/Circuit.java:158-167 | one more cutting pass extends the chain |
| Control.NextPasses | src/simulator/control/Circuit.java:158-167 | a turn of `removeLoop`'s loop extends the chain (a cut) or closes it (no cut), one edge fewer per cutting pass |
| Control.PhasesKeepValidity | src/simulator/control/Circuit.java:35-41 | the cut and the restoration keep validity; only the exact levelizer sets it |
| Control.ScheduledRestoresEdges | src/simulator/control/Circuit.java:41 | after `startCircuit`, each link has every destination it had before plus earlier records, counted with multiplicity |
| Control.ScheduledKeepsConsistent | src/simulator/control/Circuit.java:35-41 | matched destinations and inputs stay matched through `startCircuit` |
| Control.StartRestoresGraph | src/simulator/control/Circuit.java:35-41 | a new, consistent circuit gets its exact graph back, up to the order of destinations and inputs |
| Control.ScheduledHasNoCycle | src/simulator/control/Circuit.java:35-39 | the levels were built on a graph in which no path from level 0 repeats a node |
| Scenarios.TrailAt | src/simulator/control/Circuit.java:119-138 | on the loop E→A→B→A, a path from E alternates A and B after E |
| Scenarios.SimpleTrails | src/simulator/control/Circuit.java:119-138 | on the loop, a path from E with no node twice is a prefix of E, A, B |
| Scenarios.OnlyBackEdge | src/simulator/control/Circuit.java:123-130 | on the loop, the only edge that leads back onto a simple path from E is B→A, and only while it is not cut |
| Scenarios.CutIsFeedback | src/simulator/control/Circuit.java:123-134 | a cutting pass on the loop cuts B→A: link 2 loses node 1, which is recorded under link 2 |
| Scenarios.RankedCutsTheLoop | src/simulator/control/Circuit.java:145-146 | once E is cleared, B→A cannot remain |
| Scenarios.LoopNeedsACut | src/simulator/control/Circuit.java:155-168 | on the loop, `removeLoop` cannot end without cutting |
| Scenarios.NoSecondCut | src/simulator/control/Circuit.java:155-168 | on the loop with B→A cut, no pass cuts anything |
| Scenarios.ChainStops | src/simulator/control/Circuit.java:155-168 | on the loop, the chain of passes ends after the first cut |
| Scenarios.ChainCutsOnce | src/simulator/control/Circuit.java:155-168 | on the loop, the chain is the loop and the loop with B→A cut |
| Scenarios.LoopCutsOnce | src/simulator/control/Circuit.java:34-54 | `startCircuit` on a circuit of the loop's shape, in either mode, has exactly one cutting pass, which cuts link 2 at position 0 in a search from E; its only record is B→A |
| Scenarios.LoopScenario | src/simulator/control/Circuit.java:34-54 | the same, on the concrete loop: one cut, link 2 at position 0 from E; the cut graph has link 2 empty and `removed` is `{2: [1]}` |
| Control.ScheduledLoopFreeCutsNothing | src/simulator/control/Circuit.java:35-41 | on a circuit with no cycle reachable from level 0, `startCircuit` cuts nothing and the levels are the levelization of the graph as given |

## Left out

- The evaluation thread, `run` and `thread.start()`: concurrency. The model only records that the circuit was started (`started`).
- `startClocks`: it calls into `Clock`, which is not part of this model. `StartCircuit` leaves the clocks unchanged.
- `Simulator.debugger`: foreign code, not part of this model.
- `Node.evaluate`: element behaviour is not part of this model. `EvaluateNetList` models only the ORDER of the calls.
- The commented-out recursive `depthFirstSearch`: it is dead code.
- The iteration order of `removed.keySet()` in a `HashMap` is unspecified: `RestoreAll` picks keys in any order, and its contract holds for every order.
- A `null` mode (a `NullPointerException` in Java): strings in the model are never null.
- A second `startCircuit`: Java throws on the second `thread.start()`. The start methods require a new circuit (`Fresh`).
- `Node.addInput`, `Link` and `StackFrame`: their behaviour is the assumption stated in the overview.
- Control.Circuit.AddLoop: the order of restored destinations and inputs is stated as an append at the end, per link in an unspecified order of links. Position-based properties of the original order are not claimed.
- Control.Circuit.Levelize: the levelizers are modelled for the first start only (one level on entry, level 0 all cleared by `removeLoop`), which is what makes their loops provably end. On a graph with a cycle reachable from level 0, real mode would never stop adding levels; exact mode may or may not stop (a node on the cycle waits for an input that never becomes valid). `removeLoop` always rules such a cycle out first, so neither case arises in `startCircuit`.
- Control.Circuit.RemoveLoop: the contract says that each pass cuts one back edge of the graph the pass before left, at the end of a simple path from a level-0 node. It does not say WHICH one: Java cuts the first such edge its search meets, in the order of level 0, of output links and of destinations. On a graph with several cycles the cut set, and so the levels, are not pinned down by the contract (the loop in `Scenarios` has a single candidate, so there they are).
- Control.Circuit.Schedule: inherits the same gap from `RemoveLoop`: which back edge each pass cuts is not stated.
- Control.Circuit.StartCircuit: inherits the same gap from `RemoveLoop`: which back edge each pass cuts is not stated.
- Control.Circuit.StartCircuitDefault: inherits the same gap from `RemoveLoop`: which back edge each pass cuts is not stated.
- Control.PhasesSchedule: inherits the same gap from `RemoveLoop`: which back edge each pass cuts is not stated.
- Control.Circuit.DepthFirstSearch: stated for a search started with no node visited, which `removeLoop` guarantees between searches.
