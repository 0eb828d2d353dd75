/** The controller (`simulator.control.Circuit`): it registers the input
    nodes, breaks every cycle reachable from them, sorts the reachable nodes
    into levels for evaluation, and then puts the cut edges back.

    The graph is an arena: `nodes` and `links` are indexed by `NodeId` and
    `LinkId`, and each entry stands for the Java object at that index.  The
    ghost fields `rank` and `stamp` carry the proof that the nodes whose
    `loop` flag is cleared reach no cycle (see `Network.LoopFreeRanked`). */
module Control {
  import opened Network
  import opened Levels
  import opened Search

  /** The mode test of `startCircuit`: a case-sensitive comparison against
      exactly three spellings of "real". */
  predicate IsRealMode(mode: string)
  {
    mode == "REAL" || mode == "Real" || mode == "real"
  }

  /** The graph as `removeLoop` leaves it after a pass: the arena and the records. */
  datatype Pass = Pass(nodes: seq<Node>, links: seq<Link>, removed: map<LinkId, seq<NodeId>>)

  /** How a cutting pass found its back edge: the search from the level-0
      node `root` reached the end of the simple path `trail` and cut the
      destination at position `pos` of the output link `link` there. */
  datatype Cut = Cut(root: NodeId, link: LinkId, pos: nat, trail: seq<NodeId>)

  /** A pass of `removeLoop` that cut: `after` is `before` with one edge cut
      and recorded, and that edge is the back edge `cut` of `before` itself,
      found at the end of a simple path from a level-0 node (`BackEdgeCut`). */
  ghost predicate PassCuts(before: Pass, after: Pass, level0: seq<NodeId>, cut: Cut)
  {
    && Broken(before.nodes, before.links, before.removed, after.nodes, after.links, after.removed)
    && cut.root in level0
    && BackEdgeCut(before.nodes, before.links, before.removed, after.nodes, after.links, after.removed,
                   cut.link, cut.pos, cut.trail, cut.root)
  }

  /** Every pass in `passes` after the first is reached from the one before
      by one such cut; `cuts[k]` is the cut that leads from `passes[k]` to
      `passes[k + 1]`. */
  ghost predicate PassesCut(passes: seq<Pass>, cuts: seq<Cut>, level0: seq<NodeId>)
  {
    && |cuts| + 1 == |passes|
    && forall k :: 0 <= k < |cuts| ==> PassCuts(passes[k], passes[k + 1], level0, cuts[k])
  }

  /** `removeLoop` went from `start` through the cutting passes `passes`
      (`passes[0]` is `start`), and a last pass that cut nothing left
      `nodes`/`links`/`removed`: it only cleared flags. */
  ghost predicate CutByPasses(passes: seq<Pass>, cuts: seq<Cut>, start: Pass, level0: seq<NodeId>,
                              nodes: seq<Node>, links: seq<Link>, removed: map<LinkId, seq<NodeId>>)
  {
    && PassesCut(passes, cuts, level0) && passes[0] == start
    && var last := passes[|passes| - 1];
       last.links == links && last.removed == removed && SameShape(last.nodes, nodes) && SameInputs(last.nodes, nodes)
  }

  lemma PassesCutSnoc(passes: seq<Pass>, cuts: seq<Cut>, next: Pass, cut: Cut, level0: seq<NodeId>)
    requires PassesCut(passes, cuts, level0) && PassCuts(passes[|passes| - 1], next, level0, cut)
    ensures PassesCut(passes + [next], cuts + [cut], level0)
  {
    var longer, more := passes + [next], cuts + [cut];
    forall k | 0 <= k < |more|
      ensures PassCuts(longer[k], longer[k + 1], level0, more[k])
    {
      if k < |cuts| {
        assert longer[k] == passes[k] && longer[k + 1] == passes[k + 1] && more[k] == cuts[k];
      } else {
        assert longer[k] == passes[|passes| - 1] && longer[k + 1] == next && more[k] == cut;
      }
    }
  }

  /** The bookkeeping of `removeLoop`'s loop: `passes` are the cutting
      passes so far from `start`, whose `edges0` edges each lost one; while
      the loop goes on the last pass is the current graph `current`, and
      once it is `done` the current graph differs from it only in flags. */
  ghost predicate Passing(passes: seq<Pass>, cuts: seq<Cut>, start: Pass, level0: seq<NodeId>, edges0: nat,
                          current: Pass, done: bool)
  {
    && PassesCut(passes, cuts, level0) && passes[0] == start
    && EdgeCount(current.links) + |cuts| == edges0
    && if done then CutByPasses(passes, cuts, start, level0, current.nodes, current.links, current.removed)
       else passes[|passes| - 1] == current
  }

  /** One turn of `removeLoop`'s loop extends the passes by the graph a
      cutting pass left, and ends them with a pass that cut nothing. */
  lemma NextPasses(passes: seq<Pass>, cuts: seq<Cut>, start: Pass, level0: seq<NodeId>, edges0: nat,
                   before: Pass, after: Pass, cutting: bool, cut: Cut)
    returns (passes': seq<Pass>, cuts': seq<Cut>)
    requires Passing(passes, cuts, start, level0, edges0, before, false)
    requires cutting ==> EdgeCount(after.links) + 1 == EdgeCount(before.links) && PassCuts(before, after, level0, cut)
    requires !cutting ==> && after.links == before.links && after.removed == before.removed
                          && SameShape(before.nodes, after.nodes) && SameInputs(before.nodes, after.nodes)
    ensures Passing(passes', cuts', start, level0, edges0, after, !cutting)
    ensures cuts' == if cutting then cuts + [cut] else cuts
  {
    if cutting {
      PassesCutSnoc(passes, cuts, after, cut, level0);
      passes', cuts' := passes + [after], cuts + [cut];
    } else {
      passes', cuts' := passes, cuts;
    }
  }

  class Circuit {
    var nodes: seq<Node>
    var links: seq<Link>
    var netList: seq<seq<NodeId>>
    var removed: map<LinkId, seq<NodeId>>
    var clocks: seq<NodeId>
    /** The shared `StackFrame.returnValue` flag. */
    var returnValue: bool
    /** Whether `startCircuit` has run (the evaluation thread was started). */
    var started: bool
    ghost var rank: seq<nat>
    ghost var stamp: nat

    /** Every identifier the controller holds names an arena entry, and no
        node is marked visited between two searches. */
    ghost predicate Valid()
      reads this`nodes, this`links, this`netList, this`removed, this`clocks, this`rank
    {
      && WellFormed(nodes, links)
      && |netList| >= 1
      && (forall k, q :: 0 <= k < |netList| && 0 <= q < |netList[k]| ==> netList[k][q] < |nodes|)
      && RecordsInRange(removed, |nodes|, |links|)
      && (forall q :: 0 <= q < |clocks| ==> clocks[q] < |nodes|)
      && NoneVisited(nodes)
      && |rank| == |nodes|
    }

    /** Not started yet: only level 0 exists, and the ranking accounts for
        every node whose `loop` flag is already cleared. */
    ghost predicate Fresh()
      reads this
    {
      !started && |netList| == 1 && LoopFreeRanked(nodes, links, rank, stamp)
    }

    /** `new Circuit()`, over a graph whose nodes and links were built
        beforehand: every node starts as a loop candidate and unvisited. */
    constructor(nodes0: seq<Node>, links0: seq<Link>)
      requires WellFormed(nodes0, links0)
      requires forall n :: 0 <= n < |nodes0| ==> nodes0[n].loop && !nodes0[n].visited
      ensures Valid() && Fresh()
      ensures nodes == nodes0 && links == links0
      ensures netList == [[]] && removed == map[] && clocks == [] && !returnValue
    {
      nodes, links := nodes0, links0;
      removed := map[];
      netList := [[]];
      clocks := [];
      returnValue := false;
      started := false;
      rank := seq(|nodes0|, _ => 0);
      stamp := 0;
    }

    /** `addNode`: explicit inputs and clocks join level 0 (no check for
        duplicates); clocks are also listed as clocks; any other node
        changes nothing. */
    method AddNode(n: NodeId)
      requires Valid() && n < |nodes|
      modifies this`netList, this`clocks
      ensures Valid() && (old(Fresh()) ==> Fresh())
      ensures netList == if nodes[n].kind == Explicit || nodes[n].kind == Clock
                         then old(netList)[0 := old(netList)[0] + [n]] else old(netList)
      ensures clocks == if nodes[n].kind == Clock then old(clocks) + [n] else old(clocks)
    {
      if nodes[n].kind == Explicit || nodes[n].kind == Clock {
        netList := netList[0 := netList[0] + [n]];
      }
      if nodes[n].kind == Clock {
        clocks := clocks + [n];
      }
    }

    /** `depthFirstSearch`: the iterative search from `root`, with an
        explicit stack of cursor frames.  It returns whether it cut a back
        edge; the ghost results name the cut edge (`cutLink`, position
        `cutPos` of its destinations) and the path `trail` that closed
        the cycle. */
    method DepthFirstSearch(root: NodeId) returns (found: bool, ghost cutLink: LinkId, ghost cutPos: nat, ghost trail: seq<NodeId>)
      requires Valid() && root < |nodes| && LoopFreeRanked(nodes, links, rank, stamp)
      modifies this`nodes, this`links, this`removed, this`returnValue, this`rank, this`stamp
      ensures Valid() && found == returnValue
      ensures SameShape(old(nodes), nodes) && LoopOnlyCleared(old(nodes), nodes) && SameValidity(old(links), links)
      ensures LoopFreeRanked(nodes, links, rank, stamp)
      ensures !found ==> links == old(links) && removed == old(removed) && SameInputs(old(nodes), nodes) && !nodes[root].loop
      ensures found ==> BackEdgeCut(old(nodes), old(links), old(removed), nodes, links, removed, cutLink, cutPos, trail, root)
      ensures !old(nodes)[root].loop ==> !found && nodes == old(nodes)
    {
      var ns, ls, rm, rv;
      ghost var rk, sp;
      ns, ls, rm, rv, rk, sp, cutLink, cutPos, trail := RunSearch(nodes, links, removed, rank, stamp, root);
      SearchOutcomeInRange(nodes, links, removed, ns, ls, rm, rv, root, cutLink, cutPos, trail);
      nodes, links, removed, returnValue, rank, stamp := ns, ls, rm, rv, rk, sp;
      found := returnValue;
      assert nodes == ns && links == ls && removed == rm && rank == rk && stamp == sp;
    }

    /** `removeLoop`: scans level 0 again and again until a whole scan cuts
        nothing.  Every restart follows the removal of one edge, so the
        scans end; at the end no level-0 node is a loop candidate, so no
        cycle is reachable from level 0 (`ScheduledHasNoCycle`).  Every edge
        it cuts closes a cycle reachable from level 0, so on a graph without
        such a cycle it cuts nothing. */
    method RemoveLoop() returns (ghost passes: seq<Pass>, ghost cuts: seq<Cut>)
      requires Valid() && LoopFreeRanked(nodes, links, rank, stamp)
      modifies this`nodes, this`links, this`removed, this`returnValue, this`rank, this`stamp
      ensures Valid() && LoopFreeRanked(nodes, links, rank, stamp) && !returnValue
      ensures forall q :: 0 <= q < |netList[0]| ==> !nodes[netList[0][q]].loop
      ensures Broken(old(nodes), old(links), old(removed), nodes, links, removed)
      ensures CutsCloseCycles(old(nodes), old(links), old(removed), netList[0], nodes, links, removed)
      ensures CutByPasses(passes, cuts, old(Pass(nodes, links, removed)), netList[0], nodes, links, removed)
      ensures EdgeCount(links) + |cuts| == old(EdgeCount(links))
      ensures NoCycleFrom(old(nodes), old(links), netList[0]) ==>
                links == old(links) && removed == old(removed) && SameInputs(old(nodes), nodes)
    {
      var loopDetected := true;
      ghost var start, edges0 := Pass(nodes, links, removed), EdgeCount(links);
      passes, cuts := [start], [];
      CutsCloseCyclesStarts(nodes, links, removed, netList[0]);
      while loopDetected
        invariant Valid() && LoopFreeRanked(nodes, links, rank, stamp)
        invariant Broken(old(nodes), old(links), old(removed), nodes, links, removed)
        invariant CutsCloseCycles(old(nodes), old(links), old(removed), netList[0], nodes, links, removed)
        invariant Passing(passes, cuts, start, netList[0], edges0, Pass(nodes, links, removed), !loopDetected)
        invariant !loopDetected ==> !returnValue && forall q :: 0 <= q < |netList[0]| ==> !nodes[netList[0][q]].loop
        decreases EdgeCount(links), if loopDetected then 1 else 0
      {
        ghost var cut;
        loopDetected, cut, passes, cuts := TrackedScan(old(nodes), old(links), old(removed), start, edges0, passes, cuts);
      }
      if NoCycleFrom(old(nodes), old(links), netList[0]) {
        NoCycleNoCut(old(nodes), old(links), old(removed), netList[0], nodes, links, removed);
      }
    }

    /** `ScanLevelZero`, together with what the pass keeps relative to the
        graph `nodes0`/`links0`/`removed0` that `removeLoop` started on. */
    method TrackedScan(ghost nodes0: seq<Node>, ghost links0: seq<Link>, ghost removed0: map<LinkId, seq<NodeId>>,
                       ghost start: Pass, ghost edges0: nat, ghost passes: seq<Pass>, ghost cuts: seq<Cut>)
      returns (loopDetected: bool, ghost cut: Cut, ghost passes': seq<Pass>, ghost cuts': seq<Cut>)
      requires Valid() && LoopFreeRanked(nodes, links, rank, stamp)
      requires Passing(passes, cuts, start, netList[0], edges0, Pass(nodes, links, removed), false)
      requires Broken(nodes0, links0, removed0, nodes, links, removed)
      requires CutsCloseCycles(nodes0, links0, removed0, netList[0], nodes, links, removed)
      modifies this`nodes, this`links, this`removed, this`returnValue, this`rank, this`stamp
      ensures Valid() && LoopFreeRanked(nodes, links, rank, stamp)
      ensures Broken(nodes0, links0, removed0, nodes, links, removed)
      ensures CutsCloseCycles(nodes0, links0, removed0, netList[0], nodes, links, removed)
      ensures loopDetected ==> EdgeCount(links) + 1 == old(EdgeCount(links))
      ensures loopDetected ==> PassCuts(old(Pass(nodes, links, removed)), Pass(nodes, links, removed), netList[0], cut)
      ensures cuts' == if loopDetected then cuts + [cut] else cuts
      ensures Passing(passes', cuts', start, netList[0], edges0, Pass(nodes, links, removed), !loopDetected)
      ensures !loopDetected ==> links == old(links) && removed == old(removed) && SameShape(old(nodes), nodes) && SameInputs(old(nodes), nodes)
      ensures !loopDetected ==> !returnValue && forall q :: 0 <= q < |netList[0]| ==> !nodes[netList[0][q]].loop
    {
      ghost var nodes1, links1, removed1 := nodes, links, removed;
      ghost var cutLink, cutPos, trail, root;
      loopDetected, cutLink, cutPos, trail, root := ScanLevelZero();
      if loopDetected {
        assert BackEdgeCut(nodes1, links1, removed1, nodes, links, removed, cutLink, cutPos, trail, root) && root in netList[0];
      }
      ScanStep(nodes0, links0, removed0, netList[0], nodes1, links1, removed1,
               nodes, links, removed, loopDetected, cutLink, cutPos, trail, root);
      cut := Cut(root, cutLink, cutPos, trail);
      passes', cuts' := NextPasses(passes, cuts, start, netList[0], edges0, Pass(nodes1, links1, removed1), Pass(nodes, links, removed),
                                   loopDetected, cut);
    }

    /** One pass of `removeLoop`'s outer loop: reset `returnValue`, then
        search from each level-0 node in order until a search cuts an edge.
        A pass that cuts removes exactly one edge, which closes a cycle
        through a path from the level-0 node `root` of the graph on entry;
        the ghost results name it. */
    method ScanLevelZero() returns (loopDetected: bool, ghost cutLink: LinkId, ghost cutPos: nat,
                                    ghost trail: seq<NodeId>, ghost root: NodeId)
      requires Valid() && LoopFreeRanked(nodes, links, rank, stamp)
      modifies this`nodes, this`links, this`removed, this`returnValue, this`rank, this`stamp
      ensures Valid() && LoopFreeRanked(nodes, links, rank, stamp)
      ensures Broken(old(nodes), old(links), old(removed), nodes, links, removed)
      ensures loopDetected ==> EdgeCount(links) + 1 == old(EdgeCount(links)) && root in netList[0] &&
                               BackEdgeCut(old(nodes), old(links), old(removed), nodes, links, removed, cutLink, cutPos, trail, root)
      ensures !loopDetected ==> links == old(links) && removed == old(removed) && SameInputs(old(nodes), nodes) && !returnValue &&
                                forall q :: 0 <= q < |netList[0]| ==> !nodes[netList[0][q]].loop
    {
      cutLink, cutPos, trail, root := 0, 0, [], 0;
      loopDetected := false;
      returnValue := false;
      var level0 := netList[0];
      var q := 0;
      while q < |level0|
        invariant 0 <= q <= |level0| && netList[0] == level0
        invariant Valid() && LoopFreeRanked(nodes, links, rank, stamp)
        invariant links == old(links) && removed == old(removed) && !returnValue
        invariant SameShape(old(nodes), nodes) && LoopOnlyCleared(old(nodes), nodes) && SameInputs(old(nodes), nodes)
        invariant forall q' :: 0 <= q' < q ==> !nodes[level0[q']].loop
      {
        ghost var nodes1 := nodes;
        var found;
        found, cutLink, cutPos, trail := DepthFirstSearch(level0[q]);
        if found {
          root := level0[q];
          CutFromScan(old(nodes), nodes1, old(links), old(removed), nodes, links, removed, cutLink, cutPos, trail, root);
          loopDetected := true;
          return;
        }
        q := q + 1;
      }
      SearchesKeepInputs(old(nodes), nodes, links);
    }

    /** `startCircuit(mode)`: the phases of `Schedule`, with the levelizer
        the mode selects (real mode for exactly "REAL", "Real" and "real"),
        then the clocks, the debugger and the evaluation thread start
        (`started`).  The ghost results are the graph as `removeLoop` left
        it, on which the levels were built. */
    method StartCircuit(mode: string) returns (ghost passes: seq<Pass>, ghost cuts: seq<Cut>, ghost cutNodes: seq<Node>, ghost cutLinks: seq<Link>)
      requires Valid() && Fresh()
      modifies this`nodes, this`links, this`removed, this`returnValue, this`rank, this`stamp, this`netList, this`started
      ensures Valid() && started && clocks == old(clocks)
      ensures Scheduled(old(nodes), old(links), old(removed), old(netList), passes, cuts, cutNodes, cutLinks, rank, stamp,
                        nodes, links, removed, netList, IsRealMode(mode))
    {
      passes, cuts, cutNodes, cutLinks := Schedule(IsRealMode(mode));
      started := true;
    }

    /** `startCircuit()`: the same phases, always in exact mode. */
    method StartCircuitDefault() returns (ghost passes: seq<Pass>, ghost cuts: seq<Cut>, ghost cutNodes: seq<Node>, ghost cutLinks: seq<Link>)
      requires Valid() && Fresh()
      modifies this`nodes, this`links, this`removed, this`returnValue, this`rank, this`stamp, this`netList, this`started
      ensures Valid() && started && clocks == old(clocks)
      ensures Scheduled(old(nodes), old(links), old(removed), old(netList), passes, cuts, cutNodes, cutLinks, rank, stamp,
                        nodes, links, removed, netList, false)
    {
      passes, cuts, cutNodes, cutLinks := Schedule(false);
      started := true;
    }

    /** The scheduling phases both `startCircuit` overloads run in this
        order: `removeLoop`, a levelizer, `addLoop`. */
    method Schedule(realMode: bool) returns (ghost passes: seq<Pass>, ghost cuts: seq<Cut>, ghost cutNodes: seq<Node>, ghost cutLinks: seq<Link>)
      requires Valid() && Fresh()
      modifies this`nodes, this`links, this`removed, this`returnValue, this`rank, this`stamp, this`netList
      ensures Valid()
      ensures Scheduled(old(nodes), old(links), old(removed), old(netList), passes, cuts, cutNodes, cutLinks, rank, stamp,
                        nodes, links, removed, netList, realMode)
    {
      passes, cuts := RemoveLoop();
      cutNodes, cutLinks := nodes, links;
      LevelizeAndRestore(old(nodes), old(links), old(removed), passes, cuts, realMode);
    }

    /** The phases after `removeLoop`, which started from `nodes0`,
        `links0`, `removed0`: a levelizer, then `addLoop`.  Together with
        the loop breaking they make up `Scheduled`. */
    method LevelizeAndRestore(ghost nodes0: seq<Node>, ghost links0: seq<Link>, ghost removed0: map<LinkId, seq<NodeId>>,
                              ghost passes: seq<Pass>, ghost cuts: seq<Cut>, realMode: bool)
      requires Valid() && |netList| == 1 && LoopFreeRanked(nodes, links, rank, stamp)
      requires forall q :: 0 <= q < |netList[0]| ==> !nodes[netList[0][q]].loop
      requires Broken(nodes0, links0, removed0, nodes, links, removed)
      requires CutsCloseCycles(nodes0, links0, removed0, netList[0], nodes, links, removed)
      requires CutByPasses(passes, cuts, Pass(nodes0, links0, removed0), netList[0], nodes, links, removed)
      modifies this`nodes, this`links, this`netList
      ensures Valid()
      ensures Scheduled(nodes0, links0, removed0, old(netList), passes, cuts, old(nodes), old(links), rank, stamp,
                        nodes, links, removed, netList, realMode)
    {
      Levelize(realMode);
      ghost var levelLinks := links;
      AddLoop();
      PhasesSchedule(nodes0, links0, removed0, old(netList), passes, cuts, old(nodes), old(links), levelLinks, rank, stamp,
                     nodes, links, removed, netList, realMode);
    }

    /** The levelizer of the mode: `realModeInitializeNetList` in real mode,
        `initializeNetList` otherwise. */
    method Levelize(realMode: bool)
      requires Valid() && |netList| == 1 && LoopFreeRanked(nodes, links, rank, stamp)
      requires forall q :: 0 <= q < |netList[0]| ==> !nodes[netList[0][q]].loop
      modifies this`links, this`netList
      ensures Valid() && LevelPhase(nodes, old(links), links, old(netList), netList, realMode)
    {
      if realMode {
        RealModeInitializeNetList();
      } else {
        InitializeNetList();
      }
    }

    /** `evaluateNetList`, as the order of its `evaluate` calls: every level
        in turn, level 0 first, each in list order. */
    method EvaluateNetList() returns (order: seq<NodeId>)
      ensures order == Flatten(netList)
    {
      order := [];
      var k := 0;
      while k < |netList|
        invariant k <= |netList| && order == Flatten(netList[..k])
      {
        var list := netList[k];
        var q := 0;
        while q < |list|
          invariant q <= |list| && order == Flatten(netList[..k]) + list[..q]
        {
          assert list[..q + 1] == list[..q] + [list[q]];
          order := order + [list[q]];
          q := q + 1;
        }
        assert list[..q] == list;
        assert netList[..k + 1][..k] == netList[..k];
        k := k + 1;
      }
      assert netList[..k] == netList;
    }

    /** `addLoop`: for every link with records (in no particular order, as
        a `HashMap`'s key set), `addInput` once for each recorded node, in
        record order.  Each such link gets its records back at the end of
        its destinations; each node gets one input per record naming it
        (`RestoredLinks`); `removed` is kept as it is. */
    method AddLoop()
      requires Valid()
      modifies this`nodes, this`links
      ensures Valid() && RestoredLinks(old(nodes), old(links), removed, removed.Keys, nodes, links)
    {
      var ns, ls := RestoreAll(nodes, links, removed);
      RestoredLinksKeepValid(nodes, links, removed, removed.Keys, ns, ls);
      nodes, links := ns, ls;
    }

    /** `initializeLevel` (exact mode): marks every output link of the nodes
        at `level` valid, then promotes into level `level + 1` each
        destination of those links whose input links are all valid. */
    method InitializeLevel(level: nat)
      requires Valid() && level < |netList|
      modifies this`links, this`netList
      ensures Valid() && SameDests(old(links), links)
      ensures ValidSet(links) == ValidSet(old(links)) + LevelOutputs(nodes, old(netList)[level])
      ensures netList == Grow(old(netList), level, ReadyOnly(nodes, ValidSet(links), Successors(nodes, links, old(netList)[level])))
    {
      MarkOutputsValid(level);
      PromoteReady(level);
    }

    /** The first loop of `initializeLevel`: every output link of every
        node at `level` is made valid. */
    method MarkOutputsValid(level: nat)
      requires Valid() && level < |netList|
      modifies this`links
      ensures Valid() && SameDests(old(links), links)
      ensures ValidSet(links) == ValidSet(old(links)) + LevelOutputs(nodes, netList[level])
    {
      var current := netList[level];
      var ls := links;
      var q := 0;
      while q < |current|
        invariant q <= |current| && links == old(links) && SameDests(links, ls)
        invariant ValidSet(ls) == ValidSet(links) + LevelOutputs(nodes, current[..q])
      {
        var outs := nodes[current[q]].outputs;
        var o := 0;
        while o < |outs|
          invariant o <= |outs| && links == old(links) && SameDests(links, ls)
          invariant ValidSet(ls) == ValidSet(links) + LevelOutputs(nodes, current[..q]) + (set l | l in outs[..o])
        {
          assert outs[o] in nodes[current[q]].outputs;
          MarkValid(ls, outs[o]);
          assert outs[..o + 1] == outs[..o] + [outs[o]];
          ls := ls[outs[o] := ls[outs[o]].(valid := true)];
          o := o + 1;
        }
        LevelOutputsSnoc(nodes, current, q);
        assert outs[..o] == outs;
        q := q + 1;
      }
      assert current[..q] == current;
      WellFormedSameDests(nodes, links, ls);
      links := ls;
    }

    /** The `flag` loop of `initializeLevel`: whether every input link of
        `n` is valid (the loop does not stop at the first invalid one). */
    method AllInputsValid(n: NodeId) returns (flag: bool)
      requires WellFormed(nodes, links) && n < |nodes|
      ensures flag == Ready(nodes, ValidSet(links), n)
    {
      flag := true;
      var ins := nodes[n].inputs;
      assert forall c' :: 0 <= c' < |ins| ==> ins[c'] in nodes[n].inputs;
      var c := 0;
      while c < |ins|
        invariant c <= |ins|
        invariant flag == forall c' :: 0 <= c' < c ==> links[ins[c']].valid
      {
        if !links[ins[c]].valid {
          flag := false;
        }
        c := c + 1;
      }
      assert Ready(nodes, ValidSet(links), n) == forall c' :: 0 <= c' < |ins| ==> links[ins[c']].valid;
    }

    /** The second loop of `initializeLevel`: visits every destination of
        every output link of the nodes at `level`, in order, and adds each
        ready one to level `level + 1` (creating it) unless it is there. */
    method PromoteReady(level: nat)
      requires Valid() && level < |netList|
      modifies this`netList
      ensures Valid()
      ensures netList == Grow(old(netList), level, ReadyOnly(nodes, ValidSet(links), Successors(nodes, links, old(netList)[level])))
    {
      var nl := VisitLevel(level, false);
      VisitIsGrow(nodes, ValidSet(links), false, netList, level, Successors(nodes, links, netList[level]));
      netList := nl;
    }

    /** `realModeInitializeLevel`: visits every destination of every output
        link of the nodes at `level`, in order, and adds each one to level
        `level + 1` (creating it) unless it is there; validity plays no part. */
    method RealModeInitializeLevel(level: nat)
      requires Valid() && level < |netList|
      modifies this`netList
      ensures Valid()
      ensures netList == Grow(old(netList), level, Successors(nodes, links, old(netList)[level]))
    {
      var nl := VisitLevel(level, true);
      VisitIsGrow(nodes, ValidSet(links), true, netList, level, Successors(nodes, links, netList[level]));
      netList := nl;
    }

    /** The loop over the nodes at `level` shared by `initializeLevel`
        (`realMode` false: only nodes whose `flag` check passes are
        promoted) and `realModeInitializeLevel` (`realMode` true). */
    method VisitLevel(level: nat, realMode: bool) returns (nl: seq<seq<NodeId>>)
      requires WellFormed(nodes, links) && IdsBelow(netList, |nodes|) && level < |netList|
      ensures nl == Visit(nodes, ValidSet(links), realMode, netList, level, Successors(nodes, links, netList[level]))
      ensures IdsBelow(nl, |nodes|)
    {
      var current := netList[level];
      nl := netList;
      ghost var seen: seq<NodeId> := [];
      var q := 0;
      while q < |current|
        invariant q <= |current| && seen == Successors(nodes, links, current[..q])
        invariant nl == Visit(nodes, ValidSet(links), realMode, netList, level, seen) && IdsBelow(nl, |nodes|)
      {
        assert current[q] < |nodes| by {
          assert current == netList[level];
        }
        nl := VisitNode(level, realMode, current[q], nl, seen);
        SuccessorsSnoc(nodes, links, current, q);
        seen := seen + NodeDests(nodes, links, current[q]);
        q := q + 1;
      }
      assert current[..q] == current;
    }

    /** The loop over the output links of node `n`: given the level sets
        after visiting `seen`, the level sets after also visiting the
        destinations of `n`. */
    method VisitNode(level: nat, realMode: bool, n: NodeId, nl: seq<seq<NodeId>>, ghost seen: seq<NodeId>) returns (nl2: seq<seq<NodeId>>)
      requires WellFormed(nodes, links) && level < |netList| && n < |nodes|
      requires nl == Visit(nodes, ValidSet(links), realMode, netList, level, seen) && IdsBelow(nl, |nodes|)
      ensures nl2 == Visit(nodes, ValidSet(links), realMode, netList, level, seen + NodeDests(nodes, links, n))
      ensures IdsBelow(nl2, |nodes|)
    {
      var outs := nodes[n].outputs;
      nl2 := nl;
      ghost var visited := seen;
      assert outs[..0] == [];
      var o := 0;
      while o < |outs|
        invariant o <= |outs| && visited == seen + LinkDests(links, outs[..o])
        invariant nl2 == Visit(nodes, ValidSet(links), realMode, netList, level, visited) && IdsBelow(nl2, |nodes|)
      {
        assert outs[o] in nodes[n].outputs;
        nl2 := VisitLink(level, realMode, outs[o], nl2, visited);
        LinkDestsSnoc(links, outs, o);
        Associative(seen, LinkDests(links, outs[..o]), links[outs[o]].dests);
        visited := visited + links[outs[o]].dests;
        o := o + 1;
      }
      assert outs[..o] == outs;
    }

    /** The loop over the destinations of link `l`: for each one, in exact
        mode the `flag` check, and then the promotion (lines creating level
        `level + 1` and adding the node unless present). */
    method VisitLink(level: nat, realMode: bool, l: LinkId, nl: seq<seq<NodeId>>, ghost seen: seq<NodeId>) returns (nl2: seq<seq<NodeId>>)
      requires WellFormed(nodes, links) && level < |netList| && l < |links|
      requires nl == Visit(nodes, ValidSet(links), realMode, netList, level, seen) && IdsBelow(nl, |nodes|)
      ensures nl2 == Visit(nodes, ValidSet(links), realMode, netList, level, seen + links[l].dests)
      ensures IdsBelow(nl2, |nodes|)
    {
      var dests := links[l].dests;
      nl2 := nl;
      ghost var visited := seen;
      var e := 0;
      while e < |dests|
        invariant e <= |dests| && visited == seen + dests[..e]
        invariant nl2 == Visit(nodes, ValidSet(links), realMode, netList, level, visited) && IdsBelow(nl2, |nodes|)
      {
        var innerNode := dests[e];
        assert innerNode in links[l].dests;
        var flag := true;
        if !realMode {
          flag := AllInputsValid(innerNode);
        }
        VisitSnoc(nodes, ValidSet(links), realMode, netList, level, visited, innerNode);
        ghost var before := nl2;
        if flag {
          StepKeepsIdsBelow(nl2, level, innerNode, |nodes|);
          if |nl2| < level + 2 {
            nl2 := nl2 + [[]];
          }
          if innerNode !in nl2[level + 1] {
            nl2 := nl2[level + 1 := nl2[level + 1] + [innerNode]];
          }
          assert nl2 == Step(before, level, innerNode);
          assert realMode || Ready(nodes, ValidSet(links), innerNode);
        } else {
          assert !realMode && !Ready(nodes, ValidSet(links), innerNode);
        }
        assert nl2 == Visit(nodes, ValidSet(links), realMode, netList, level, visited + [innerNode]);
        PrefixGrows(seen, dests, e);
        visited := visited + [innerNode];
        e := e + 1;
      }
      assert dests[..e] == dests;
    }

    /** `initializeNetList`: processes level 0, 1, ... in exact mode while
        the level exists.  The result is the exact-mode levelization of the
        graph as it was on entry, and the links marked valid are exactly the
        outputs of the levels.  The loop ends because every level sits on
        nodes that reach no cycle (their ranks shrink level by level). */
    method InitializeNetList()
      requires Valid() && |netList| == 1 && LoopFreeRanked(nodes, links, rank, stamp)
      requires forall q :: 0 <= q < |netList[0]| ==> !nodes[netList[0][q]].loop
      modifies this`links, this`netList
      ensures Valid() && SameDests(old(links), links)
      ensures Levelized(nodes, old(links), old(netList), netList, false)
      ensures ValidSet(links) == ValidSet(old(links)) + OutputsOf(nodes, netList)
    {
      var level := 0;
      LevelizingStarts(nodes, links, netList, false);
      while |netList| >= level + 1
        invariant Valid() && SameDests(old(links), links)
        invariant Levelizing(nodes, old(links), old(netList), netList, level, false)
        invariant LevelsRanked(nodes, rank, stamp, netList)
        invariant ValidSet(links) == ValidSet(old(links)) + OutputsOf(nodes, netList[..level])
        decreases stamp + 1 - level
      {
        RankedLevelsAreFew(nodes, rank, stamp, netList);
        ghost var nl := netList;
        InitializeLevel(level);
        ExactLevelStep(nodes, old(links), links, rank, stamp, old(netList), nl, level);
        level := level + 1;
      }
      LevelizingStops(nodes, old(links), old(netList), netList, level, false);
      assert netList[..level] == netList;
    }

    /** `realModeInitializeNetList`: processes level 0, 1, ... in real mode
        while the level exists; the result is the real-mode levelization. */
    method RealModeInitializeNetList()
      requires Valid() && |netList| == 1 && LoopFreeRanked(nodes, links, rank, stamp)
      requires forall q :: 0 <= q < |netList[0]| ==> !nodes[netList[0][q]].loop
      modifies this`netList
      ensures Valid() && Levelized(nodes, links, old(netList), netList, true)
    {
      var level := 0;
      LevelizingStarts(nodes, links, netList, true);
      while |netList| >= level + 1
        invariant Valid() && Levelizing(nodes, links, old(netList), netList, level, true)
        invariant LevelsRanked(nodes, rank, stamp, netList)
        decreases stamp + 1 - level
      {
        RankedLevelsAreFew(nodes, rank, stamp, netList);
        ghost var nl := netList;
        RealModeInitializeLevel(level);
        RealLevelStep(nodes, links, rank, stamp, old(netList), nl, level);
        level := level + 1;
      }
      LevelizingStops(nodes, links, old(netList), netList, level, true);
    }
  }

  /** The loops of `addLoop` on the arena as values. */
  method RestoreAll(nodes: seq<Node>, links: seq<Link>, removed: map<LinkId, seq<NodeId>>) returns (ns: seq<Node>, ls: seq<Link>)
    requires RecordsInRange(removed, |nodes|, |links|)
    ensures RestoredLinks(nodes, links, removed, removed.Keys, ns, ls)
  {
    ns, ls := nodes, links;
    var pending := removed.Keys;
    ghost var done: set<LinkId> := {};
    RestoredLinksStarts(nodes, links, removed);
    while pending != {}
      invariant pending <= removed.Keys && done == removed.Keys - pending
      invariant RestoredLinks(nodes, links, removed, done, ns, ls)
      decreases |pending|
    {
      var link :| link in pending;
      ns, ls := RestoreNext(nodes, links, removed, done, ns, ls, link);
      pending := pending - {link};
      done := done + {link};
    }
    assert done == removed.Keys;
  }

  /** One round of the outer loop of `addLoop`: restoring one more link. */
  method RestoreNext(ghost nodes0: seq<Node>, ghost links0: seq<Link>, removed: map<LinkId, seq<NodeId>>, ghost done: set<LinkId>,
                     nodes: seq<Node>, links: seq<Link>, link: LinkId) returns (ns: seq<Node>, ls: seq<Link>)
    requires RecordsInRange(removed, |nodes0|, |links0|) && link in removed && link !in done
    requires RestoredLinks(nodes0, links0, removed, done, nodes, links)
    ensures RestoredLinks(nodes0, links0, removed, done + {link}, ns, ls)
  {
    ns, ls := RestoreLink(nodes, links, link, removed[link]);
    RestoredLinksStep(nodes0, links0, removed, done, nodes, links, ns, ls, link);
  }

  /** The inner loop of `addLoop`, for one link: `addInput(link)` for each
      node of `records`, in order.  Under the assumption stated in the
      overview, `addInput` gives the node `link` as a further input and
      `link` the node as a further destination. */
  method RestoreLink(nodes: seq<Node>, links: seq<Link>, link: LinkId, records: seq<NodeId>) returns (ns: seq<Node>, ls: seq<Link>)
    requires link < |links| && forall q :: 0 <= q < |records| ==> records[q] < |nodes|
    ensures RestoredLink(nodes, links, ns, ls, link, records)
  {
    ns, ls := nodes, links;
    var e := 0;
    RestoredLinkStarts(nodes, links, link);
    while e < |records|
      invariant e <= |records|
      invariant RestoredLink(nodes, links, ns, ls, link, records[..e])
    {
      var x := records[e];
      assert records[..e + 1] == records[..e] + [x];
      RestoredLinkStep(nodes, links, ns, ls, link, records[..e], x);
      ns := ns[x := ns[x].(inputs := ns[x].inputs + [link])];
      ls := ls[link := ls[link].(dests := ls[link].dests + [x])];
      e := e + 1;
    }
    assert records[..e] == records;
  }

  /** The body of `depthFirstSearch` on the arena as values: it returns the
      edited nodes, links and records, and the final `StackFrame.returnValue`. */
  method RunSearch(nodes: seq<Node>, links: seq<Link>, removed: map<LinkId, seq<NodeId>>,
                   ghost rank: seq<nat>, ghost stamp: nat, root: NodeId)
    returns (ns: seq<Node>, ls: seq<Link>, rm: map<LinkId, seq<NodeId>>, rv: bool,
             ghost rk: seq<nat>, ghost sp: nat, ghost cutLink: LinkId, ghost cutPos: nat, ghost trail: seq<NodeId>)
    requires WellFormed(nodes, links) && NoneVisited(nodes) && LoopFreeRanked(nodes, links, rank, stamp) && root < |nodes|
    ensures WellFormed(ns, ls) && NoneVisited(ns) && LoopFreeRanked(ns, ls, rk, sp)
    ensures SameShape(nodes, ns) && LoopOnlyCleared(nodes, ns) && SameValidity(links, ls)
    ensures !rv ==> ls == links && rm == removed && SameInputs(nodes, ns) && !ns[root].loop
    ensures rv ==> BackEdgeCut(nodes, links, removed, ns, ls, rm, cutLink, cutPos, trail, root)
    ensures !nodes[root].loop ==> !rv && ns == nodes
  {
    ns, ls, rm, rv, rk, sp := nodes, links, removed, false, rank, stamp;
    var stack := [NewFrame(root)];
    ghost var path := [root];
    rv := false;
    cutLink, cutPos, trail := 0, 0, [];
    SearchStarts(ns, ls, rm, rk, sp, root);

    while |stack| > 0
      invariant DfsInv(nodes, links, removed, ns, ls, rm, rk, sp, rv, stack, path, root, cutLink, cutPos, trail)
      decreases if rv then 0 else 1, if rv then 0 else CountLoop(ns),
                if rv then 0 else CountUnentered(ns),
                if rv then 0 else Progress(ns, ls, stack), |stack|
    {
      TopFrame(nodes, links, removed, ns, ls, rm, rk, sp, rv, stack, path, root, cutLink, cutPos, trail);
      var thisNode := stack[|stack| - 1].node;

      if rv || !ns[thisNode].loop {
        if rv {
          UnwindStep(nodes, links, removed, ns, ls, rm, rk, sp, stack, path, root, cutLink, cutPos, trail);
        } else {
          SkipCleared(nodes, links, removed, ns, ls, rm, rk, sp, stack, path, root, cutLink, cutPos, trail);
        }
        ns := ns[thisNode := ns[thisNode].(visited := false)];
        stack := PopAdvance(stack);
        path := path[..|path| - 1];
        continue;
      }

      ns, ls, rm, rv, stack, path, rk, sp, cutLink, cutPos, trail :=
        EnterFrame(nodes, links, removed, ns, ls, rm, rk, sp, stack, path, root, cutLink, cutPos, trail);
    }

    SearchEnds(nodes, links, removed, ns, ls, rm, rk, sp, rv, path, root, cutLink, cutPos, trail);
  }

  /** A search from a well-formed state leaves the records in range. */
  lemma SearchOutcomeInRange(nodes: seq<Node>, links: seq<Link>, removed: map<LinkId, seq<NodeId>>,
                             ns: seq<Node>, ls: seq<Link>, rm: map<LinkId, seq<NodeId>>, rv: bool,
                             root: NodeId, cutLink: LinkId, cutPos: nat, trail: seq<NodeId>)
    requires WellFormed(nodes, links) && RecordsInRange(removed, |nodes|, |links|)
    requires !rv ==> ls == links && rm == removed && |ns| == |nodes|
    requires rv ==> BackEdgeCut(nodes, links, removed, ns, ls, rm, cutLink, cutPos, trail, root)
    ensures RecordsInRange(rm, |ns|, |ls|)
  {
    if rv {
      SeverKeepsRecordsInRange(nodes, links, removed, ns, ls, rm, cutLink, cutPos);
    }
  }

  /** One turn of the search's outer loop on a frame whose node is still a
      loop candidate (`Circuit.java` lines 119-149): the node is marked
      visited and its cursor moves past exhausted output links; then the
      destination under the cursor is cut if it is visited (a back edge)
      or gets a frame of its own, and a node with no destination left has
      its `loop` flag cleared and its frame popped.  The results are the
      new search state; each `return` is a `continue outer`. */
  method EnterFrame(ghost nodes0: seq<Node>, ghost links0: seq<Link>, ghost removed0: map<LinkId, seq<NodeId>>,
                    nodes: seq<Node>, links: seq<Link>, removed: map<LinkId, seq<NodeId>>,
                    ghost rank: seq<nat>, ghost stamp: nat, stack: seq<Frame>, ghost path: seq<NodeId>, root: NodeId,
                    ghost cutLink: LinkId, ghost cutPos: nat, ghost trail: seq<NodeId>)
    returns (ns: seq<Node>, ls: seq<Link>, rm: map<LinkId, seq<NodeId>>, rv: bool, st: seq<Frame>,
             ghost path': seq<NodeId>, ghost rk: seq<nat>, ghost sp: nat,
             ghost cutLink': LinkId, ghost cutPos': nat, ghost trail': seq<NodeId>)
    requires DfsInv(nodes0, links0, removed0, nodes, links, removed, rank, stamp, false, stack, path, root, cutLink, cutPos, trail)
    requires |stack| > 0 && stack[|stack| - 1].node < |nodes| && nodes[stack[|stack| - 1].node].loop
    ensures DfsInv(nodes0, links0, removed0, ns, ls, rm, rk, sp, rv, st, path', root, cutLink', cutPos', trail')
    ensures || rv
            || CountLoop(ns) < CountLoop(nodes)
            || (CountLoop(ns) == CountLoop(nodes) &&
                (|| CountUnentered(ns) < CountUnentered(nodes)
                 || (CountUnentered(ns) == CountUnentered(nodes) && Progress(ns, ls, st) < Progress(nodes, links, stack))))
  {
    ns, ls, rm, rv, rk, sp, path', cutLink', cutPos', trail' :=
      nodes, links, removed, false, rank, stamp, path, cutLink, cutPos, trail;
    var thisNode := stack[|stack| - 1].node;
    EnterTop(nodes0, links0, removed0, ns, ls, rm, rk, sp, stack, path', root, cutLink', cutPos', trail');
    ns := ns[thisNode := ns[thisNode].(visited := true)];
    st := SkipExhausted(nodes0, links0, removed0, ns, ls, rm, rk, sp, stack, path', root, cutLink', cutPos', trail');

    if st[|st| - 1].i < |ns[thisNode].outputs| {
      var link := ns[thisNode].outputs[st[|st| - 1].i];
      var dest := ls[link].dests[st[|st| - 1].j];
      assert dest in ls[link].dests && dest == Target(ns, ls, st[|st| - 1]);
      if ns[dest].visited {
        ns, ls, rm, st, path', cutLink', cutPos', trail' :=
          CutBackEdgeAt(nodes0, links0, removed0, ns, ls, rm, rk, sp, st, path', root, cutLink', cutPos', trail');
        rv := true;
      } else {
        PushChild(nodes0, links0, removed0, ns, ls, rm, rk, sp, st, path', root, cutLink', cutPos', trail');
        st := st + [NewFrame(dest)];
        path' := path' + [dest];
      }
    } else {
      ns, rk, sp, st, path' := FinishFrame(nodes0, links0, removed0, ns, ls, rm, rk, sp, st, path', root, cutLink', cutPos', trail');
    }
  }

  /** A back edge under the cursor of the top frame (`Circuit.java` lines
      123-134): the destination is recorded in `removed[link]` (created if
      absent), `link` leaves the destination's inputs, the destination
      leaves `link`'s destinations, and the top frame is popped with its
      node unvisited. */
  method CutBackEdgeAt(ghost nodes0: seq<Node>, ghost links0: seq<Link>, ghost removed0: map<LinkId, seq<NodeId>>,
                       nodes: seq<Node>, links: seq<Link>, removed: map<LinkId, seq<NodeId>>,
                       ghost rank: seq<nat>, ghost stamp: nat, stack: seq<Frame>, ghost path: seq<NodeId>, root: NodeId,
                       ghost cutLink: LinkId, ghost cutPos: nat, ghost trail: seq<NodeId>)
    returns (ns: seq<Node>, ls: seq<Link>, rm: map<LinkId, seq<NodeId>>, st: seq<Frame>,
             ghost path': seq<NodeId>, ghost cutLink': LinkId, ghost cutPos': nat, ghost trail': seq<NodeId>)
    requires DfsInv(nodes0, links0, removed0, nodes, links, removed, rank, stamp, false, stack, path, root, cutLink, cutPos, trail)
    requires |stack| > 0 && stack[|stack| - 1].node < |nodes| && nodes[stack[|stack| - 1].node].visited
    requires Open(nodes, links, stack[|stack| - 1])
    requires var d := Target(nodes, links, stack[|stack| - 1]); d < |nodes| && nodes[d].visited
    ensures DfsInv(nodes0, links0, removed0, ns, ls, rm, rank, stamp, true, st, path', root, cutLink', cutPos', trail')
    ensures Severed(nodes, links, removed, ns, ls, rm, cutLink', cutPos')
    ensures st == stack[..|stack| - 1] && trail' == path && !ns[stack[|stack| - 1].node].visited
  {
    CutBackEdge(nodes0, links0, removed0, nodes, links, removed, rank, stamp, stack, path, root, cutLink, cutPos, trail);
    var thisNode := stack[|stack| - 1].node;
    var link := nodes[thisNode].outputs[stack[|stack| - 1].i];
    var pos := stack[|stack| - 1].j;
    var dest := links[link].dests[pos];
    rm := removed[link := Recorded(removed, link) + [dest]];
    ns := nodes[dest := nodes[dest].(inputs := RemoveFirst<LinkId>(nodes[dest].inputs, link))];
    ls := links[link := links[link].(dests := RemoveAt(links[link].dests, pos))];
    ns := ns[thisNode := ns[thisNode].(visited := false)];
    cutLink', cutPos', trail' := link, pos, path;
    st := stack[..|stack| - 1];
    path' := path[..|path| - 1];
  }

  /** The top frame's node has no destination left (`Circuit.java` lines
      145-149): it is unvisited, its `loop` flag is cleared (it receives the
      next ghost rank), its frame is popped and its parent's cursor moves on. */
  method FinishFrame(ghost nodes0: seq<Node>, ghost links0: seq<Link>, ghost removed0: map<LinkId, seq<NodeId>>,
                     nodes: seq<Node>, ghost links: seq<Link>, ghost removed: map<LinkId, seq<NodeId>>,
                     ghost rank: seq<nat>, ghost stamp: nat, stack: seq<Frame>, ghost path: seq<NodeId>, root: NodeId,
                     ghost cutLink: LinkId, ghost cutPos: nat, ghost trail: seq<NodeId>)
    returns (ns: seq<Node>, ghost rk: seq<nat>, ghost sp: nat, st: seq<Frame>, ghost path': seq<NodeId>)
    requires DfsInv(nodes0, links0, removed0, nodes, links, removed, rank, stamp, false, stack, path, root, cutLink, cutPos, trail)
    requires |stack| > 0 && stack[|stack| - 1].node < |nodes|
    requires nodes[stack[|stack| - 1].node].visited
    requires stack[|stack| - 1].i >= |nodes[stack[|stack| - 1].node].outputs|
    ensures DfsInv(nodes0, links0, removed0, ns, links, removed, rk, sp, false, st, path', root, cutLink, cutPos, trail)
    ensures CountLoop(ns) < CountLoop(nodes)
    ensures var t := stack[|stack| - 1].node;
      ns == nodes[t := nodes[t].(visited := false, loop := false)] && st == PopAdvance(stack)
  {
    FinishNode(nodes0, links0, removed0, nodes, links, removed, rank, stamp, stack, path, root, cutLink, cutPos, trail);
    var thisNode := stack[|stack| - 1].node;
    ghost var finished := nodes[thisNode := nodes[thisNode].(visited := false, loop := false)];
    ns := nodes[thisNode := nodes[thisNode].(visited := false)];
    ns := ns[thisNode := ns[thisNode].(loop := false)];
    assert ns == finished;
    rk := rank[thisNode := stamp];
    sp := stamp + 1;
    st := PopAdvance(stack);
    path' := path[..|path| - 1];
  }

  /** The two nested cursor loops of `depthFirstSearch` (`Circuit.java`
      lines 121-143) up to the point where they act: while the top frame's
      output link `i` has no destination at position `j`, move to the next
      output link, with the destination cursor back at its start.  On return the cursor points at an
      existing destination or is past the last output link; the search
      state is unchanged apart from the cursor. */
  method SkipExhausted(ghost nodes0: seq<Node>, ghost links0: seq<Link>, ghost removed0: map<LinkId, seq<NodeId>>,
                       nodes: seq<Node>, links: seq<Link>, ghost removed: map<LinkId, seq<NodeId>>,
                       ghost rank: seq<nat>, ghost stamp: nat, stack: seq<Frame>, ghost path: seq<NodeId>, root: NodeId,
                       ghost cutLink: LinkId, ghost cutPos: nat, ghost trail: seq<NodeId>)
    returns (st: seq<Frame>)
    requires DfsInv(nodes0, links0, removed0, nodes, links, removed, rank, stamp, false, stack, path, root, cutLink, cutPos, trail)
    requires |stack| > 0 && stack[|stack| - 1].node < |nodes| && nodes[stack[|stack| - 1].node].visited
    ensures |st| == |stack| && st[..|st| - 1] == stack[..|stack| - 1] && st[|st| - 1].node == stack[|stack| - 1].node
    ensures DfsInv(nodes0, links0, removed0, nodes, links, removed, rank, stamp, false, st, path, root, cutLink, cutPos, trail)
    ensures Progress(nodes, links, st) == Progress(nodes, links, stack)
    ensures var f := st[|st| - 1];
      f.i >= |nodes[f.node].outputs| || Open(nodes, links, f)
  {
    st := stack;
    var thisNode := st[|st| - 1].node;
    TopFrame(nodes0, links0, removed0, nodes, links, removed, rank, stamp, false, st, path, root, cutLink, cutPos, trail);
    while st[|st| - 1].i < |nodes[thisNode].outputs| && st[|st| - 1].j >= |Dests(links, nodes[thisNode].outputs[st[|st| - 1].i])|
      invariant |st| == |stack| && st[..|st| - 1] == stack[..|stack| - 1] && st[|st| - 1].node == thisNode
      invariant DfsInv(nodes0, links0, removed0, nodes, links, removed, rank, stamp, false, st, path, root, cutLink, cutPos, trail)
      invariant Positioned(nodes, links, st[|st| - 1])
      invariant Progress(nodes, links, st) == Progress(nodes, links, stack)
      decreases |nodes[thisNode].outputs| - st[|st| - 1].i
    {
      AdvanceOutput(nodes0, links0, removed0, nodes, links, removed, rank, stamp, st, path, root, cutLink, cutPos, trail);
      st := st[|st| - 1 := st[|st| - 1].(i := st[|st| - 1].i + 1, j := 0)];
      TopFrame(nodes0, links0, removed0, nodes, links, removed, rank, stamp, false, st, path, root, cutLink, cutPos, trail);
    }
  }

  /** A scan's searches that cut nothing only cleared flags; composed with
      the cut of the last search, the scan is one cut, and that cut closes a
      cycle of the graph the scan started on. */
  lemma CutFromScan(nodes0: seq<Node>, nodes1: seq<Node>, links0: seq<Link>, removed0: map<LinkId, seq<NodeId>>,
                    nodes: seq<Node>, links: seq<Link>, removed: map<LinkId, seq<NodeId>>,
                    cutLink: LinkId, cutPos: nat, trail: seq<NodeId>, root: NodeId)
    requires SameShape(nodes0, nodes1) && LoopOnlyCleared(nodes0, nodes1) && SameInputs(nodes0, nodes1)
    requires SameShape(nodes1, nodes) && LoopOnlyCleared(nodes1, nodes) && SameValidity(links0, links)
    requires BackEdgeCut(nodes1, links0, removed0, nodes, links, removed, cutLink, cutPos, trail, root)
    ensures Broken(nodes0, links0, removed0, nodes, links, removed)
    ensures EdgeCount(links) + 1 == EdgeCount(links0)
    ensures BackEdgeCut(nodes0, links0, removed0, nodes, links, removed, cutLink, cutPos, trail, root)
  {
    SeverSummary(nodes1, links0, removed0, nodes, links, removed, cutLink, cutPos);
    SearchesKeepInputs(nodes0, nodes1, links0);
    PathKeepsShape(nodes1, nodes0, links0, trail);
    assert nodes0[trail[|trail| - 1]].outputs == nodes1[trail[|trail| - 1]].outputs;
    BrokenChains(nodes0, links0, removed0, nodes1, links0, removed0, nodes, links, removed);
  }

  /** One pass of the loop breaker keeps both `Broken` and `CutsCloseCycles`
      relative to the graph it started on, whether or not the pass cut. */
  lemma ScanStep(nodes0: seq<Node>, links0: seq<Link>, removed0: map<LinkId, seq<NodeId>>, level0: seq<NodeId>,
                 nodes1: seq<Node>, links1: seq<Link>, removed1: map<LinkId, seq<NodeId>>,
                 nodes: seq<Node>, links: seq<Link>, removed: map<LinkId, seq<NodeId>>,
                 loopDetected: bool, cutLink: LinkId, cutPos: nat, trail: seq<NodeId>, root: NodeId)
    requires Broken(nodes0, links0, removed0, nodes1, links1, removed1)
    requires CutsCloseCycles(nodes0, links0, removed0, level0, nodes1, links1, removed1)
    requires Broken(nodes1, links1, removed1, nodes, links, removed)
    requires loopDetected ==> root in level0 && BackEdgeCut(nodes1, links1, removed1, nodes, links, removed, cutLink, cutPos, trail, root)
    requires !loopDetected ==> links == links1 && removed == removed1 && SameInputs(nodes1, nodes)
    ensures Broken(nodes0, links0, removed0, nodes, links, removed)
    ensures CutsCloseCycles(nodes0, links0, removed0, level0, nodes, links, removed)
  {
    BrokenChains(nodes0, links0, removed0, nodes1, links1, removed1, nodes, links, removed);
    if loopDetected {
      CutAddsCycleRecord(nodes0, links0, removed0, level0, nodes1, links1, removed1,
                         nodes, links, removed, cutLink, cutPos, trail, root);
    }
  }

  /** One more cut of an edge that closes a cycle (from a level-0 `root`)
      keeps `CutsCloseCycles`: the new record closes a cycle of the graph
      `removeLoop` started on, since the current graph only lost edges. */
  lemma CutAddsCycleRecord(nodes0: seq<Node>, links0: seq<Link>, removed0: map<LinkId, seq<NodeId>>, level0: seq<NodeId>,
                           nodes1: seq<Node>, links1: seq<Link>, removed1: map<LinkId, seq<NodeId>>,
                           nodes: seq<Node>, links: seq<Link>, removed: map<LinkId, seq<NodeId>>,
                           cutLink: LinkId, cutPos: nat, trail: seq<NodeId>, root: NodeId)
    requires CutsCloseCycles(nodes0, links0, removed0, level0, nodes1, links1, removed1) && SameShape(nodes0, nodes1)
    requires BackEdgeCut(nodes1, links1, removed1, nodes, links, removed, cutLink, cutPos, trail, root) && root in level0
    ensures CutsCloseCycles(nodes0, links0, removed0, level0, nodes, links, removed)
  {
    var d := links1[cutLink].dests[cutPos];
    CutEdgesWithin(links0, links1, links, cutLink, cutPos);
    assert d in links1[cutLink].dests;
    ClosesCycleWithin(nodes0, links0, nodes1, links1, level0, cutLink, d, trail);
    RecordsGrow(nodes0, links0, removed0, level0, removed1, removed, cutLink, d);
  }

  /** Clearing flags alone is a step of the loop breaker. */
  lemma SearchesKeepInputs(nodes0: seq<Node>, nodes: seq<Node>, links: seq<Link>)
    requires SameShape(nodes0, nodes) && LoopOnlyCleared(nodes0, nodes) && SameInputs(nodes0, nodes)
    ensures forall removed :: Broken(nodes0, links, removed, nodes, links, removed)
  {
    forall removed ensures Broken(nodes0, links, removed, nodes, links, removed) {
      if Consistent(nodes0, links) {
        assert Consistent(nodes, links);
      }
    }
  }

  /** One turn of `initializeNetList`'s loop, on values: `nl` before and
      the level sets and links after `initializeLevel(level)`. */
  lemma ExactLevelStep(nodes: seq<Node>, links0: seq<Link>, links: seq<Link>, rank: seq<nat>, stamp: nat,
                       nl0: seq<seq<NodeId>>, nl: seq<seq<NodeId>>, level: nat)
    requires LoopFreeRanked(nodes, links0, rank, stamp)
    requires Levelizing(nodes, links0, nl0, nl, level, false) && level < |nl| && LevelsRanked(nodes, rank, stamp, nl)
    requires SameDests(links0, links)
    requires ValidSet(links) == ValidSet(links0) + OutputsOf(nodes, nl[..level]) + LevelOutputs(nodes, nl[level])
    ensures var nl2 := Grow(nl, level, ReadyOnly(nodes, ValidSet(links), Successors(nodes, links, nl[level])));
      && Levelizing(nodes, links0, nl0, nl2, level + 1, false)
      && LevelsRanked(nodes, rank, stamp, nl2)
      && ValidSet(links) == ValidSet(links0) + OutputsOf(nodes, nl2[..level + 1])
  {
    assert nl[..level + 1] == nl;
    assert nl[..level + 1][..level] == nl[..level];
    ExactPromoted(nodes, links0, links, nl);
    LevelizingStep(nodes, links0, nl0, nl, level, false);
    GrowKeepsRanked(nodes, links0, rank, stamp, nl, level, Promoted(nodes, links0, nl, false));
  }

  /** One turn of `realModeInitializeNetList`'s loop, on values. */
  lemma RealLevelStep(nodes: seq<Node>, links: seq<Link>, rank: seq<nat>, stamp: nat,
                      nl0: seq<seq<NodeId>>, nl: seq<seq<NodeId>>, level: nat)
    requires LoopFreeRanked(nodes, links, rank, stamp)
    requires Levelizing(nodes, links, nl0, nl, level, true) && level < |nl| && LevelsRanked(nodes, rank, stamp, nl)
    ensures var nl2 := Grow(nl, level, Successors(nodes, links, nl[level]));
      Levelizing(nodes, links, nl0, nl2, level + 1, true) && LevelsRanked(nodes, rank, stamp, nl2)
  {
    LevelizingStep(nodes, links, nl0, nl, level, true);
    GrowKeepsRanked(nodes, links, rank, stamp, nl, level, Successors(nodes, links, nl[level]));
  }

  /** What `startCircuit` leaves behind, from the state `nodes0`, `links0`,
      `removed0`, `netList0` it started in.  `cutNodes`/`cutLinks` is the
      graph after `removeLoop`: the old graph with the edges recorded in
      `removed` taken out, each of them an edge that closed a cycle
      reachable from level 0, and no level-0 node a loop candidate.  The levels are
      the levelization of that graph in the chosen mode; exact mode made the
      outputs of every level valid; finally every recorded edge is put back
      at the end of its link, and one input per record at its node. */
  ghost predicate Scheduled(nodes0: seq<Node>, links0: seq<Link>, removed0: map<LinkId, seq<NodeId>>, netList0: seq<seq<NodeId>>,
                            passes: seq<Pass>, cuts: seq<Cut>, cutNodes: seq<Node>, cutLinks: seq<Link>, rank: seq<nat>, stamp: nat,
                            nodes: seq<Node>, links: seq<Link>, removed: map<LinkId, seq<NodeId>>, netList: seq<seq<NodeId>>,
                            realMode: bool)
  {
    && Broken(nodes0, links0, removed0, cutNodes, cutLinks, removed)
    && LoopFreeRanked(cutNodes, cutLinks, rank, stamp)
    && |netList| >= 1 && (forall q :: 0 <= q < |netList[0]| ==> netList[0][q] < |cutNodes| && !cutNodes[netList[0][q]].loop)
    && CutsCloseCycles(nodes0, links0, removed0, netList[0], cutNodes, cutLinks, removed)
    && CutByPasses(passes, cuts, Pass(nodes0, links0, removed0), netList[0], cutNodes, cutLinks, removed)
    && Levelized(cutNodes, cutLinks, netList0, netList, realMode)
    && (if realMode then ValidSet(links) == ValidSet(links0) else ValidSet(links) == ValidSet(links0) + OutputsOf(cutNodes, netList))
    && Restored(cutNodes, cutLinks, removed, nodes, links)
  }

  /** What a levelizer did: the levels of the mode over `nodes`/`links0`;
      destinations untouched; in real mode nothing else changed, in exact
      mode the outputs of every level became valid. */
  ghost predicate LevelPhase(nodes: seq<Node>, links0: seq<Link>, links: seq<Link>,
                             netList0: seq<seq<NodeId>>, netList: seq<seq<NodeId>>, realMode: bool)
  {
    && Levelized(nodes, links0, netList0, netList, realMode) && SameDests(links0, links)
    && (if realMode then links == links0 else ValidSet(links) == ValidSet(links0) + OutputsOf(nodes, netList))
  }

  /** The phases of `startCircuit` compose to `Scheduled`. */
  lemma PhasesSchedule(nodes0: seq<Node>, links0: seq<Link>, removed0: map<LinkId, seq<NodeId>>, netList0: seq<seq<NodeId>>,
                       passes: seq<Pass>, cuts: seq<Cut>, cutNodes: seq<Node>, cutLinks: seq<Link>, levelLinks: seq<Link>, rank: seq<nat>, stamp: nat,
                       nodes: seq<Node>, links: seq<Link>, removed: map<LinkId, seq<NodeId>>, netList: seq<seq<NodeId>>,
                       realMode: bool)
    requires Broken(nodes0, links0, removed0, cutNodes, cutLinks, removed) && LoopFreeRanked(cutNodes, cutLinks, rank, stamp)
    requires |netList0| >= 1 && |netList| >= 1 && netList0[0] == netList[0]
    requires forall q :: 0 <= q < |netList0[0]| ==> netList0[0][q] < |cutNodes| && !cutNodes[netList0[0][q]].loop
    requires LevelPhase(cutNodes, cutLinks, levelLinks, netList0, netList, realMode)
    requires RestoredLinks(cutNodes, levelLinks, removed, removed.Keys, nodes, links)
    requires CutsCloseCycles(nodes0, links0, removed0, netList0[0], cutNodes, cutLinks, removed)
    requires CutByPasses(passes, cuts, Pass(nodes0, links0, removed0), netList0[0], cutNodes, cutLinks, removed)
    ensures Scheduled(nodes0, links0, removed0, netList0, passes, cuts, cutNodes, cutLinks, rank, stamp, nodes, links, removed, netList, realMode)
  {
    RestoredLinksRestored(cutNodes, cutLinks, levelLinks, removed, nodes, links);
    PhasesKeepValidity(links0, cutLinks, levelLinks, links, cutNodes, netList, realMode);
  }

  /** The validity flags through the phases: the cut and the restoration
      keep them, the exact levelizer sets those of the levels' outputs. */
  lemma PhasesKeepValidity(links0: seq<Link>, cutLinks: seq<Link>, levelLinks: seq<Link>, links: seq<Link>,
                           cutNodes: seq<Node>, netList: seq<seq<NodeId>>, realMode: bool)
    requires SameValidity(links0, cutLinks) && SameValidity(levelLinks, links)
    requires if realMode then levelLinks == cutLinks else ValidSet(levelLinks) == ValidSet(cutLinks) + OutputsOf(cutNodes, netList)
    ensures if realMode then ValidSet(links) == ValidSet(links0) else ValidSet(links) == ValidSet(links0) + OutputsOf(cutNodes, netList)
  {
    SameValidityValidSet(links0, cutLinks);
    SameValidityValidSet(levelLinks, links);
  }

  /** Restoration is complete: after `startCircuit` every link has every
      destination it had before, plus whatever was recorded against it
      beforehand, counted with multiplicity (their order is not restored). */
  lemma ScheduledRestoresEdges(nodes0: seq<Node>, links0: seq<Link>, removed0: map<LinkId, seq<NodeId>>, netList0: seq<seq<NodeId>>,
                               passes: seq<Pass>, cuts: seq<Cut>, cutNodes: seq<Node>, cutLinks: seq<Link>, rank: seq<nat>, stamp: nat,
                               nodes: seq<Node>, links: seq<Link>, removed: map<LinkId, seq<NodeId>>, netList: seq<seq<NodeId>>,
                               realMode: bool)
    requires Scheduled(nodes0, links0, removed0, netList0, passes, cuts, cutNodes, cutLinks, rank, stamp, nodes, links, removed, netList, realMode)
    ensures |links| == |links0| && forall k :: 0 <= k < |links| ==>
      multiset(links[k].dests) == multiset(links0[k].dests) + multiset(Recorded(removed0, k))
  {
    forall k | 0 <= k < |links| ensures multiset(links[k].dests) == multiset(links0[k].dests) + multiset(Recorded(removed0, k)) {
      assert links[k].dests == cutLinks[k].dests + Recorded(removed, k);
    }
  }

  /** Matched destinations and inputs stay matched through `startCircuit`. */
  lemma ScheduledKeepsConsistent(nodes0: seq<Node>, links0: seq<Link>, removed0: map<LinkId, seq<NodeId>>, netList0: seq<seq<NodeId>>,
                                 passes: seq<Pass>, cuts: seq<Cut>, cutNodes: seq<Node>, cutLinks: seq<Link>, rank: seq<nat>, stamp: nat,
                                 nodes: seq<Node>, links: seq<Link>, removed: map<LinkId, seq<NodeId>>, netList: seq<seq<NodeId>>,
                                 realMode: bool)
    requires Scheduled(nodes0, links0, removed0, netList0, passes, cuts, cutNodes, cutLinks, rank, stamp, nodes, links, removed, netList, realMode)
    requires Consistent(nodes0, links0)
    ensures Consistent(nodes, links)
  {
    forall l, n | 0 <= l < |links| && 0 <= n < |nodes| ensures multiset(links[l].dests)[n] == multiset(nodes[n].inputs)[l] {
      assert links[l].dests == cutLinks[l].dests + Recorded(removed, l);
      assert multiset(cutLinks[l].dests)[n] == multiset(cutNodes[n].inputs)[l];
    }
  }

  /** A fresh, consistent circuit gets its exact graph back, up to the
      order of each link's destinations and each node's inputs. */
  lemma StartRestoresGraph(nodes0: seq<Node>, links0: seq<Link>, netList0: seq<seq<NodeId>>,
                           passes: seq<Pass>, cuts: seq<Cut>, cutNodes: seq<Node>, cutLinks: seq<Link>, rank: seq<nat>, stamp: nat,
                           nodes: seq<Node>, links: seq<Link>, removed: map<LinkId, seq<NodeId>>, netList: seq<seq<NodeId>>,
                           realMode: bool)
    requires Scheduled(nodes0, links0, map[], netList0, passes, cuts, cutNodes, cutLinks, rank, stamp, nodes, links, removed, netList, realMode)
    requires Consistent(nodes0, links0) && WellFormed(nodes0, links0) && WellFormed(nodes, links)
    ensures |links| == |links0| && forall k :: 0 <= k < |links| ==> multiset(links[k].dests) == multiset(links0[k].dests)
    ensures |nodes| == |nodes0| && forall n :: 0 <= n < |nodes| ==> multiset(nodes[n].inputs) == multiset(nodes0[n].inputs)
  {
    ScheduledRestoresEdges(nodes0, links0, map[], netList0, passes, cuts, cutNodes, cutLinks, rank, stamp, nodes, links, removed, netList, realMode);
    ScheduledKeepsConsistent(nodes0, links0, map[], netList0, passes, cuts, cutNodes, cutLinks, rank, stamp, nodes, links, removed, netList, realMode);
    forall n | 0 <= n < |nodes| ensures multiset(nodes[n].inputs) == multiset(nodes0[n].inputs) {
      InputsFollowDests(nodes0, links0, nodes, links, n);
    }
  }

  /** Under matched inputs, a node's inputs are determined by the links'
      destinations. */
  lemma InputsFollowDests(nodes0: seq<Node>, links0: seq<Link>, nodes: seq<Node>, links: seq<Link>, n: NodeId)
    requires Consistent(nodes0, links0) && WellFormed(nodes0, links0) && Consistent(nodes, links) && WellFormed(nodes, links)
    requires |nodes| == |nodes0| && n < |nodes| && |links| == |links0|
    requires forall k :: 0 <= k < |links| ==> multiset(links[k].dests) == multiset(links0[k].dests)
    ensures multiset(nodes[n].inputs) == multiset(nodes0[n].inputs)
  {
    forall l: LinkId ensures multiset(nodes[n].inputs)[l] == multiset(nodes0[n].inputs)[l] {
      if l < |links| {
        assert multiset(links[l].dests)[n] == multiset(nodes[n].inputs)[l];
        assert multiset(links0[l].dests)[n] == multiset(nodes0[n].inputs)[l];
      } else {
        assert l !in nodes[n].inputs && l !in nodes0[n].inputs;
      }
    }
  }

  /** The levels were built on a graph with no cycle reachable from level 0. */
  lemma ScheduledHasNoCycle(nodes0: seq<Node>, links0: seq<Link>, removed0: map<LinkId, seq<NodeId>>, netList0: seq<seq<NodeId>>,
                            passes: seq<Pass>, cuts: seq<Cut>, cutNodes: seq<Node>, cutLinks: seq<Link>, rank: seq<nat>, stamp: nat,
                            nodes: seq<Node>, links: seq<Link>, removed: map<LinkId, seq<NodeId>>, netList: seq<seq<NodeId>>,
                            realMode: bool, p: seq<NodeId>)
    requires Scheduled(nodes0, links0, removed0, netList0, passes, cuts, cutNodes, cutLinks, rank, stamp, nodes, links, removed, netList, realMode)
    requires IsPath(cutNodes, cutLinks, p) && |p| > 0 && p[0] in netList[0]
    ensures Distinct(p) && |p| <= stamp
  {
    LoopFreePathsAreSimple(cutNodes, cutLinks, rank, stamp, p);
  }

  /** On a circuit with no cycle reachable from level 0, `startCircuit`
      cuts nothing: the levels are the levelization of the graph it was
      given (only `loop` flags differ, which levelization ignores), and by
      `LevelizedIsDeterministic` they are fixed. */
  lemma ScheduledLoopFreeCutsNothing(nodes0: seq<Node>, links0: seq<Link>, removed0: map<LinkId, seq<NodeId>>, netList0: seq<seq<NodeId>>,
                                     passes: seq<Pass>, cuts: seq<Cut>, cutNodes: seq<Node>, cutLinks: seq<Link>, rank: seq<nat>, stamp: nat,
                                     nodes: seq<Node>, links: seq<Link>, removed: map<LinkId, seq<NodeId>>, netList: seq<seq<NodeId>>,
                                     realMode: bool)
    requires Scheduled(nodes0, links0, removed0, netList0, passes, cuts, cutNodes, cutLinks, rank, stamp, nodes, links, removed, netList, realMode)
    requires NoCycleFrom(nodes0, links0, netList[0])
    ensures cutLinks == links0 && removed == removed0
    ensures SameShape(nodes0, cutNodes) && SameInputs(nodes0, cutNodes)
    ensures Levelized(cutNodes, links0, netList0, netList, realMode)
  {
    NoCycleNoCut(nodes0, links0, removed0, netList[0], cutNodes, cutLinks, removed);
  }

  /** Only three spellings select real mode; the comparison is case-sensitive. */
  lemma ModeSpellings()
    ensures IsRealMode("REAL") && IsRealMode("Real") && IsRealMode("real")
    ensures !IsRealMode("rEAL") && !IsRealMode("REal") && !IsRealMode("") && !IsRealMode("exact")
  {
  }
}
