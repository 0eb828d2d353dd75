/** A worked example of `startCircuit` on the smallest feedback loop: an
    explicit input E drives A, A drives B, and B drives A back.  The loop
    breaker must cut exactly one edge, and that edge is the one that closes
    the cycle on the first search from E: B back to A. */
module Scenarios {
  import opened Network
  import opened Search
  import opened Levels
  import opened Control

  /** E (node 0) feeds A (node 1) over link 0; A feeds B (node 2) over
      link 1; B feeds A over link 2.  A's inputs are links 0 and 2. */
  function LoopNodes(): seq<Node>
  {
    [NewNode(Explicit, [], [0]), NewNode(Other, [0, 2], [1]), NewNode(Other, [1], [2])]
  }

  function LoopLinks(): seq<Link>
  {
    [NewLink([1]), NewLink([2]), NewLink([1])]
  }

  /** The outputs of the loop: node `k` drives link `k`. */
  ghost predicate LoopShape(nodes: seq<Node>)
  {
    |nodes| == 3 && nodes[0].outputs == [0] && nodes[1].outputs == [1] && nodes[2].outputs == [2]
  }

  /** Links 0 and 1 as in the loop; link 2 leads back to A, or nowhere once cut. */
  ghost predicate LoopDests(links: seq<Link>)
  {
    |links| == 3 && links[0].dests == [1] && links[1].dests == [2] && (links[2].dests == [1] || links[2].dests == [])
  }

  /** On the loop, a path from E alternates A, B, A, B, ... after E. */
  lemma {:induction false} TrailAt(nodes: seq<Node>, links: seq<Link>, trail: seq<NodeId>, q: nat)
    requires LoopShape(nodes) && LoopDests(links)
    requires IsPath(nodes, links, trail) && |trail| > 0 && trail[0] == 0
    ensures q < |trail| ==> trail[q] == if q == 0 then 0 else if q % 2 == 1 then 1 else 2
  {
    if 0 < q < |trail| {
      TrailAt(nodes, links, trail, q - 1);
      assert Edge(nodes, links, trail[q - 1], trail[q]);
    }
  }

  /** A simple path from E on the loop is a prefix of E, A, B. */
  lemma SimpleTrails(nodes: seq<Node>, links: seq<Link>, trail: seq<NodeId>)
    requires LoopShape(nodes) && LoopDests(links)
    requires IsPath(nodes, links, trail) && Distinct(trail) && |trail| > 0 && trail[0] == 0
    ensures |trail| <= 3 && trail == [0, 1, 2][..|trail|]
  {
    TrailAt(nodes, links, trail, 1);
    TrailAt(nodes, links, trail, 2);
    TrailAt(nodes, links, trail, 3);
  }

  /** On the loop, the only edge that leads back onto a simple path from E
      is B→A, at position 0 of link 2, and only while it is not cut. */
  lemma OnlyBackEdge(before: Pass, after: Pass, cut: Cut)
    requires LoopShape(before.nodes) && LoopDests(before.links) && PassCuts(before, after, [0], cut)
    ensures cut.link == 2 && cut.pos == 0 && before.links[2].dests == [1] && LoopShape(after.nodes)
  {
    SimpleTrails(before.nodes, before.links, cut.trail);
    assert SameShape(before.nodes, after.nodes);
  }

  /** Severing position 0 of link 2 when it leads only to A. */
  lemma SeverFeedback(before: Pass, after: Pass, cut: Cut)
    requires |before.links| == 3 && cut.link == 2 && cut.pos == 0 && before.links[2].dests == [1]
    requires Severed(before.nodes, before.links, before.removed, after.nodes, after.links, after.removed, cut.link, cut.pos)
    ensures after.links == before.links[2 := before.links[2].(dests := [])]
    ensures after.removed == before.removed[2 := Recorded(before.removed, 2) + [1]]
  {
    assert RemoveAt(before.links[2].dests, 0) == [];
  }

  /** A cutting pass on the loop cuts B→A. */
  lemma CutIsFeedback(before: Pass, after: Pass, cut: Cut)
    requires LoopShape(before.nodes) && LoopDests(before.links) && PassCuts(before, after, [0], cut)
    ensures before.links[2].dests == [1]
    ensures after.links == before.links[2 := before.links[2].(dests := [])]
    ensures after.removed == before.removed[2 := Recorded(before.removed, 2) + [1]]
    ensures LoopShape(after.nodes)
  {
    OnlyBackEdge(before, after, cut);
    SeverFeedback(before, after, cut);
  }

  /** On the loop, a ranking that clears E would have to order A below B
      and B below A, so the feedback edge B→A cannot survive the cut. */
  lemma RankedCutsTheLoop(nodes: seq<Node>, links: seq<Link>, rank: seq<nat>, stamp: nat)
    requires LoopFreeRanked(nodes, links, rank, stamp) && LoopShape(nodes) && !nodes[0].loop && LoopDests(links)
    ensures links[2].dests == []
  {
    assert 0 in nodes[0].outputs && 1 in links[0].dests;
    assert 1 in nodes[1].outputs && 2 in links[1].dests;
    assert 2 in nodes[2].outputs;
  }

  /** A chain of one pass cut nothing: the search left the graph as it was. */
  lemma NoPassKeepsGraph(passes: seq<Pass>, cuts: seq<Cut>, start: Pass, level0: seq<NodeId>,
                         nodes: seq<Node>, links: seq<Link>, removed: map<LinkId, seq<NodeId>>)
    requires CutByPasses(passes, cuts, start, level0, nodes, links, removed) && |passes| == 1
    ensures links == start.links && removed == start.removed && SameShape(start.nodes, nodes)
  {
  }

  /** On the loop, a search that cuts nothing cannot clear E. */
  lemma LoopNeedsACut(nodes0: seq<Node>, links0: seq<Link>, passes: seq<Pass>, cuts: seq<Cut>, cutNodes: seq<Node>, cutLinks: seq<Link>,
                      rank: seq<nat>, stamp: nat, removed: map<LinkId, seq<NodeId>>)
    requires LoopShape(nodes0) && LoopDests(links0) && links0[2].dests == [1]
    requires CutByPasses(passes, cuts, Pass(nodes0, links0, map[]), [0], cutNodes, cutLinks, removed)
    requires LoopFreeRanked(cutNodes, cutLinks, rank, stamp) && |cutNodes| == 3 && !cutNodes[0].loop
    ensures |passes| >= 2
  {
    if |passes| == 1 {
      NoPassKeepsGraph(passes, cuts, Pass(nodes0, links0, map[]), [0], cutNodes, cutLinks, removed);
      RankedCutsTheLoop(cutNodes, cutLinks, rank, stamp);
    }
  }

  /** On the loop with B→A cut, no pass cuts anything. */
  lemma NoSecondCut(before: Pass, after: Pass, cut: Cut)
    requires LoopShape(before.nodes) && LoopDests(before.links) && before.links[2].dests == []
    ensures !PassCuts(before, after, [0], cut)
  {
    if PassCuts(before, after, [0], cut) {
      CutIsFeedback(before, after, cut);
    }
  }

  /** On the loop, once B→A is cut no later pass can cut anything. */
  lemma ChainStops(passes: seq<Pass>, cuts: seq<Cut>)
    requires PassesCut(passes, cuts, [0]) && |passes| >= 2
    requires LoopShape(passes[1].nodes) && LoopDests(passes[1].links) && passes[1].links[2].dests == []
    ensures |passes| == 2
  {
    if |passes| > 2 {
      NoSecondCut(passes[1], passes[2], cuts[1]);
    }
  }

  /** The chain of cutting passes from the loop: after the first pass cut
      B→A, the chain stops. */
  lemma ChainCutsOnce(nodes0: seq<Node>, links0: seq<Link>, passes: seq<Pass>, cuts: seq<Cut>)
    requires LoopShape(nodes0) && LoopDests(links0) && links0[2].dests == [1]
    requires PassesCut(passes, cuts, [0]) && |passes| >= 2 && passes[0] == Pass(nodes0, links0, map[])
    ensures |passes| == 2 && cuts[0].link == 2 && cuts[0].pos == 0 && cuts[0].root == 0
    ensures passes[1].removed == map[2 := [1]] && passes[1].links == links0[2 := links0[2].(dests := [])]
  {
    OnlyBackEdge(passes[0], passes[1], cuts[0]);
    CutIsFeedback(passes[0], passes[1], cuts[0]);
    ChainStops(passes, cuts);
    assert Recorded(map[], 2) + [1] == [1];
  }

  /** `startCircuit` on a circuit of the loop's shape, in either mode. */
  lemma LoopCutsOnce(nodes0: seq<Node>, links0: seq<Link>, passes: seq<Pass>, cuts: seq<Cut>, cutNodes: seq<Node>, cutLinks: seq<Link>,
                     rank: seq<nat>, stamp: nat, nodes: seq<Node>, links: seq<Link>, removed: map<LinkId, seq<NodeId>>,
                     netList: seq<seq<NodeId>>, realMode: bool)
    requires LoopShape(nodes0) && LoopDests(links0) && links0[2].dests == [1]
    requires Scheduled(nodes0, links0, map[], [[0]], passes, cuts, cutNodes, cutLinks, rank, stamp,
                       nodes, links, removed, netList, realMode)
    ensures |passes| == 2 && cuts == [Cut(0, 2, 0, cuts[0].trail)]
    ensures removed == map[2 := [1]] && cutLinks == links0[2 := links0[2].(dests := [])]
  {
    ScheduledFromE(nodes0, links0, passes, cuts, cutNodes, cutLinks, rank, stamp, nodes, links, removed, netList, realMode);
    LoopNeedsACut(nodes0, links0, passes, cuts, cutNodes, cutLinks, rank, stamp, removed);
    ChainCutsOnce(nodes0, links0, passes, cuts);
  }

  /** What `Scheduled` says about the cut graph when level 0 is E alone. */
  lemma ScheduledFromE(nodes0: seq<Node>, links0: seq<Link>, passes: seq<Pass>, cuts: seq<Cut>, cutNodes: seq<Node>, cutLinks: seq<Link>,
                       rank: seq<nat>, stamp: nat, nodes: seq<Node>, links: seq<Link>, removed: map<LinkId, seq<NodeId>>,
                       netList: seq<seq<NodeId>>, realMode: bool)
    requires Scheduled(nodes0, links0, map[], [[0]], passes, cuts, cutNodes, cutLinks, rank, stamp,
                       nodes, links, removed, netList, realMode)
    ensures CutByPasses(passes, cuts, Pass(nodes0, links0, map[]), [0], cutNodes, cutLinks, removed)
    ensures LoopFreeRanked(cutNodes, cutLinks, rank, stamp) && |cutNodes| == |nodes0| && 0 < |cutNodes| && !cutNodes[0].loop
  {
    assert netList[0] == [0] by {
      assert Levelized(cutNodes, cutLinks, [[0]], netList, realMode);
    }
    assert netList[0][0] == 0;
    assert SameShape(nodes0, cutNodes);
  }

  /** `startCircuit` on the loop itself: it records exactly B→A, the
      feedback edge the first search from E finds. */
  lemma LoopScenario(passes: seq<Pass>, cuts: seq<Cut>, cutNodes: seq<Node>, cutLinks: seq<Link>, rank: seq<nat>, stamp: nat,
                     nodes: seq<Node>, links: seq<Link>, removed: map<LinkId, seq<NodeId>>,
                     netList: seq<seq<NodeId>>, realMode: bool)
    requires Scheduled(LoopNodes(), LoopLinks(), map[], [[0]], passes, cuts, cutNodes, cutLinks, rank, stamp,
                       nodes, links, removed, netList, realMode)
    ensures |passes| == 2 && cuts == [Cut(0, 2, 0, cuts[0].trail)] && removed == map[2 := [1]]
    ensures cutLinks == [NewLink([1]), NewLink([2]), NewLink([])]
  {
    LoopHasLoopShape();
    LoopCutsOnce(LoopNodes(), LoopLinks(), passes, cuts, cutNodes, cutLinks, rank, stamp, nodes, links, removed, netList, realMode);
  }

  /** The loop has the loop's shape, and cutting B→A empties link 2. */
  lemma LoopHasLoopShape()
    ensures LoopShape(LoopNodes()) && LoopDests(LoopLinks()) && LoopLinks()[2].dests == [1]
    ensures LoopLinks()[2 := LoopLinks()[2].(dests := [])] == [NewLink([1]), NewLink([2]), NewLink([])]
  {
  }
}
