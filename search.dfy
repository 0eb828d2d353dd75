/** The loop breaker's depth-first search, described on values.

    The search keeps an explicit stack of cursor frames `(node, i, j)`: the
    frame of a node points at destination `j` of its output link `i`.  This
    module states what holds of the graph and the stack between two turns of
    the search's outer loop, the measure that makes that loop terminate, and
    one lemma per kind of turn the loop can take.  The method that runs
    the search (`Control.Circuit.DepthFirstSearch`) applies these lemmas. */
module Search {
  import opened Network

  datatype Frame = Frame(node: NodeId, i: nat, j: nat)

  /** A new frame: cursor at the first destination of the first output link. */
  function NewFrame(n: NodeId): Frame
  {
    Frame(n, 0, 0)
  }

  /** Pop the top frame and advance the cursor of the frame below, if any. */
  function PopAdvance(stack: seq<Frame>): seq<Frame>
    requires |stack| > 0
  {
    var s := stack[..|stack| - 1];
    if s == [] then [] else s[|s| - 1 := s[|s| - 1].(j := s[|s| - 1].j + 1)]
  }

  // ---------------------------------------------------------------------------
  // Cursors

  /** The cursor of `f` is inside the outputs of its node; past the last
      output it is reset to destination 0. */
  ghost predicate Positioned(nodes: seq<Node>, links: seq<Link>, f: Frame)
  {
    && f.node < |nodes|
    && f.i <= |nodes[f.node].outputs|
    && (f.i < |nodes[f.node].outputs| ==> f.j <= |Dests(links, nodes[f.node].outputs[f.i])|)
    && (f.i == |nodes[f.node].outputs| ==> f.j == 0)
  }

  /** The cursor of `f` points at an existing destination. */
  ghost predicate Open(nodes: seq<Node>, links: seq<Link>, f: Frame)
  {
    Positioned(nodes, links, f) && f.i < |nodes[f.node].outputs| && f.j < |Dests(links, nodes[f.node].outputs[f.i])|
  }

  /** The destination under the cursor of `f`. */
  ghost function Target(nodes: seq<Node>, links: seq<Link>, f: Frame): NodeId
    requires Open(nodes, links, f)
  {
    Dests(links, nodes[f.node].outputs[f.i])[f.j]
  }

  /** Every node of `ds` is in the arena and proven loop-free. */
  ghost predicate AllCleared(nodes: seq<Node>, ds: seq<NodeId>)
  {
    forall k :: 0 <= k < |ds| ==> ds[k] < |nodes| && !nodes[ds[k]].loop
  }

  /** Every destination the cursor of `f` has moved past is proven loop-free. */
  ghost predicate Explored(nodes: seq<Node>, links: seq<Link>, f: Frame)
    requires Positioned(nodes, links, f)
  {
    && (forall i' :: 0 <= i' < f.i ==> AllCleared(nodes, Dests(links, nodes[f.node].outputs[i'])))
    && (f.i < |nodes[f.node].outputs| ==> AllCleared(nodes, Dests(links, nodes[f.node].outputs[f.i])[..f.j]))
  }

  // ---------------------------------------------------------------------------
  // What holds between two turns of the outer loop

  /** Frame `q` is the frame of `path[q]`, with a well-placed cursor that
      has moved past loop-free destinations only. */
  ghost predicate FrameOk(nodes: seq<Node>, links: seq<Link>, stack: seq<Frame>, path: seq<NodeId>, q: nat)
    requires q < |stack| == |path|
  {
    stack[q].node == path[q] && Positioned(nodes, links, stack[q]) && Explored(nodes, links, stack[q])
  }

  /** Frame `q`, below the top, has been entered: its node is visited and
      still a loop candidate, and its cursor points at the node of frame q+1. */
  ghost predicate Entered(nodes: seq<Node>, links: seq<Link>, stack: seq<Frame>, path: seq<NodeId>, q: nat)
    requires q + 1 < |stack| == |path|
  {
    && stack[q].node == path[q] && Open(nodes, links, stack[q]) && Target(nodes, links, stack[q]) == path[q + 1]
    && nodes[path[q]].visited && nodes[path[q]].loop
  }

  /** The search is still looking for a back edge.  `path` lists the nodes
      of the frames, which are distinct and start at `root`; every frame
      below the top has been entered; the visited nodes are all on the stack. */
  ghost predicate Searching(nodes: seq<Node>, links: seq<Link>, stack: seq<Frame>, path: seq<NodeId>, root: NodeId)
  {
    && |stack| == |path|
    && (forall q :: 0 <= q < |stack| ==> FrameOk(nodes, links, stack, path, q))
    && (|stack| > 0 ==> path[0] == root)
    && (forall q :: 0 <= q < |stack| - 1 ==> Entered(nodes, links, stack, path, q))
    && Distinct(path)
    && (forall n :: 0 <= n < |nodes| && nodes[n].visited ==> n in path)
    && (|stack| > 0 ==> path[|path| - 1] < |nodes| && (nodes[path[|path| - 1]].visited ==> nodes[path[|path| - 1]].loop))
  }

  /** A back edge has been cut and the stack is being unwound: the visited
      nodes are still exactly on the stack. */
  ghost predicate Unwinding(nodes: seq<Node>, stack: seq<Frame>, path: seq<NodeId>)
  {
    && |stack| == |path|
    && (forall q :: 0 <= q < |stack| ==> stack[q].node == path[q] && path[q] < |nodes|)
    && (forall n :: 0 <= n < |nodes| && nodes[n].visited ==> n in path)
  }

  /** The edge cut by the search closes a cycle: `trail` is a simple path
      (no node twice) of the graph before the cut from `root` to a node that
      owns `cutLink`, and the destination cut from `cutLink` lies on `trail`. */
  ghost predicate BackEdgeCut(nodes0: seq<Node>, links0: seq<Link>, removed0: map<LinkId, seq<NodeId>>,
                              nodes: seq<Node>, links: seq<Link>, removed: map<LinkId, seq<NodeId>>,
                              cutLink: LinkId, cutPos: nat, trail: seq<NodeId>, root: NodeId)
  {
    && Severed(nodes0, links0, removed0, nodes, links, removed, cutLink, cutPos)
    && IsPath(nodes0, links0, trail) && Distinct(trail)
    && |trail| > 0 && trail[0] == root && trail[|trail| - 1] < |nodes0|
    && cutLink in nodes0[trail[|trail| - 1]].outputs
    && links0[cutLink].dests[cutPos] in trail
  }

  /** The invariant of the search's outer loop: `nodes0`, `links0` and
      `removed0` are the state at the call, `rv` is `StackFrame.returnValue`. */
  ghost predicate DfsInv(nodes0: seq<Node>, links0: seq<Link>, removed0: map<LinkId, seq<NodeId>>,
                         nodes: seq<Node>, links: seq<Link>, removed: map<LinkId, seq<NodeId>>,
                         rank: seq<nat>, stamp: nat, rv: bool, stack: seq<Frame>, path: seq<NodeId>, root: NodeId,
                         cutLink: LinkId, cutPos: nat, trail: seq<NodeId>)
  {
    && WellFormed(nodes, links)
    && root < |nodes|
    && SameShape(nodes0, nodes) && LoopOnlyCleared(nodes0, nodes) && SameValidity(links0, links)
    && LoopFreeRanked(nodes, links, rank, stamp)
    && (!nodes0[root].loop ==> !rv && nodes == nodes0 && |stack| <= 1 && (|stack| == 1 ==> stack[0].node == root))
    && (!rv ==> && links == links0 && removed == removed0 && SameInputs(nodes0, nodes)
                && Searching(nodes, links, stack, path, root)
                && (|stack| == 0 ==> !nodes[root].loop))
    && (rv ==> Unwinding(nodes, stack, path)
               && BackEdgeCut(nodes0, links0, removed0, nodes, links, removed, cutLink, cutPos, trail, root))
  }

  // ---------------------------------------------------------------------------
  // The termination measure

  /** Destinations of the output links of `n` from output `i` on. */
  function DestsFrom(nodes: seq<Node>, links: seq<Link>, n: NodeId, i: nat): nat
    decreases if n < |nodes| && i < |nodes[n].outputs| then |nodes[n].outputs| - i else 0
  {
    if n < |nodes| && i < |nodes[n].outputs| then |Dests(links, nodes[n].outputs[i])| + DestsFrom(nodes, links, n, i + 1) else 0
  }

  /** Destinations the cursor of `f` has not yet moved past. */
  function Remaining(nodes: seq<Node>, links: seq<Link>, f: Frame): nat
  {
    var k := DestsFrom(nodes, links, f.node, f.i);
    if f.j <= k then k - f.j else 0
  }

  /** Progress inside the innermost entered frame: its remaining
      destinations, counted twice, plus one while it is itself on top. */
  function Progress(nodes: seq<Node>, links: seq<Link>, stack: seq<Frame>): nat
  {
    if stack == [] then 0
    else if stack[|stack| - 1].node < |nodes| && nodes[stack[|stack| - 1].node].visited then 2 * Remaining(nodes, links, stack[|stack| - 1]) + 1
    else if |stack| >= 2 then 2 * Remaining(nodes, links, stack[|stack| - 2])
    else 0
  }

  /** Number of loop candidates. */
  function CountLoop(nodes: seq<Node>): nat
  {
    if nodes == [] then 0 else CountLoop(nodes[..|nodes| - 1]) + (if nodes[|nodes| - 1].loop then 1 else 0)
  }

  /** Number of loop candidates not yet entered. */
  function CountUnentered(nodes: seq<Node>): nat
  {
    if nodes == [] then 0 else CountUnentered(nodes[..|nodes| - 1]) + (if nodes[|nodes| - 1].loop && !nodes[|nodes| - 1].visited then 1 else 0)
  }

  // ---------------------------------------------------------------------------
  // Lemmas about the measure

  /** Updating one node changes the two counts by that node's contribution only. */
  lemma {:induction false} CountsAfterUpdate(nodes: seq<Node>, t: NodeId, v: Node)
    requires t < |nodes|
    ensures CountLoop(nodes[t := v]) + (if nodes[t].loop then 1 else 0) == CountLoop(nodes) + (if v.loop then 1 else 0)
    ensures CountUnentered(nodes[t := v]) + (if nodes[t].loop && !nodes[t].visited then 1 else 0)
         == CountUnentered(nodes) + (if v.loop && !v.visited then 1 else 0)
  {
    var n := |nodes| - 1;
    var w := nodes[t := v];
    if t < n {
      assert w[..n] == nodes[..n][t := v];
      CountsAfterUpdate(nodes[..n], t, v);
    } else {
      assert w[..n] == nodes[..n];
    }
  }

  /** Moving the cursor one destination on uses up one remaining destination. */
  lemma StepUsesOne(nodes: seq<Node>, links: seq<Link>, f: Frame)
    requires Open(nodes, links, f)
    ensures Remaining(nodes, links, f.(j := f.j + 1)) + 1 == Remaining(nodes, links, f)
  {
    assert DestsFrom(nodes, links, f.node, f.i) == |Dests(links, nodes[f.node].outputs[f.i])| + DestsFrom(nodes, links, f.node, f.i + 1);
  }

  /** Moving past an exhausted output link leaves the remaining count as it is. */
  lemma NextOutputSameRemaining(nodes: seq<Node>, links: seq<Link>, f: Frame)
    requires Positioned(nodes, links, f) && f.i < |nodes[f.node].outputs| && f.j == |Dests(links, nodes[f.node].outputs[f.i])|
    ensures Remaining(nodes, links, Frame(f.node, f.i + 1, 0)) == Remaining(nodes, links, f)
  {
    assert DestsFrom(nodes, links, f.node, f.i) == |Dests(links, nodes[f.node].outputs[f.i])| + DestsFrom(nodes, links, f.node, f.i + 1);
  }

  // ---------------------------------------------------------------------------
  // Lemmas about the frames

  /** Frames only depend on the outputs of nodes and on links, and proven
      loop-freedom survives clearing more `loop` flags. */
  lemma FramesSurviveClearing(nodes: seq<Node>, nodes2: seq<Node>, links: seq<Link>, f: Frame)
    requires SameShape(nodes, nodes2) && LoopOnlyCleared(nodes, nodes2)
    requires Positioned(nodes, links, f) && Explored(nodes, links, f)
    ensures Positioned(nodes2, links, f) && Explored(nodes2, links, f)
    ensures Open(nodes, links, f) ==> Open(nodes2, links, f) && Target(nodes2, links, f) == Target(nodes, links, f)
  {
    var outs := nodes[f.node].outputs;
    assert nodes2[f.node].outputs == outs;
    forall i' | 0 <= i' < f.i ensures AllCleared(nodes2, Dests(links, outs[i'])) {
      ClearedStaysCleared(nodes, nodes2, Dests(links, outs[i']));
    }
    if f.i < |outs| {
      ClearedStaysCleared(nodes, nodes2, Dests(links, outs[f.i])[..f.j]);
    }
  }

  lemma ClearedStaysCleared(nodes: seq<Node>, nodes2: seq<Node>, ds: seq<NodeId>)
    requires LoopOnlyCleared(nodes, nodes2) && AllCleared(nodes, ds)
    ensures AllCleared(nodes2, ds)
  {
  }

  /** Extending a cleared prefix by one more cleared destination. */
  lemma ClearedPrefixGrows(nodes: seq<Node>, ds: seq<NodeId>, j: nat)
    requires j < |ds| && AllCleared(nodes, ds[..j]) && ds[j] < |nodes| && !nodes[ds[j]].loop
    ensures AllCleared(nodes, ds[..j + 1])
  {
    assert ds[..j + 1] == ds[..j] + [ds[j]];
  }

  /** The nodes of the stack form a path of the graph. */
  lemma StackIsPath(nodes: seq<Node>, links: seq<Link>, stack: seq<Frame>, path: seq<NodeId>, root: NodeId)
    requires Searching(nodes, links, stack, path, root)
    ensures IsPath(nodes, links, path)
  {
    forall q | 0 <= q < |path| - 1 ensures Edge(nodes, links, path[q], path[q + 1]) {
      assert Entered(nodes, links, stack, path, q);
      var f := stack[q];
      var l := nodes[f.node].outputs[f.i];
      assert l in nodes[path[q]].outputs;
      assert l < |links| && path[q + 1] in links[l].dests;
    }
  }

  /** A path only depends on outputs and destinations. */
  lemma PathKeepsShape(nodes: seq<Node>, nodes2: seq<Node>, links: seq<Link>, p: seq<NodeId>)
    requires SameShape(nodes, nodes2) && IsPath(nodes, links, p)
    ensures IsPath(nodes2, links, p)
  {
    forall q | 0 <= q < |p| - 1 ensures Edge(nodes2, links, p[q], p[q + 1]) {
      assert Edge(nodes, links, p[q], p[q + 1]);
      assert nodes2[p[q]].outputs == nodes[p[q]].outputs;
    }
  }

  /** Popping a frame whose node ends neither visited nor a loop candidate,
      with nothing else changed: the parent's cursor moves past that node. */
  lemma SearchingPop(nodes: seq<Node>, nodes2: seq<Node>, links: seq<Link>, stack: seq<Frame>, path: seq<NodeId>, root: NodeId)
    requires Searching(nodes, links, stack, path, root) && |stack| > 0
    requires SameShape(nodes, nodes2) && LoopOnlyCleared(nodes, nodes2)
    requires forall n :: 0 <= n < |nodes| && n != path[|path| - 1] ==> nodes2[n] == nodes[n]
    requires !nodes2[path[|path| - 1]].loop && !nodes2[path[|path| - 1]].visited
    ensures Searching(nodes2, links, PopAdvance(stack), path[..|path| - 1], root)
    ensures |stack| > 1 ==> Progress(nodes2, links, PopAdvance(stack)) + 1 == 2 * Remaining(nodes, links, stack[|stack| - 2])
  {
    var top := |stack| - 1;
    var t := path[top];
    var stack2, path2 := PopAdvance(stack), path[..top];
    PopFrames(nodes, nodes2, links, stack, path, root, stack2, path2);
    PopEntered(nodes, nodes2, links, stack, path, root, stack2, path2);
    forall n | 0 <= n < |nodes2| && nodes2[n].visited ensures n in path2 {
      assert n != t && nodes[n].visited;
      assert n in path;
    }
    if top > 0 {
      PopParent(nodes, nodes2, links, stack, path, root);
      assert Entered(nodes, links, stack, path, top - 1);
      assert path[top - 1] != t;
    }
  }

  lemma PopFrames(nodes: seq<Node>, nodes2: seq<Node>, links: seq<Link>, stack: seq<Frame>, path: seq<NodeId>, root: NodeId,
                   stack2: seq<Frame>, path2: seq<NodeId>)
    requires Searching(nodes, links, stack, path, root) && |stack| > 0
    requires stack2 == PopAdvance(stack) && path2 == path[..|path| - 1]
    requires SameShape(nodes, nodes2) && LoopOnlyCleared(nodes, nodes2)
    requires !nodes2[path[|path| - 1]].loop
    ensures forall q :: 0 <= q < |stack| - 1 ==> FrameOk(nodes2, links, stack2, path2, q)
  {
    var top := |stack| - 1;
    forall q | 0 <= q < |stack2| ensures FrameOk(nodes2, links, stack2, path2, q) {
      if q == top - 1 {
        PopParent(nodes, nodes2, links, stack, path, root);
      } else {
        assert stack2[q] == stack[q];
        assert FrameOk(nodes, links, stack, path, q);
        FramesSurviveClearing(nodes, nodes2, links, stack[q]);
      }
    }
  }

  lemma PopEntered(nodes: seq<Node>, nodes2: seq<Node>, links: seq<Link>, stack: seq<Frame>, path: seq<NodeId>, root: NodeId,
                   stack2: seq<Frame>, path2: seq<NodeId>)
    requires Searching(nodes, links, stack, path, root) && |stack| > 0
    requires stack2 == PopAdvance(stack) && path2 == path[..|path| - 1]
    requires SameShape(nodes, nodes2) && LoopOnlyCleared(nodes, nodes2)
    requires forall n :: 0 <= n < |nodes| && n != path[|path| - 1] ==> nodes2[n] == nodes[n]
    ensures forall q :: 0 <= q < |stack| - 2 ==> Entered(nodes2, links, stack2, path2, q)
  {
    var top := |stack| - 1;
    var t := path[top];
    forall q | 0 <= q < |stack2| - 1 ensures Entered(nodes2, links, stack2, path2, q) {
      assert Entered(nodes, links, stack, path, q) && FrameOk(nodes, links, stack, path, q);
      assert stack2[q] == stack[q];
      FramesSurviveClearing(nodes, nodes2, links, stack[q]);
      assert path[q] != t;
    }
  }

  /** The parent frame after a pop: its cursor has moved past the popped node. */
  lemma PopParent(nodes: seq<Node>, nodes2: seq<Node>, links: seq<Link>, stack: seq<Frame>, path: seq<NodeId>, root: NodeId)
    requires Searching(nodes, links, stack, path, root) && |stack| > 1
    requires SameShape(nodes, nodes2) && LoopOnlyCleared(nodes, nodes2)
    requires !nodes2[path[|path| - 1]].loop
    ensures var p := stack[|stack| - 2];
      var p2 := p.(j := p.j + 1);
      && PopAdvance(stack)[|stack| - 2] == p2
      && FrameOk(nodes2, links, PopAdvance(stack), path[..|path| - 1], |stack| - 2)
      && Remaining(nodes2, links, p2) + 1 == Remaining(nodes, links, p)
  {
    var q := |stack| - 2;
    var p := stack[q];
    var p2 := p.(j := p.j + 1);
    assert FrameOk(nodes, links, stack, path, q) && Entered(nodes, links, stack, path, q);
    FramesSurviveClearing(nodes, nodes2, links, p);
    StepUsesOne(nodes, links, p);
    assert nodes2[p.node].outputs == nodes[p.node].outputs;
    DestsFromShape(nodes, nodes2, links, p.node, p.i);
    var ds := Dests(links, nodes[p.node].outputs[p.i]);
    assert ds[p.j] == path[q + 1];
    ClearedPrefixGrows(nodes2, ds, p.j);
    assert Positioned(nodes2, links, p2) && Explored(nodes2, links, p2);
  }

  /** `DestsFrom` only depends on the outputs of the node. */
  lemma {:induction false} DestsFromShape(nodes: seq<Node>, nodes2: seq<Node>, links: seq<Link>, n: NodeId, i: nat)
    requires n < |nodes| && |nodes2| == |nodes| && nodes2[n].outputs == nodes[n].outputs
    ensures DestsFrom(nodes2, links, n, i) == DestsFrom(nodes, links, n, i)
    decreases |nodes[n].outputs| - i
  {
    if i < |nodes[n].outputs| {
      DestsFromShape(nodes, nodes2, links, n, i + 1);
    }
  }

  /** Entering the top frame marks its node visited. */
  lemma SearchingEnter(nodes: seq<Node>, links: seq<Link>, stack: seq<Frame>, path: seq<NodeId>, root: NodeId)
    requires Searching(nodes, links, stack, path, root) && |stack| > 0
    requires nodes[path[|path| - 1]].loop
    ensures var t := path[|path| - 1]; Searching(nodes[t := nodes[t].(visited := true)], links, stack, path, root)
  {
    var t := path[|path| - 1];
    var nodes1 := nodes[t := nodes[t].(visited := true)];
    assert SameShape(nodes, nodes1) && LoopOnlyCleared(nodes, nodes1);
    forall q | 0 <= q < |stack| ensures FrameOk(nodes1, links, stack, path, q) {
      assert FrameOk(nodes, links, stack, path, q);
      FramesSurviveClearing(nodes, nodes1, links, stack[q]);
    }
    forall q | 0 <= q < |stack| - 1 ensures Entered(nodes1, links, stack, path, q) {
      assert Entered(nodes, links, stack, path, q) && FrameOk(nodes, links, stack, path, q);
      FramesSurviveClearing(nodes, nodes1, links, stack[q]);
    }
    forall n | 0 <= n < |nodes1| && nodes1[n].visited ensures n in path {
      assert n == t || nodes[n].visited;
    }
  }

  /** Moving a cursor past an exhausted output link keeps it in place and
      keeps what it passed loop-free. */
  lemma AdvanceFrame(nodes: seq<Node>, links: seq<Link>, f: Frame)
    requires Positioned(nodes, links, f) && Explored(nodes, links, f)
    requires f.i < |nodes[f.node].outputs| && f.j >= |Dests(links, nodes[f.node].outputs[f.i])|
    ensures var f2 := f.(i := f.i + 1, j := 0);
      Positioned(nodes, links, f2) && Explored(nodes, links, f2) && Remaining(nodes, links, f2) == Remaining(nodes, links, f)
  {
    var f2 := f.(i := f.i + 1, j := 0);
    NextOutputSameRemaining(nodes, links, f);
    assert Positioned(nodes, links, f2);
    var ds := Dests(links, nodes[f.node].outputs[f.i]);
    assert ds[..f.j] == ds;
  }

  /** The top frame's cursor moves past an exhausted output link. */
  lemma SearchingAdvance(nodes: seq<Node>, links: seq<Link>, stack: seq<Frame>, path: seq<NodeId>, root: NodeId)
    requires Searching(nodes, links, stack, path, root) && |stack| > 0
    requires var f := stack[|stack| - 1];
      f.node < |nodes| && f.i < |nodes[f.node].outputs| && f.j >= |Dests(links, nodes[f.node].outputs[f.i])|
    ensures var f := stack[|stack| - 1];
      var f2 := f.(i := f.i + 1, j := 0);
      Searching(nodes, links, stack[|stack| - 1 := f2], path, root) && Remaining(nodes, links, f2) == Remaining(nodes, links, f)
  {
    var top := |stack| - 1;
    var f := stack[top];
    var f2 := f.(i := f.i + 1, j := 0);
    var stack2 := stack[top := f2];
    assert FrameOk(nodes, links, stack, path, top);
    AdvanceFrame(nodes, links, f);
    forall q | 0 <= q < |stack2| ensures FrameOk(nodes, links, stack2, path, q) {
      if q < top {
        assert FrameOk(nodes, links, stack, path, q);
      }
    }
    forall q | 0 <= q < |stack2| - 1 ensures Entered(nodes, links, stack2, path, q) {
      assert Entered(nodes, links, stack, path, q);
    }
  }

  /** The top frame's cursor points at an unvisited destination: push a frame for it. */
  lemma SearchingPush(nodes: seq<Node>, links: seq<Link>, stack: seq<Frame>, path: seq<NodeId>, root: NodeId)
    requires Searching(nodes, links, stack, path, root) && |stack| > 0
    requires nodes[path[|path| - 1]].visited && Open(nodes, links, stack[|stack| - 1])
    requires var d := Target(nodes, links, stack[|stack| - 1]); d < |nodes| && !nodes[d].visited
    ensures var d := Target(nodes, links, stack[|stack| - 1]);
      Searching(nodes, links, stack + [NewFrame(d)], path + [d], root)
  {
    var top := |stack| - 1;
    var f := stack[top];
    var d := Target(nodes, links, f);
    var stack2, path2 := stack + [NewFrame(d)], path + [d];
    assert FrameOk(nodes, links, stack, path, top);
    forall q | 0 <= q < |path| ensures path[q] != d {
      if q < top {
        assert Entered(nodes, links, stack, path, q);
      }
    }
    forall q | 0 <= q < |stack2| ensures FrameOk(nodes, links, stack2, path2, q) {
      if q < |stack| {
        assert FrameOk(nodes, links, stack, path, q);
      }
    }
    forall q | 0 <= q < |stack2| - 1 ensures Entered(nodes, links, stack2, path2, q) {
      if q < top {
        assert Entered(nodes, links, stack, path, q);
      }
    }
    assert Distinct(path2);
  }

  /** Popping a frame and clearing its node's `visited` flag keeps the
      visited nodes on the stack. */
  lemma UnwindingPop(nodes: seq<Node>, nodes2: seq<Node>, stack: seq<Frame>, path: seq<NodeId>)
    requires Unwinding(nodes, stack, path) && |stack| > 0 && |nodes2| == |nodes|
    requires forall n :: 0 <= n < |nodes| && nodes2[n].visited ==> nodes[n].visited && n != path[|path| - 1]
    ensures Unwinding(nodes2, stack[..|stack| - 1], path[..|path| - 1])
    ensures Unwinding(nodes2, PopAdvance(stack), path[..|path| - 1])
  {
    var stack2 := PopAdvance(stack);
    assert forall q :: 0 <= q < |stack2| ==> stack2[q].node == stack[q].node;
    forall n | 0 <= n < |nodes2| && nodes2[n].visited ensures n in path[..|path| - 1] {
      assert n in path;
    }
  }

  /** A searching state is one the unwinding can start from. */
  lemma SearchingUnwinds(nodes: seq<Node>, links: seq<Link>, stack: seq<Frame>, path: seq<NodeId>, root: NodeId)
    requires Searching(nodes, links, stack, path, root)
    ensures Unwinding(nodes, stack, path)
  {
    forall q | 0 <= q < |stack| ensures stack[q].node == path[q] && path[q] < |nodes| {
      assert FrameOk(nodes, links, stack, path, q);
    }
  }

  // ---------------------------------------------------------------------------
  // The turns of the outer loop, on the whole loop invariant

  /** `nodes2` differs from `nodes` in `visited` flags at most. */
  ghost predicate VisitedOnly(nodes: seq<Node>, nodes2: seq<Node>)
  {
    |nodes2| == |nodes| && forall n :: 0 <= n < |nodes| ==> nodes2[n] == nodes[n].(visited := nodes2[n].visited)
  }

  lemma VisitedOnlyKeeps(nodes: seq<Node>, nodes2: seq<Node>, links: seq<Link>, rank: seq<nat>, stamp: nat)
    requires VisitedOnly(nodes, nodes2)
    ensures WellFormed(nodes, links) ==> WellFormed(nodes2, links)
    ensures LoopFreeRanked(nodes, links, rank, stamp) ==> LoopFreeRanked(nodes2, links, rank, stamp)
    ensures SameShape(nodes, nodes2) && SameInputs(nodes, nodes2) && LoopOnlyCleared(nodes, nodes2)
  {
    assert forall n :: 0 <= n < |nodes| ==> nodes2[n].inputs == nodes[n].inputs && nodes2[n].outputs == nodes[n].outputs && nodes2[n].loop == nodes[n].loop;
  }

  /** The search starts from one frame for `root`. */
  lemma SearchStarts(nodes: seq<Node>, links: seq<Link>, removed: map<LinkId, seq<NodeId>>, rank: seq<nat>, stamp: nat, root: NodeId)
    requires WellFormed(nodes, links) && NoneVisited(nodes) && LoopFreeRanked(nodes, links, rank, stamp) && root < |nodes|
    ensures DfsInv(nodes, links, removed, nodes, links, removed, rank, stamp, false, [NewFrame(root)], [root], root, 0, 0, [])
  {
    assert FrameOk(nodes, links, [NewFrame(root)], [root], 0);
  }

  /** Unwinding after a cut: pop a frame and clear its `visited` flag. */
  lemma UnwindStep(nodes0: seq<Node>, links0: seq<Link>, removed0: map<LinkId, seq<NodeId>>,
                   nodes: seq<Node>, links: seq<Link>, removed: map<LinkId, seq<NodeId>>,
                   rank: seq<nat>, stamp: nat, stack: seq<Frame>, path: seq<NodeId>, root: NodeId,
                   cutLink: LinkId, cutPos: nat, trail: seq<NodeId>)
    requires DfsInv(nodes0, links0, removed0, nodes, links, removed, rank, stamp, true, stack, path, root, cutLink, cutPos, trail)
    requires |stack| > 0
    ensures var t := stack[|stack| - 1].node;
      t < |nodes| &&
      DfsInv(nodes0, links0, removed0, nodes[t := nodes[t].(visited := false)], links, removed, rank, stamp, true,
             PopAdvance(stack), path[..|path| - 1], root, cutLink, cutPos, trail)
  {
    var t := stack[|stack| - 1].node;
    assert t == path[|path| - 1];
    var nodes2 := nodes[t := nodes[t].(visited := false)];
    assert VisitedOnly(nodes, nodes2);
    VisitedOnlyKeeps(nodes, nodes2, links, rank, stamp);
    UnwindingPop(nodes, nodes2, stack, path);
  }

  /** A frame whose node is no longer a loop candidate is popped without
      being entered; its parent's cursor moves past it. */
  lemma SkipCleared(nodes0: seq<Node>, links0: seq<Link>, removed0: map<LinkId, seq<NodeId>>,
                    nodes: seq<Node>, links: seq<Link>, removed: map<LinkId, seq<NodeId>>,
                    rank: seq<nat>, stamp: nat, stack: seq<Frame>, path: seq<NodeId>, root: NodeId,
                    cutLink: LinkId, cutPos: nat, trail: seq<NodeId>)
    requires DfsInv(nodes0, links0, removed0, nodes, links, removed, rank, stamp, false, stack, path, root, cutLink, cutPos, trail)
    requires |stack| > 0 && stack[|stack| - 1].node < |nodes| && !nodes[stack[|stack| - 1].node].loop
    ensures var t := stack[|stack| - 1].node;
      && nodes[t := nodes[t].(visited := false)] == nodes
      && DfsInv(nodes0, links0, removed0, nodes, links, removed, rank, stamp, false,
                PopAdvance(stack), path[..|path| - 1], root, cutLink, cutPos, trail)
      && Progress(nodes, links, PopAdvance(stack)) <= Progress(nodes, links, stack)
      && (|stack| > 1 ==> Progress(nodes, links, PopAdvance(stack)) < Progress(nodes, links, stack))
  {
    var t := stack[|stack| - 1].node;
    assert FrameOk(nodes, links, stack, path, |stack| - 1);
    assert !nodes[t].visited;
    assert nodes[t := nodes[t].(visited := false)] == nodes;
    SearchingPop(nodes, nodes, links, stack, path, root);
  }

  /** Entering the top frame marks its node visited. */
  lemma EnterTop(nodes0: seq<Node>, links0: seq<Link>, removed0: map<LinkId, seq<NodeId>>,
                 nodes: seq<Node>, links: seq<Link>, removed: map<LinkId, seq<NodeId>>,
                 rank: seq<nat>, stamp: nat, stack: seq<Frame>, path: seq<NodeId>, root: NodeId,
                 cutLink: LinkId, cutPos: nat, trail: seq<NodeId>)
    requires DfsInv(nodes0, links0, removed0, nodes, links, removed, rank, stamp, false, stack, path, root, cutLink, cutPos, trail)
    requires |stack| > 0 && stack[|stack| - 1].node < |nodes| && nodes[stack[|stack| - 1].node].loop
    ensures var t := stack[|stack| - 1].node;
      var nodes1 := nodes[t := nodes[t].(visited := true)];
      && DfsInv(nodes0, links0, removed0, nodes1, links, removed, rank, stamp, false, stack, path, root, cutLink, cutPos, trail)
      && CountLoop(nodes1) == CountLoop(nodes)
      && (CountUnentered(nodes1) < CountUnentered(nodes) || nodes1 == nodes)
  {
    var t := stack[|stack| - 1].node;
    assert FrameOk(nodes, links, stack, path, |stack| - 1);
    var nodes1 := nodes[t := nodes[t].(visited := true)];
    CountsAfterUpdate(nodes, t, nodes1[t]);
    assert VisitedOnly(nodes, nodes1);
    VisitedOnlyKeeps(nodes, nodes1, links, rank, stamp);
    SearchingEnter(nodes, links, stack, path, root);
  }

  /** The cursor of the top frame moves past an exhausted output link. */
  lemma AdvanceOutput(nodes0: seq<Node>, links0: seq<Link>, removed0: map<LinkId, seq<NodeId>>,
                      nodes: seq<Node>, links: seq<Link>, removed: map<LinkId, seq<NodeId>>,
                      rank: seq<nat>, stamp: nat, stack: seq<Frame>, path: seq<NodeId>, root: NodeId,
                      cutLink: LinkId, cutPos: nat, trail: seq<NodeId>)
    requires DfsInv(nodes0, links0, removed0, nodes, links, removed, rank, stamp, false, stack, path, root, cutLink, cutPos, trail)
    requires |stack| > 0
    requires var f := stack[|stack| - 1];
      f.node < |nodes| && nodes[f.node].visited && f.i < |nodes[f.node].outputs| && f.j >= |Dests(links, nodes[f.node].outputs[f.i])|
    ensures var f := stack[|stack| - 1];
      var stack2 := stack[|stack| - 1 := f.(i := f.i + 1, j := 0)];
      && DfsInv(nodes0, links0, removed0, nodes, links, removed, rank, stamp, false, stack2, path, root, cutLink, cutPos, trail)
      && Progress(nodes, links, stack2) == Progress(nodes, links, stack)
  {
    SearchingAdvance(nodes, links, stack, path, root);
  }

  /** The top frame's cursor points at an unvisited destination: push a frame for it. */
  lemma PushChild(nodes0: seq<Node>, links0: seq<Link>, removed0: map<LinkId, seq<NodeId>>,
                  nodes: seq<Node>, links: seq<Link>, removed: map<LinkId, seq<NodeId>>,
                  rank: seq<nat>, stamp: nat, stack: seq<Frame>, path: seq<NodeId>, root: NodeId,
                  cutLink: LinkId, cutPos: nat, trail: seq<NodeId>)
    requires DfsInv(nodes0, links0, removed0, nodes, links, removed, rank, stamp, false, stack, path, root, cutLink, cutPos, trail)
    requires |stack| > 0 && stack[|stack| - 1].node < |nodes| && nodes[stack[|stack| - 1].node].visited
    requires Open(nodes, links, stack[|stack| - 1])
    requires var d := Target(nodes, links, stack[|stack| - 1]); d < |nodes| && !nodes[d].visited
    ensures var d := Target(nodes, links, stack[|stack| - 1]);
      && DfsInv(nodes0, links0, removed0, nodes, links, removed, rank, stamp, false, stack + [NewFrame(d)], path + [d], root, cutLink, cutPos, trail)
      && Progress(nodes, links, stack + [NewFrame(d)]) < Progress(nodes, links, stack)
  {
    assert FrameOk(nodes, links, stack, path, |stack| - 1);
    SearchingPush(nodes, links, stack, path, root);
  }

  /** The top frame's cursor points at a visited destination: a back edge.
      The edge is cut and recorded, the top node's `visited` flag is cleared
      and its frame popped. */
  lemma CutBackEdge(nodes0: seq<Node>, links0: seq<Link>, removed0: map<LinkId, seq<NodeId>>,
                    nodes: seq<Node>, links: seq<Link>, removed: map<LinkId, seq<NodeId>>,
                    rank: seq<nat>, stamp: nat, stack: seq<Frame>, path: seq<NodeId>, root: NodeId,
                    cutLink: LinkId, cutPos: nat, trail: seq<NodeId>)
    requires DfsInv(nodes0, links0, removed0, nodes, links, removed, rank, stamp, false, stack, path, root, cutLink, cutPos, trail)
    requires |stack| > 0 && stack[|stack| - 1].node < |nodes| && nodes[stack[|stack| - 1].node].visited
    requires Open(nodes, links, stack[|stack| - 1])
    requires var d := Target(nodes, links, stack[|stack| - 1]); d < |nodes| && nodes[d].visited
    ensures var f := stack[|stack| - 1];
      var t := f.node;
      var l: LinkId := nodes[t].outputs[f.i];
      l < |links| && f.j < |links[l].dests| &&
      var d: NodeId := links[l].dests[f.j];
      var nodes1 := nodes[d := nodes[d].(inputs := RemoveFirst<LinkId>(nodes[d].inputs, l))];
      && d < |nodes|
      && DfsInv(nodes0, links0, removed0,
                nodes1[t := nodes1[t].(visited := false)],
                links[l := links[l].(dests := RemoveAt(links[l].dests, f.j))],
                removed[l := Recorded(removed, l) + [d]],
                rank, stamp, true, stack[..|stack| - 1], path[..|path| - 1], root, l, f.j, path)
  {
    var top := |stack| - 1;
    var f := stack[top];
    assert FrameOk(nodes, links, stack, path, top);
    var t := f.node;
    var l: LinkId := nodes[t].outputs[f.i];
    assert l < |links|;
    var d: NodeId := links[l].dests[f.j];
    var nodes1 := nodes[d := nodes[d].(inputs := RemoveFirst<LinkId>(nodes[d].inputs, l))];
    var nodes2 := nodes1[t := nodes1[t].(visited := false)];
    var links2 := links[l := links[l].(dests := RemoveAt(links[l].dests, f.j))];
    var removed2 := removed[l := Recorded(removed, l) + [d]];
    CutKeepsGraph(nodes0, nodes, nodes2, links, links2, rank, stamp, t, l, d, f.j);
    SearchingUnwinds(nodes, links, stack, path, root);
    UnwindingPop(nodes, nodes2, stack, path);
    CutClosesCycle(nodes0, links, removed, nodes, nodes2, links2, removed2, stack, path, root);
  }

  /** The edge cut under the top frame's cursor leads back to a node on the
      stack, so the stack's path plus that edge is a cycle. */
  lemma CutClosesCycle(nodes0: seq<Node>, links: seq<Link>, removed: map<LinkId, seq<NodeId>>,
                       nodes: seq<Node>, nodes2: seq<Node>, links2: seq<Link>, removed2: map<LinkId, seq<NodeId>>,
                       stack: seq<Frame>, path: seq<NodeId>, root: NodeId)
    requires Searching(nodes, links, stack, path, root) && |stack| > 0
    requires SameShape(nodes0, nodes) && SameInputs(nodes0, nodes) && WellFormed(nodes, links)
    requires var f := stack[|stack| - 1];
      Open(nodes, links, f) && Target(nodes, links, f) < |nodes| && nodes[Target(nodes, links, f)].visited
    requires var f := stack[|stack| - 1];
      var l: LinkId := nodes[f.node].outputs[f.i];
      l < |links| &&
      var d: NodeId := links[l].dests[f.j];
      var nodes1 := nodes[d := nodes[d].(inputs := RemoveFirst<LinkId>(nodes[d].inputs, l))];
      && d < |nodes|
      && nodes2 == nodes1[f.node := nodes1[f.node].(visited := false)]
      && links2 == links[l := links[l].(dests := RemoveAt(links[l].dests, f.j))]
      && removed2 == removed[l := Recorded(removed, l) + [d]]
    ensures var f := stack[|stack| - 1];
      BackEdgeCut(nodes0, links, removed, nodes2, links2, removed2, nodes[f.node].outputs[f.i], f.j, path, root)
  {
    var f := stack[|stack| - 1];
    var t := f.node;
    var l: LinkId := nodes[t].outputs[f.i];
    var d: NodeId := links[l].dests[f.j];
    assert FrameOk(nodes, links, stack, path, |stack| - 1);
    StackIsPath(nodes, links, stack, path, root);
    PathKeepsShape(nodes, nodes0, links, path);
    assert d in path;
    assert nodes0[t].outputs == nodes[t].outputs;
    assert l in nodes0[t].outputs;
    assert Severed(nodes0, links, removed, nodes2, links2, removed2, l, f.j);
  }

  /** Removing one edge keeps the arena well formed and loop-freedom ranked. */
  lemma CutKeepsGraph(nodes0: seq<Node>, nodes: seq<Node>, nodes2: seq<Node>, links: seq<Link>, links2: seq<Link>,
                      rank: seq<nat>, stamp: nat, t: NodeId, l: LinkId, d: NodeId, p: nat)
    requires WellFormed(nodes, links) && LoopFreeRanked(nodes, links, rank, stamp)
    requires SameShape(nodes0, nodes) && LoopOnlyCleared(nodes0, nodes)
    requires t < |nodes| && d < |nodes| && l < |links| && p < |links[l].dests|
    requires var nodes1 := nodes[d := nodes[d].(inputs := RemoveFirst<LinkId>(nodes[d].inputs, l))];
      nodes2 == nodes1[t := nodes1[t].(visited := false)]
    requires links2 == links[l := links[l].(dests := RemoveAt(links[l].dests, p))]
    ensures WellFormed(nodes2, links2) && LoopFreeRanked(nodes2, links2, rank, stamp)
    ensures SameShape(nodes0, nodes2) && LoopOnlyCleared(nodes0, nodes2) && SameValidity(links, links2)
    ensures forall n :: 0 <= n < |nodes| && nodes2[n].visited ==> nodes[n].visited && n != t
  {
    forall n | 0 <= n < |nodes|
      ensures nodes2[n] == nodes[n].(inputs := nodes2[n].inputs, visited := nodes2[n].visited)
      ensures forall k :: k in nodes2[n].inputs ==> k in nodes[n].inputs
    {
      if n == d {
        assert forall k :: k in RemoveFirst<LinkId>(nodes[d].inputs, l) ==> k in nodes[d].inputs;
      }
    }
    forall k | 0 <= k < |links2| ensures forall e :: e in links2[k].dests ==> e in links[k].dests {
      if k == l {
        assert forall e :: e in RemoveAt(links[l].dests, p) ==> e in links[l].dests;
      }
    }
    EdgeSubsetKeeps(nodes, nodes2, links, links2, rank, stamp);
  }

  /** Fewer destinations and fewer inputs, with the same outputs and flags:
      well-formedness and the ranking survive. */
  lemma EdgeSubsetKeeps(nodes: seq<Node>, nodes2: seq<Node>, links: seq<Link>, links2: seq<Link>, rank: seq<nat>, stamp: nat)
    requires WellFormed(nodes, links) && LoopFreeRanked(nodes, links, rank, stamp)
    requires |nodes2| == |nodes| && |links2| == |links|
    requires forall n :: 0 <= n < |nodes| ==> nodes2[n].outputs == nodes[n].outputs && nodes2[n].loop == nodes[n].loop
    requires forall n, k :: 0 <= n < |nodes2| && k in nodes2[n].inputs ==> k in nodes[n].inputs
    requires forall k, e :: 0 <= k < |links2| && e in links2[k].dests ==> e in links[k].dests
    ensures WellFormed(nodes2, links2) && LoopFreeRanked(nodes2, links2, rank, stamp)
  {
  }

  /** The top frame has run out of outputs with no back edge below it: its
      node is proven loop-free, it receives the next rank, and its frame is
      popped with its parent's cursor moved past it. */
  lemma FinishNode(nodes0: seq<Node>, links0: seq<Link>, removed0: map<LinkId, seq<NodeId>>,
                   nodes: seq<Node>, links: seq<Link>, removed: map<LinkId, seq<NodeId>>,
                   rank: seq<nat>, stamp: nat, stack: seq<Frame>, path: seq<NodeId>, root: NodeId,
                   cutLink: LinkId, cutPos: nat, trail: seq<NodeId>)
    requires DfsInv(nodes0, links0, removed0, nodes, links, removed, rank, stamp, false, stack, path, root, cutLink, cutPos, trail)
    requires |stack| > 0 && stack[|stack| - 1].node < |nodes|
    requires nodes[stack[|stack| - 1].node].visited
    requires stack[|stack| - 1].i >= |nodes[stack[|stack| - 1].node].outputs|
    ensures var t := stack[|stack| - 1].node;
      var nodes2 := nodes[t := nodes[t].(visited := false, loop := false)];
      && DfsInv(nodes0, links0, removed0, nodes2, links, removed, rank[t := stamp], stamp + 1, false,
                PopAdvance(stack), path[..|path| - 1], root, cutLink, cutPos, trail)
      && CountLoop(nodes2) < CountLoop(nodes)
  {
    var top := |stack| - 1;
    var f := stack[top];
    var t := f.node;
    assert FrameOk(nodes, links, stack, path, top);
    var nodes2 := nodes[t := nodes[t].(visited := false, loop := false)];
    assert path[top] == t && nodes[t].loop;
    CountsAfterUpdate(nodes, t, nodes2[t]);
    FinishKeepsRanked(nodes, nodes2, links, rank, stamp, f);
    assert SameShape(nodes, nodes2) && LoopOnlyCleared(nodes, nodes2);
    SearchingPop(nodes, nodes2, links, stack, path, root);
  }

  /** A node whose destinations are all loop-free may be cleared itself,
      with a rank above every other: the ranking stays sound. */
  lemma FinishKeepsRanked(nodes: seq<Node>, nodes2: seq<Node>, links: seq<Link>, rank: seq<nat>, stamp: nat, f: Frame)
    requires WellFormed(nodes, links) && LoopFreeRanked(nodes, links, rank, stamp)
    requires Positioned(nodes, links, f) && Explored(nodes, links, f) && f.i >= |nodes[f.node].outputs|
    requires nodes[f.node].loop
    requires nodes2 == nodes[f.node := nodes[f.node].(visited := false, loop := false)]
    ensures WellFormed(nodes2, links) && LoopFreeRanked(nodes2, links, rank[f.node := stamp], stamp + 1)
  {
    var t := f.node;
    var rank2 := rank[t := stamp];
    forall a, k, b | 0 <= a < |nodes2| && !nodes2[a].loop && k in nodes2[a].outputs && k < |links| && b in links[k].dests
      ensures b < |nodes2| && !nodes2[b].loop && rank2[b] < rank2[a]
    {
      if a == t {
        var i' :| 0 <= i' < |nodes[t].outputs| && nodes[t].outputs[i'] == k;
        assert AllCleared(nodes, Dests(links, nodes[t].outputs[i']));
        var e :| 0 <= e < |links[k].dests| && links[k].dests[e] == b;
        assert Dests(links, nodes[t].outputs[i'])[e] == b;
        assert b != t;
      } else {
        assert !nodes[a].loop;
        assert b != t;
      }
    }
    assert forall n, k :: 0 <= n < |nodes2| && k in nodes2[n].inputs ==> k in nodes[n].inputs;
    assert forall n, k :: 0 <= n < |nodes2| && k in nodes2[n].outputs ==> k in nodes[n].outputs;
  }

  /** The node of the top frame is in the arena; while searching, its cursor is in place. */
  lemma TopFrame(nodes0: seq<Node>, links0: seq<Link>, removed0: map<LinkId, seq<NodeId>>,
                 nodes: seq<Node>, links: seq<Link>, removed: map<LinkId, seq<NodeId>>,
                 rank: seq<nat>, stamp: nat, rv: bool, stack: seq<Frame>, path: seq<NodeId>, root: NodeId,
                 cutLink: LinkId, cutPos: nat, trail: seq<NodeId>)
    requires DfsInv(nodes0, links0, removed0, nodes, links, removed, rank, stamp, rv, stack, path, root, cutLink, cutPos, trail)
    requires |stack| > 0
    ensures stack[|stack| - 1].node < |nodes|
    ensures !rv ==> Positioned(nodes, links, stack[|stack| - 1])
  {
    if !rv {
      assert FrameOk(nodes, links, stack, path, |stack| - 1);
    }
  }

  /** When the stack is empty every `visited` flag is clear again. */
  lemma SearchEnds(nodes0: seq<Node>, links0: seq<Link>, removed0: map<LinkId, seq<NodeId>>,
                   nodes: seq<Node>, links: seq<Link>, removed: map<LinkId, seq<NodeId>>,
                   rank: seq<nat>, stamp: nat, rv: bool, path: seq<NodeId>, root: NodeId,
                   cutLink: LinkId, cutPos: nat, trail: seq<NodeId>)
    requires DfsInv(nodes0, links0, removed0, nodes, links, removed, rank, stamp, rv, [], path, root, cutLink, cutPos, trail)
    ensures NoneVisited(nodes)
  {
    assert path == [];
  }
}
