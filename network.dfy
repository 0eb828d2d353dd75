/** The element/link graph the circuit controller works on.

    Elements and links refer to each other cyclically, so both live in flat
    arenas: a node is named by its index in a `seq<Node>` and a link by its
    index in a `seq<Link>`.  A node lists its input and output links in order,
    a link lists its destination nodes in order.  The flags `loop`, `visited`
    and `valid` are the traversal bookkeeping the controller keeps inside the
    graph objects. */
module Network {

  type NodeId = nat
  type LinkId = nat

  /** The element kinds the controller tells apart: explicit inputs and clocks
      are scheduled at level 0; every other element (gates, flip-flops, ...)
      is `Other`. */
  datatype Kind = Explicit | Clock | Other

  datatype Node = Node(kind: Kind, inputs: seq<LinkId>, outputs: seq<LinkId>, loop: bool, visited: bool)

  datatype Link = Link(dests: seq<NodeId>, valid: bool)

  /** A freshly built element is still a loop candidate and is not visited. */
  function NewNode(kind: Kind, inputs: seq<LinkId>, outputs: seq<LinkId>): Node
  {
    Node(kind, inputs, outputs, true, false)
  }

  /** A freshly built link is not valid. */
  function NewLink(dests: seq<NodeId>): Link
  {
    Link(dests, false)
  }

  /** Destinations of link `l` (none for an identifier outside the arena). */
  function Dests(links: seq<Link>, l: LinkId): seq<NodeId>
  {
    if l < |links| then links[l].dests else []
  }

  /** Every identifier stored in the graph names an arena entry. */
  ghost predicate WellFormed(nodes: seq<Node>, links: seq<Link>)
  {
    && (forall n, l :: 0 <= n < |nodes| && l in nodes[n].inputs ==> l < |links|)
    && (forall n, l :: 0 <= n < |nodes| && l in nodes[n].outputs ==> l < |links|)
    && (forall l, d :: 0 <= l < |links| && d in links[l].dests ==> d < |nodes|)
  }

  /** Every occurrence of node `n` among the destinations of link `l` is
      matched by an occurrence of `l` among the inputs of `n`, and back. */
  ghost predicate Consistent(nodes: seq<Node>, links: seq<Link>)
  {
    forall l, n :: 0 <= l < |links| && 0 <= n < |nodes| ==>
      multiset(links[l].dests)[n] == multiset(nodes[n].inputs)[l]
  }

  /** `b` is a destination of some output link of `a`. */
  ghost predicate Edge(nodes: seq<Node>, links: seq<Link>, a: NodeId, b: NodeId)
  {
    a < |nodes| && exists l :: l in nodes[a].outputs && l < |links| && b in links[l].dests
  }

  ghost predicate IsPath(nodes: seq<Node>, links: seq<Link>, p: seq<NodeId>)
  {
    forall q :: 0 <= q < |p| - 1 ==> Edge(nodes, links, p[q], p[q + 1])
  }

  /** No node occurs twice in `p`; for a path: it closes no cycle. */
  ghost predicate Distinct(p: seq<NodeId>)
  {
    forall q1, q2 :: 0 <= q1 < q2 < |p| ==> p[q1] != p[q2]
  }

  /** Kinds and output lists agree: the parts of the graph the controller never edits. */
  ghost predicate SameShape(a: seq<Node>, b: seq<Node>)
  {
    |a| == |b| && forall n :: 0 <= n < |a| ==> a[n].kind == b[n].kind && a[n].outputs == b[n].outputs
  }

  ghost predicate SameInputs(a: seq<Node>, b: seq<Node>)
  {
    |a| == |b| && forall n :: 0 <= n < |a| ==> a[n].inputs == b[n].inputs
  }

  /** The `loop` flags of `after` are only ever cleared relative to `before`. */
  ghost predicate LoopOnlyCleared(before: seq<Node>, after: seq<Node>)
  {
    |before| == |after| && forall n :: 0 <= n < |after| && after[n].loop ==> before[n].loop
  }

  ghost predicate NoneVisited(nodes: seq<Node>)
  {
    forall n :: 0 <= n < |nodes| ==> !nodes[n].visited
  }

  ghost predicate SameDests(a: seq<Link>, b: seq<Link>)
  {
    |a| == |b| && forall l :: 0 <= l < |a| ==> a[l].dests == b[l].dests
  }

  ghost predicate SameValidity(a: seq<Link>, b: seq<Link>)
  {
    |a| == |b| && forall l :: 0 <= l < |a| ==> a[l].valid == b[l].valid
  }

  /** The proof that the loop breaker is sound: a node whose `loop` flag is
      cleared has only cleared successors, each carrying a smaller `rank`
      (the ghost time at which its flag was cleared).  All ranks are below `stamp`. */
  ghost predicate LoopFreeRanked(nodes: seq<Node>, links: seq<Link>, rank: seq<nat>, stamp: nat)
  {
    && |rank| == |nodes|
    && (forall a :: 0 <= a < |nodes| && !nodes[a].loop ==> rank[a] < stamp)
    && (forall a, l, b :: 0 <= a < |nodes| && !nodes[a].loop && l in nodes[a].outputs && l < |links| && b in links[l].dests ==>
          b < |nodes| && !nodes[b].loop && rank[b] < rank[a])
  }

  // ---------------------------------------------------------------------------
  // Sequence edits used by the loop breaker (java.util.List.remove)

  /** `List.remove(int index)`. */
  function RemoveAt<T>(s: seq<T>, p: nat): (r: seq<T>)
    requires p < |s|
    ensures |r| == |s| - 1
    ensures multiset(r) == multiset(s) - multiset{s[p]}
    ensures forall x :: x in r ==> x in s
  {
    assert s == s[..p] + [s[p]] + s[p + 1..];
    s[..p] + s[p + 1..]
  }

  /** `List.remove(Object o)`: drops the first occurrence of `x`, if there is one. */
  function RemoveFirst<T(==)>(s: seq<T>, x: T): (r: seq<T>)
    ensures x in s ==> |r| == |s| - 1 && multiset(r) == multiset(s) - multiset{x}
    ensures x !in s ==> r == s
    ensures forall y :: y in r ==> y in s
  {
    if s == [] then []
    else
      assert s == [s[0]] + s[1..];
      if s[0] == x then s[1..] else [s[0]] + RemoveFirst(s[1..], x)
  }

  /** The destinations recorded as severed from link `l` (`removed.get(l)`, or none). */
  function Recorded(removed: map<LinkId, seq<NodeId>>, l: LinkId): seq<NodeId>
  {
    if l in removed then removed[l] else []
  }

  /** Severing the edge from link `l` to its destination at position `p`: the
      destination leaves `l.dests`, `l` leaves that destination's inputs (first
      occurrence), and the destination is appended to `removed[l]`. */
  ghost predicate Severed(nodes0: seq<Node>, links0: seq<Link>, removed0: map<LinkId, seq<NodeId>>,
                          nodes: seq<Node>, links: seq<Link>, removed: map<LinkId, seq<NodeId>>,
                          l: LinkId, p: nat)
  {
    && l < |links0| && p < |links0[l].dests|
    && links == links0[l := links0[l].(dests := RemoveAt(links0[l].dests, p))]
    && removed == removed0[l := Recorded(removed0, l) + [links0[l].dests[p]]]
    && |nodes| == |nodes0|
    && forall n :: 0 <= n < |nodes| ==>
         nodes[n].inputs == if n == links0[l].dests[p] then RemoveFirst(nodes0[n].inputs, l) else nodes0[n].inputs
  }

  /** Every record names an existing link and existing nodes. */
  ghost predicate RecordsInRange(removed: map<LinkId, seq<NodeId>>, nodeCount: nat, linkCount: nat)
  {
    forall l :: l in removed ==> l < linkCount && forall q :: 0 <= q < |removed[l]| ==> removed[l][q] < nodeCount
  }

  /** Every edge of `links0` and every record of `removed0` is, per link,
      either still an edge of `links` or recorded in `removed`. */
  ghost predicate Accounted(links0: seq<Link>, removed0: map<LinkId, seq<NodeId>>, links: seq<Link>, removed: map<LinkId, seq<NodeId>>)
  {
    |links| == |links0| && forall k :: 0 <= k < |links| ==>
      multiset(links[k].dests) + multiset(Recorded(removed, k)) == multiset(links0[k].dests) + multiset(Recorded(removed0, k))
  }

  /** What the loop breaker may do between two states: clear `loop` flags
      and move edges from links to their records, nothing else. */
  ghost predicate Broken(nodes0: seq<Node>, links0: seq<Link>, removed0: map<LinkId, seq<NodeId>>,
                         nodes: seq<Node>, links: seq<Link>, removed: map<LinkId, seq<NodeId>>)
  {
    && SameShape(nodes0, nodes) && LoopOnlyCleared(nodes0, nodes) && SameValidity(links0, links)
    && Accounted(links0, removed0, links, removed)
    && (Consistent(nodes0, links0) ==> Consistent(nodes, links))
  }

  lemma BrokenChains(nodes0: seq<Node>, links0: seq<Link>, removed0: map<LinkId, seq<NodeId>>,
                     nodes1: seq<Node>, links1: seq<Link>, removed1: map<LinkId, seq<NodeId>>,
                     nodes: seq<Node>, links: seq<Link>, removed: map<LinkId, seq<NodeId>>)
    requires Broken(nodes0, links0, removed0, nodes1, links1, removed1)
    requires Broken(nodes1, links1, removed1, nodes, links, removed)
    ensures Broken(nodes0, links0, removed0, nodes, links, removed)
  {
  }

  lemma WellFormedSameDests(nodes: seq<Node>, links: seq<Link>, links2: seq<Link>)
    requires WellFormed(nodes, links) && SameDests(links, links2)
    ensures WellFormed(nodes, links2)
  {
    forall l, d | 0 <= l < |links2| && d in links2[l].dests ensures d < |nodes| {
      assert links[l].dests == links2[l].dests;
    }
  }

  /** `k` copies of link `l`: what `k` calls of `addInput(l)` append to a node's inputs. */
  function Copies(l: LinkId, k: nat): (r: seq<LinkId>)
    ensures |r| == k && forall q :: 0 <= q < k ==> r[q] == l
  {
    if k == 0 then [] else Copies(l, k - 1) + [l]
  }

  lemma {:induction false} CopiesCount(l: LinkId, k: nat, l': LinkId)
    ensures multiset(Copies(l, k))[l'] == if l' == l then k else 0
  {
    if k > 0 {
      CopiesCount(l, k - 1, l');
    }
  }

  lemma InputCountStep(ins0: seq<LinkId>, ins1: seq<LinkId>, ins: seq<LinkId>, link: LinkId, c: nat, l: LinkId, before: nat)
    requires ins == ins1 + Copies(link, c) && multiset(ins1)[l] == multiset(ins0)[l] + before
    ensures multiset(ins)[l] == multiset(ins0)[l] + before + if l == link then c else 0
  {
    CopiesCount(link, c, l);
  }

  /** `addInput(link)` has run for each of `records` in turn, starting from
      `nodes0`/`links0`: `link` got them back as destinations, each node
      one input per occurrence. */
  ghost predicate RestoredLink(nodes0: seq<Node>, links0: seq<Link>, nodes: seq<Node>, links: seq<Link>, link: LinkId, records: seq<NodeId>)
  {
    && link < |links0| && links == links0[link := links0[link].(dests := links0[link].dests + records)]
    && |nodes| == |nodes0|
    && forall n :: 0 <= n < |nodes| ==> nodes[n] == nodes0[n].(inputs := nodes0[n].inputs + Copies(link, multiset(records)[n]))
  }

  lemma RestoredLinkStarts(nodes: seq<Node>, links: seq<Link>, link: LinkId)
    requires link < |links|
    ensures RestoredLink(nodes, links, nodes, links, link, [])
  {
    assert links[link].dests + [] == links[link].dests;
    assert links[link := links[link].(dests := links[link].dests + [])] == links;
    forall n | 0 <= n < |nodes| ensures nodes[n] == nodes[n].(inputs := nodes[n].inputs + Copies(link, multiset([])[n])) {
      assert nodes[n].inputs + [] == nodes[n].inputs;
    }
  }

  lemma RestoredLinkStep(nodes0: seq<Node>, links0: seq<Link>, nodes: seq<Node>, links: seq<Link>, link: LinkId, records: seq<NodeId>, x: NodeId)
    requires RestoredLink(nodes0, links0, nodes, links, link, records) && x < |nodes|
    ensures RestoredLink(nodes0, links0, nodes[x := nodes[x].(inputs := nodes[x].inputs + [link])],
                         links[link := links[link].(dests := links[link].dests + [x])], link, records + [x])
  {
    var d0 := links0[link].dests;
    assert links[link].dests + [x] == d0 + (records + [x]);
    var nodes2 := nodes[x := nodes[x].(inputs := nodes[x].inputs + [link])];
    assert multiset(records + [x]) == multiset(records) + multiset{x};
    forall n | 0 <= n < |nodes2|
      ensures nodes2[n] == nodes0[n].(inputs := nodes0[n].inputs + Copies(link, multiset(records + [x])[n]))
    {
      if n == x {
        var c := multiset(records)[n];
        assert Copies(link, c + 1) == Copies(link, c) + [link];
        assert nodes2[n].inputs == nodes0[n].inputs + Copies(link, c) + [link];
      }
    }
  }

  /** `addLoop` has restored every link of `done`: their records are back at
      the end of their destinations, and every node has one more input per
      record naming it; nothing else changed. */
  ghost predicate RestoredLinks(nodes0: seq<Node>, links0: seq<Link>, removed: map<LinkId, seq<NodeId>>, done: set<LinkId>,
                                nodes: seq<Node>, links: seq<Link>)
  {
    && |links| == |links0| && |nodes| == |nodes0|
    && (forall k :: 0 <= k < |links| ==>
          links[k] == links0[k].(dests := links0[k].dests + if k in done then Recorded(removed, k) else []))
    && (forall n :: 0 <= n < |nodes| ==> nodes[n] == nodes0[n].(inputs := nodes[n].inputs))
    && (forall n, l :: 0 <= n < |nodes| ==>
          multiset(nodes[n].inputs)[l] == multiset(nodes0[n].inputs)[l] + if l in done then multiset(Recorded(removed, l))[n] else 0)
  }

  lemma RestoredLinksStarts(nodes: seq<Node>, links: seq<Link>, removed: map<LinkId, seq<NodeId>>)
    ensures RestoredLinks(nodes, links, removed, {}, nodes, links)
  {
    forall k | 0 <= k < |links| ensures links[k] == links[k].(dests := links[k].dests + []) {
      assert links[k].dests + [] == links[k].dests;
    }
  }

  lemma RestoredLinksStep(nodes0: seq<Node>, links0: seq<Link>, removed: map<LinkId, seq<NodeId>>, done: set<LinkId>,
                          nodes1: seq<Node>, links1: seq<Link>, nodes: seq<Node>, links: seq<Link>, link: LinkId)
    requires RestoredLinks(nodes0, links0, removed, done, nodes1, links1) && link in removed && link !in done
    requires RestoredLink(nodes1, links1, nodes, links, link, removed[link])
    ensures RestoredLinks(nodes0, links0, removed, done + {link}, nodes, links)
  {
    RestoredDests(nodes0, links0, removed, done, nodes1, links1, nodes, links, link);
    RestoredInputs(nodes0, links0, removed, done, nodes1, links1, nodes, links, link);
    RestoredRest(nodes0, links0, removed, done, nodes1, links1, nodes, links, link);
  }

  lemma RestoredDests(nodes0: seq<Node>, links0: seq<Link>, removed: map<LinkId, seq<NodeId>>, done: set<LinkId>,
                      nodes1: seq<Node>, links1: seq<Link>, nodes: seq<Node>, links: seq<Link>, link: LinkId)
    requires RestoredLinks(nodes0, links0, removed, done, nodes1, links1) && link in removed && link !in done
    requires RestoredLink(nodes1, links1, nodes, links, link, removed[link])
    ensures forall k :: 0 <= k < |links| ==>
      links[k] == links0[k].(dests := links0[k].dests + if k in done + {link} then Recorded(removed, k) else [])
  {
    assert links1[link].dests == links0[link].dests + [];
    assert links0[link].dests + [] == links0[link].dests;
  }

  lemma RestoredInputs(nodes0: seq<Node>, links0: seq<Link>, removed: map<LinkId, seq<NodeId>>, done: set<LinkId>,
                       nodes1: seq<Node>, links1: seq<Link>, nodes: seq<Node>, links: seq<Link>, link: LinkId)
    requires RestoredLinks(nodes0, links0, removed, done, nodes1, links1) && link in removed && link !in done
    requires RestoredLink(nodes1, links1, nodes, links, link, removed[link])
    ensures forall n, l :: 0 <= n < |nodes| ==>
      multiset(nodes[n].inputs)[l] == multiset(nodes0[n].inputs)[l] + if l in done + {link} then multiset(Recorded(removed, l))[n] else 0
  {
    forall n, l | 0 <= n < |nodes|
      ensures multiset(nodes[n].inputs)[l] == multiset(nodes0[n].inputs)[l] + if l in done + {link} then multiset(Recorded(removed, l))[n] else 0
    {
      var c := multiset(removed[link])[n];
      var before := if l in done then multiset(Recorded(removed, l))[n] else 0;
      assert multiset(nodes1[n].inputs)[l] == multiset(nodes0[n].inputs)[l] + before;
      assert nodes[n].inputs == nodes1[n].inputs + Copies(link, c);
      InputCountStep(nodes0[n].inputs, nodes1[n].inputs, nodes[n].inputs, link, c, l, before);
      if l == link {
        assert Recorded(removed, l) == removed[link];
      }
    }
  }

  lemma RestoredRest(nodes0: seq<Node>, links0: seq<Link>, removed: map<LinkId, seq<NodeId>>, done: set<LinkId>,
                     nodes1: seq<Node>, links1: seq<Link>, nodes: seq<Node>, links: seq<Link>, link: LinkId)
    requires RestoredLinks(nodes0, links0, removed, done, nodes1, links1) && link in removed && link !in done
    requires RestoredLink(nodes1, links1, nodes, links, link, removed[link])
    ensures |links| == |links0| && |nodes| == |nodes0|
    ensures forall n :: 0 <= n < |nodes| ==> nodes[n] == nodes0[n].(inputs := nodes[n].inputs)
  {
    forall n | 0 <= n < |nodes| ensures nodes[n] == nodes0[n].(inputs := nodes[n].inputs) {
      assert nodes1[n] == nodes0[n].(inputs := nodes1[n].inputs);
    }
  }

  /** Every record of `removed` is back: at the end of its link's
      destinations, and as one more input of its node; nothing else of the
      nodes changed. */
  ghost predicate Restored(nodes0: seq<Node>, links0: seq<Link>, removed: map<LinkId, seq<NodeId>>, nodes: seq<Node>, links: seq<Link>)
  {
    && |links| == |links0| && (forall k :: 0 <= k < |links| ==> links[k].dests == links0[k].dests + Recorded(removed, k))
    && |nodes| == |nodes0| && (forall n :: 0 <= n < |nodes| ==> nodes[n] == nodes0[n].(inputs := nodes[n].inputs))
    && (forall n, l :: 0 <= n < |nodes| ==>
          multiset(nodes[n].inputs)[l] == multiset(nodes0[n].inputs)[l] + multiset(Recorded(removed, l))[n])
  }

  /** Restoring every recorded link gives `Restored`, relative to any graph
      with the same destinations, and keeps every validity flag. */
  lemma RestoredLinksRestored(nodes0: seq<Node>, linksA: seq<Link>, linksB: seq<Link>, removed: map<LinkId, seq<NodeId>>,
                              nodes: seq<Node>, links: seq<Link>)
    requires SameDests(linksA, linksB) && RestoredLinks(nodes0, linksB, removed, removed.Keys, nodes, links)
    ensures Restored(nodes0, linksA, removed, nodes, links) && SameValidity(linksB, links)
  {
    forall k | 0 <= k < |links| ensures links[k].dests == linksA[k].dests + Recorded(removed, k) && links[k].valid == linksB[k].valid {
      assert links[k] == linksB[k].(dests := linksB[k].dests + if k in removed.Keys then Recorded(removed, k) else []);
    }
    forall n, l | 0 <= n < |nodes|
      ensures multiset(nodes[n].inputs)[l] == multiset(nodes0[n].inputs)[l] + multiset(Recorded(removed, l))[n]
    {
      assert multiset(nodes[n].inputs)[l] == multiset(nodes0[n].inputs)[l] + if l in removed.Keys then multiset(Recorded(removed, l))[n] else 0;
    }
  }

  /** Restoring recorded links keeps a well-formed graph well-formed and
      leaves every `visited` flag as it was. */
  lemma RestoredLinksKeepValid(nodes0: seq<Node>, links0: seq<Link>, removed: map<LinkId, seq<NodeId>>, done: set<LinkId>,
                               nodes: seq<Node>, links: seq<Link>)
    requires WellFormed(nodes0, links0) && RecordsInRange(removed, |nodes0|, |links0|) && done <= removed.Keys
    requires RestoredLinks(nodes0, links0, removed, done, nodes, links)
    ensures WellFormed(nodes, links)
    ensures forall n :: 0 <= n < |nodes| ==> nodes[n].visited == nodes0[n].visited && nodes[n].outputs == nodes0[n].outputs
  {
    forall n, l | 0 <= n < |nodes| && l in nodes[n].inputs ensures l < |links| {
      assert multiset(nodes[n].inputs)[l] > 0;
      if l !in done {
        assert l in nodes0[n].inputs;
      }
    }
    forall n | 0 <= n < |nodes| ensures nodes[n].visited == nodes0[n].visited && nodes[n].outputs == nodes0[n].outputs {
      assert nodes[n] == nodes0[n].(inputs := nodes[n].inputs);
    }
    forall l, d | 0 <= l < |links| && d in links[l].dests ensures d < |nodes| {
      assert links[l].dests == links0[l].dests + if l in done then Recorded(removed, l) else [];
    }
  }

  lemma Associative<T>(a: seq<T>, b: seq<T>, c: seq<T>)
    ensures a + (b + c) == (a + b) + c
  {
  }

  /** Taking one more element of `s` extends `seen + s[..e]` by that element. */
  lemma PrefixGrows<T>(seen: seq<T>, s: seq<T>, e: nat)
    requires e < |s|
    ensures seen + s[..e + 1] == (seen + s[..e]) + [s[e]]
  {
    assert s[..e + 1] == s[..e] + [s[e]];
    Associative(seen, s[..e], [s[e]]);
  }

  /** Number of (link, destination) edges in the graph. */
  function EdgeCount(links: seq<Link>): nat
  {
    if links == [] then 0 else EdgeCount(links[..|links| - 1]) + |links[|links| - 1].dests|
  }

  // ---------------------------------------------------------------------------
  // Lemmas

  /** Severing one edge removes exactly one edge from the graph. */
  lemma {:induction false} SeverCountsDown(links: seq<Link>, l: nat, v: Link)
    requires l < |links| && |v.dests| + 1 == |links[l].dests|
    ensures EdgeCount(links[l := v]) + 1 == EdgeCount(links)
  {
    var n := |links| - 1;
    var w := links[l := v];
    assert w[..n] == (if l < n then links[..n][l := v] else links[..n]);
    if l < n {
      SeverCountsDown(links[..n], l, v);
    }
  }

  /** Edge accounting: severing moves one destination from the link to its record. */
  lemma SeverKeepsAccount(nodes0: seq<Node>, links0: seq<Link>, removed0: map<LinkId, seq<NodeId>>,
                          nodes: seq<Node>, links: seq<Link>, removed: map<LinkId, seq<NodeId>>,
                          l: LinkId, p: nat)
    requires Severed(nodes0, links0, removed0, nodes, links, removed, l, p)
    ensures |links| == |links0|
    ensures forall k :: 0 <= k < |links| ==>
      multiset(links[k].dests) + multiset(Recorded(removed, k)) == multiset(links0[k].dests) + multiset(Recorded(removed0, k))
  {
    forall k | 0 <= k < |links|
      ensures multiset(links[k].dests) + multiset(Recorded(removed, k)) == multiset(links0[k].dests) + multiset(Recorded(removed0, k))
    {
      if k == l {
        var d := links0[l].dests[p];
        assert multiset(Recorded(removed, k)) == multiset(Recorded(removed0, k)) + multiset{d};
        assert multiset{d} <= multiset(links0[k].dests);
      }
    }
  }

  /** Severing an edge of a well-formed graph records existing nodes only. */
  lemma SeverKeepsRecordsInRange(nodes0: seq<Node>, links0: seq<Link>, removed0: map<LinkId, seq<NodeId>>,
                                 nodes: seq<Node>, links: seq<Link>, removed: map<LinkId, seq<NodeId>>,
                                 l: LinkId, p: nat)
    requires Severed(nodes0, links0, removed0, nodes, links, removed, l, p)
    requires WellFormed(nodes0, links0) && RecordsInRange(removed0, |nodes0|, |links0|)
    ensures RecordsInRange(removed, |nodes|, |links|)
  {
    assert links0[l].dests[p] in links0[l].dests;
  }

  /** Severing an edge keeps destinations and inputs matched. */
  lemma SeverKeepsConsistent(nodes0: seq<Node>, links0: seq<Link>, removed0: map<LinkId, seq<NodeId>>,
                             nodes: seq<Node>, links: seq<Link>, removed: map<LinkId, seq<NodeId>>,
                             l: LinkId, p: nat)
    requires Severed(nodes0, links0, removed0, nodes, links, removed, l, p)
    requires Consistent(nodes0, links0)
    ensures Consistent(nodes, links)
  {
    var d := links0[l].dests[p];
    forall k, n | 0 <= k < |links| && 0 <= n < |nodes|
      ensures multiset(links[k].dests)[n] == multiset(nodes[n].inputs)[k]
    {
      assert multiset(links0[k].dests)[n] == multiset(nodes0[n].inputs)[k];
      assert multiset(links[k].dests) == if k == l then multiset(links0[k].dests) - multiset{d} else multiset(links0[k].dests);
      assert d in links0[l].dests;
      CutKeepsCount(links0[k].dests, nodes0[n].inputs, links[k].dests, nodes[n].inputs, k, n, l, d);
    }
  }

  /** One (link, node) count through a cut of the edge from `l` to `d`. */
  lemma CutKeepsCount(dests0: seq<NodeId>, inputs0: seq<LinkId>, dests: seq<NodeId>, inputs: seq<LinkId>,
                      k: LinkId, n: NodeId, l: LinkId, d: NodeId)
    requires multiset(dests0)[n] == multiset(inputs0)[k]
    requires multiset(dests) == if k == l then multiset(dests0) - multiset{d} else multiset(dests0)
    requires k == l ==> d in dests0
    requires inputs == if n == d then RemoveFirst(inputs0, l) else inputs0
    ensures multiset(dests)[n] == multiset(inputs)[k]
  {
    if n == d {
      if l in inputs0 {
        assert multiset(inputs) == multiset(inputs0) - multiset{l};
      }
      if k == l {
        assert multiset(dests0)[d] > 0;
        assert multiset(dests)[n] == multiset(dests0)[n] - 1;
        assert multiset(inputs)[k] == multiset(inputs0)[k] - 1;
      } else {
        assert multiset(inputs)[k] == multiset(inputs0)[k];
      }
    } else if k == l {
      assert multiset(dests)[n] == multiset(dests0)[n];
    }
  }

  /** What one cut does to the whole graph: one edge fewer, every edge
      accounted for, and matched inputs stay matched. */
  lemma SeverSummary(nodes0: seq<Node>, links0: seq<Link>, removed0: map<LinkId, seq<NodeId>>,
                     nodes: seq<Node>, links: seq<Link>, removed: map<LinkId, seq<NodeId>>,
                     l: LinkId, p: nat)
    requires Severed(nodes0, links0, removed0, nodes, links, removed, l, p)
    requires SameShape(nodes0, nodes) && LoopOnlyCleared(nodes0, nodes) && SameValidity(links0, links)
    ensures EdgeCount(links) + 1 == EdgeCount(links0)
    ensures Broken(nodes0, links0, removed0, nodes, links, removed)
  {
    SeverCountsDown(links0, l, links[l]);
    SeverKeepsAccount(nodes0, links0, removed0, nodes, links, removed, l, p);
    if Consistent(nodes0, links0) {
      SeverKeepsConsistent(nodes0, links0, removed0, nodes, links, removed, l, p);
    }
  }

  /** Along a path that starts at a cleared node, every node is cleared and
      the ranks strictly decrease. */
  lemma {:induction false} RankedPathDescends(nodes: seq<Node>, links: seq<Link>, rank: seq<nat>, stamp: nat, p: seq<NodeId>)
    requires LoopFreeRanked(nodes, links, rank, stamp)
    requires IsPath(nodes, links, p) && |p| > 0 && p[0] < |nodes| && !nodes[p[0]].loop
    ensures forall q :: 0 <= q < |p| ==> p[q] < |nodes| && !nodes[p[q]].loop && rank[p[q]] + q <= rank[p[0]]
  {
    if |p| > 1 {
      var p' := p[..|p| - 1];
      assert IsPath(nodes, links, p') by {
        forall q | 0 <= q < |p'| - 1 ensures Edge(nodes, links, p'[q], p'[q + 1]) {
          assert p'[q] == p[q] && p'[q + 1] == p[q + 1];
        }
      }
      RankedPathDescends(nodes, links, rank, stamp, p');
      var a, b := p[|p| - 2], p[|p| - 1];
      assert Edge(nodes, links, a, b);
      assert p'[|p'| - 1] == a;
      var l :| l in nodes[a].outputs && l < |links| && b in links[l].dests;
      assert !nodes[a].loop && rank[a] + (|p| - 2) <= rank[p[0]];
      assert b < |nodes| && !nodes[b].loop && rank[b] < rank[a];
      forall q | 0 <= q < |p|
        ensures p[q] < |nodes| && !nodes[p[q]].loop && rank[p[q]] + q <= rank[p[0]]
      {
        if q < |p| - 1 {
          assert p[q] == p'[q];
        }
      }
    }
  }

  /** No cycle is reachable from a cleared node: every path out of it is
      simple, and no longer than `stamp` nodes. */
  lemma LoopFreePathsAreSimple(nodes: seq<Node>, links: seq<Link>, rank: seq<nat>, stamp: nat, p: seq<NodeId>)
    requires LoopFreeRanked(nodes, links, rank, stamp)
    requires IsPath(nodes, links, p) && |p| > 0 && p[0] < |nodes| && !nodes[p[0]].loop
    ensures Distinct(p)
    ensures |p| <= stamp
  {
    forall q1, q2 | 0 <= q1 < q2 < |p| ensures p[q1] != p[q2] {
      var s := p[q1..];
      assert IsPath(nodes, links, s) by {
        forall q | 0 <= q < |s| - 1 ensures Edge(nodes, links, s[q], s[q + 1]) {
          assert s[q] == p[q1 + q] && s[q + 1] == p[q1 + q + 1];
        }
      }
      RankedPathDescends(nodes, links, rank, stamp, p);
      RankedPathDescends(nodes, links, rank, stamp, s);
      assert s[q2 - q1] == p[q2];
    }
    RankedPathDescends(nodes, links, rank, stamp, p);
    assert rank[p[0]] < stamp;
    assert rank[p[|p| - 1]] + (|p| - 1) <= rank[p[0]];
  }

  // ---------------------------------------------------------------------------
  // Which edges the loop breaker may cut

  /** Every destination of `links` was already one in `links0`. */
  ghost predicate EdgesWithin(links0: seq<Link>, links: seq<Link>)
  {
    |links| == |links0| && forall k, d :: 0 <= k < |links| && d in links[k].dests ==> d in links0[k].dests
  }

  /** The edge from link `l` to `d` closes a cycle reachable from `level0`:
      some path from a node of `level0` ends at an owner of `l`, and `d` lies
      on that path. */
  ghost predicate ClosesCycle(nodes: seq<Node>, links: seq<Link>, level0: seq<NodeId>, l: LinkId, d: NodeId)
  {
    && l < |links| && d in links[l].dests
    && exists trail :: && IsPath(nodes, links, trail) && |trail| > 0 && trail[0] in level0
                       && trail[|trail| - 1] < |nodes| && l in nodes[trail[|trail| - 1]].outputs && d in trail
  }

  /** No cycle is reachable from `level0`: every path from one of its nodes is simple. */
  ghost predicate NoCycleFrom(nodes: seq<Node>, links: seq<Link>, level0: seq<NodeId>)
  {
    forall p :: IsPath(nodes, links, p) && |p| > 0 && p[0] in level0 ==> Distinct(p)
  }

  /** What the loop breaker did to the records, from the graph `nodes0`,
      `links0`, `removed0` it started on: the old records are kept, each new
      record names an edge that closes a cycle of the starting graph
      reachable from `level0`, the links only lost destinations, and while no
      record was added the links and the inputs are untouched. */
  ghost predicate CutsCloseCycles(nodes0: seq<Node>, links0: seq<Link>, removed0: map<LinkId, seq<NodeId>>, level0: seq<NodeId>,
                                  nodes: seq<Node>, links: seq<Link>, removed: map<LinkId, seq<NodeId>>)
  {
    && EdgesWithin(links0, links)
    && RecordsCloseCycles(nodes0, links0, removed0, level0, removed)
    && (removed == removed0 ==> links == links0 && SameInputs(nodes0, nodes))
  }

  /** `removed` extends every record of `removed0`, adds no empty record,
      and each record it adds closes a cycle of `nodes0`/`links0` reachable
      from `level0`. */
  ghost predicate RecordsCloseCycles(nodes0: seq<Node>, links0: seq<Link>, removed0: map<LinkId, seq<NodeId>>, level0: seq<NodeId>,
                                     removed: map<LinkId, seq<NodeId>>)
  {
    && (forall k :: k in removed0 ==> k in removed && |removed0[k]| <= |removed[k]| && removed[k][..|removed0[k]|] == removed0[k])
    && (forall k :: k in removed && k !in removed0 ==> removed[k] != [])
    && (forall k, q :: k in removed && |Recorded(removed0, k)| <= q < |removed[k]| ==> ClosesCycle(nodes0, links0, level0, k, removed[k][q]))
  }

  /** Cutting one destination keeps the links within the original ones. */
  lemma CutEdgesWithin(links0: seq<Link>, links1: seq<Link>, links: seq<Link>, l: LinkId, p: nat)
    requires EdgesWithin(links0, links1) && l < |links1| && p < |links1[l].dests|
    requires links == links1[l := links1[l].(dests := RemoveAt(links1[l].dests, p))]
    ensures EdgesWithin(links0, links)
  {
    forall k, x | 0 <= k < |links| && x in links[k].dests ensures x in links0[k].dests {
      assert x in links1[k].dests;
    }
  }

  /** An edge that closes a cycle of a graph that only lost edges closes a
      cycle of the original graph. */
  lemma ClosesCycleWithin(nodes0: seq<Node>, links0: seq<Link>, nodes1: seq<Node>, links1: seq<Link>, level0: seq<NodeId>,
                          l: LinkId, d: NodeId, trail: seq<NodeId>)
    requires SameShape(nodes0, nodes1) && EdgesWithin(links0, links1)
    requires IsPath(nodes1, links1, trail) && |trail| > 0 && trail[0] in level0 && trail[|trail| - 1] < |nodes1|
    requires l in nodes1[trail[|trail| - 1]].outputs && l < |links1| && d in links1[l].dests && d in trail
    ensures ClosesCycle(nodes0, links0, level0, l, d)
  {
    PathWithin(nodes0, links0, nodes1, links1, trail);
    assert nodes0[trail[|trail| - 1]].outputs == nodes1[trail[|trail| - 1]].outputs;
  }

  /** Appending one cycle-closing destination to a record keeps the records
      cycle-closing, and makes them differ from `removed0`. */
  lemma RecordsGrow(nodes0: seq<Node>, links0: seq<Link>, removed0: map<LinkId, seq<NodeId>>, level0: seq<NodeId>,
                    removed1: map<LinkId, seq<NodeId>>, removed: map<LinkId, seq<NodeId>>, l: LinkId, d: NodeId)
    requires RecordsCloseCycles(nodes0, links0, removed0, level0, removed1)
    requires removed == removed1[l := Recorded(removed1, l) + [d]] && ClosesCycle(nodes0, links0, level0, l, d)
    ensures RecordsCloseCycles(nodes0, links0, removed0, level0, removed) && removed != removed0
  {
    AppendKeepsPrefixes(removed0, removed1, removed, l, d);
    AppendClosesCycles(nodes0, links0, removed0, level0, removed1, removed, l, d);
    if l in removed0 {
      assert |removed[l]| > |removed0[l]|;
    }
  }

  /** Appending to a record keeps every record of `removed0` a prefix. */
  lemma AppendKeepsPrefixes(removed0: map<LinkId, seq<NodeId>>, removed1: map<LinkId, seq<NodeId>>, removed: map<LinkId, seq<NodeId>>,
                            l: LinkId, d: NodeId)
    requires forall k :: k in removed0 ==> k in removed1 && |removed0[k]| <= |removed1[k]| && removed1[k][..|removed0[k]|] == removed0[k]
    requires removed == removed1[l := Recorded(removed1, l) + [d]]
    ensures forall k :: k in removed0 ==> k in removed && |removed0[k]| <= |removed[k]| && removed[k][..|removed0[k]|] == removed0[k]
  {
    forall k | k in removed0 ensures k in removed && |removed0[k]| <= |removed[k]| && removed[k][..|removed0[k]|] == removed0[k] {
      if k == l {
        assert removed[k][..|removed0[k]|] == removed1[k][..|removed0[k]|];
      }
    }
  }

  /** Appending a cycle-closing destination keeps every added entry cycle-closing. */
  lemma AppendClosesCycles(nodes0: seq<Node>, links0: seq<Link>, removed0: map<LinkId, seq<NodeId>>, level0: seq<NodeId>,
                           removed1: map<LinkId, seq<NodeId>>, removed: map<LinkId, seq<NodeId>>, l: LinkId, d: NodeId)
    requires forall k, q :: k in removed1 && |Recorded(removed0, k)| <= q < |removed1[k]| ==> ClosesCycle(nodes0, links0, level0, k, removed1[k][q])
    requires removed == removed1[l := Recorded(removed1, l) + [d]] && ClosesCycle(nodes0, links0, level0, l, d)
    ensures forall k, q :: k in removed && |Recorded(removed0, k)| <= q < |removed[k]| ==> ClosesCycle(nodes0, links0, level0, k, removed[k][q])
  {
    forall k, q | k in removed && |Recorded(removed0, k)| <= q < |removed[k]|
      ensures ClosesCycle(nodes0, links0, level0, k, removed[k][q])
    {
      if k == l && q < |Recorded(removed1, k)| {
        assert removed[k][q] == removed1[k][q];
      }
    }
  }

  /** Before any cut, the records trivially close cycles. */
  lemma CutsCloseCyclesStarts(nodes: seq<Node>, links: seq<Link>, removed: map<LinkId, seq<NodeId>>, level0: seq<NodeId>)
    ensures CutsCloseCycles(nodes, links, removed, level0, nodes, links, removed)
  {
    forall k | k in removed ensures removed[k][..|removed[k]|] == removed[k] {
    }
  }

  /** A path of a graph that only lost destinations is a path of the original. */
  lemma PathWithin(nodes0: seq<Node>, links0: seq<Link>, nodes: seq<Node>, links: seq<Link>, p: seq<NodeId>)
    requires SameShape(nodes0, nodes) && EdgesWithin(links0, links) && IsPath(nodes, links, p)
    ensures IsPath(nodes0, links0, p)
  {
    forall q | 0 <= q < |p| - 1 ensures Edge(nodes0, links0, p[q], p[q + 1]) {
      assert Edge(nodes, links, p[q], p[q + 1]);
      var l :| l in nodes[p[q]].outputs && l < |links| && p[q + 1] in links[l].dests;
      assert nodes0[p[q]].outputs == nodes[p[q]].outputs;
    }
  }

  /** An edge that closes a cycle yields a path from `level0` that is not simple. */
  lemma CycleGivesRepeat(nodes: seq<Node>, links: seq<Link>, level0: seq<NodeId>, l: LinkId, d: NodeId)
    requires ClosesCycle(nodes, links, level0, l, d)
    ensures !NoCycleFrom(nodes, links, level0)
  {
    var trail :| && IsPath(nodes, links, trail) && |trail| > 0 && trail[0] in level0
                 && trail[|trail| - 1] < |nodes| && l in nodes[trail[|trail| - 1]].outputs && d in trail;
    var p := trail + [d];
    assert IsPath(nodes, links, p) by {
      forall q | 0 <= q < |p| - 1 ensures Edge(nodes, links, p[q], p[q + 1]) {
        if q < |trail| - 1 {
          assert p[q] == trail[q] && p[q + 1] == trail[q + 1];
          assert Edge(nodes, links, trail[q], trail[q + 1]);
        } else {
          assert p[q] == trail[|trail| - 1] && p[q + 1] == d;
        }
      }
    }
    var i :| 0 <= i < |trail| && trail[i] == d;
    assert p[i] == p[|trail|];
    assert !Distinct(p);
    assert p[0] in level0;
  }

  /** Records that only add cycle-closing destinations add nothing when
      no cycle is reachable from `level0`. */
  lemma NoCycleKeepsRecords(nodes0: seq<Node>, links0: seq<Link>, removed0: map<LinkId, seq<NodeId>>, level0: seq<NodeId>,
                            removed: map<LinkId, seq<NodeId>>)
    requires NoCycleFrom(nodes0, links0, level0)
    requires RecordsCloseCycles(nodes0, links0, removed0, level0, removed)
    ensures removed == removed0
  {
    forall k | k in removed ensures |removed[k]| <= |Recorded(removed0, k)| {
      if |removed[k]| > |Recorded(removed0, k)| {
        CycleGivesRepeat(nodes0, links0, level0, k, removed[k][|Recorded(removed0, k)|]);
      }
    }
    KeptRecords(removed0, removed);
  }

  /** Records that extend those of `removed0` and are no longer are the same. */
  lemma KeptRecords(removed0: map<LinkId, seq<NodeId>>, removed: map<LinkId, seq<NodeId>>)
    requires forall k :: k in removed0 ==> k in removed && |removed0[k]| <= |removed[k]| && removed[k][..|removed0[k]|] == removed0[k]
    requires forall k :: k in removed && k !in removed0 ==> removed[k] != []
    requires forall k :: k in removed ==> |removed[k]| <= |Recorded(removed0, k)|
    ensures removed == removed0
  {
    forall k | k in removed0 ensures removed[k] == removed0[k] {
      assert removed[k][..|removed0[k]|] == removed[k];
    }
    assert removed.Keys == removed0.Keys;
  }

  /** On a graph with no cycle reachable from `level0`, the loop breaker
      cut nothing: the records, the links and the inputs are as they were. */
  lemma NoCycleNoCut(nodes0: seq<Node>, links0: seq<Link>, removed0: map<LinkId, seq<NodeId>>, level0: seq<NodeId>,
                     nodes: seq<Node>, links: seq<Link>, removed: map<LinkId, seq<NodeId>>)
    requires NoCycleFrom(nodes0, links0, level0)
    requires CutsCloseCycles(nodes0, links0, removed0, level0, nodes, links, removed)
    ensures removed == removed0 && links == links0 && SameInputs(nodes0, nodes)
  {
    NoCycleKeepsRecords(nodes0, links0, removed0, level0, removed);
  }
}
