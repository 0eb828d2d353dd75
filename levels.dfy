/** The level sets (`netList`) the controller builds, described as values.

    Level 0 holds the explicit inputs and clocks.  Processing level k visits
    every destination of every output link of every node of level k, in list
    order, and appends the ones it promotes to level k+1, skipping nodes that
    are already there.  Real mode promotes every destination; exact mode
    promotes a destination only when all of its input links are valid, after
    marking every output link of level k valid. */
module Levels {
  import opened Network

  /** Destinations of the links `ls`, link by link, in order. */
  function LinkDests(links: seq<Link>, ls: seq<LinkId>): seq<NodeId>
  {
    if ls == [] then [] else LinkDests(links, ls[..|ls| - 1]) + Dests(links, ls[|ls| - 1])
  }

  /** Destinations of all output links of node `n`, in order. */
  function NodeDests(nodes: seq<Node>, links: seq<Link>, n: NodeId): seq<NodeId>
  {
    if n < |nodes| then LinkDests(links, nodes[n].outputs) else []
  }

  /** Every destination reached from `level`, in the order the levelizers visit them. */
  function Successors(nodes: seq<Node>, links: seq<Link>, level: seq<NodeId>): seq<NodeId>
  {
    if level == [] then [] else Successors(nodes, links, level[..|level| - 1]) + NodeDests(nodes, links, level[|level| - 1])
  }

  /** Appends, in order, each element of `xs` not yet present. */
  function AppendNew(acc: seq<NodeId>, xs: seq<NodeId>): (r: seq<NodeId>)
    ensures forall x :: x in r <==> x in acc || x in xs
    ensures Distinct(acc) ==> Distinct(r)
    ensures |acc| <= |r| && r[..|acc|] == acc
  {
    if xs == [] then acc
    else
      var a := AppendNew(acc, xs[..|xs| - 1]);
      assert forall x :: x in xs <==> x in xs[..|xs| - 1] || x == xs[|xs| - 1] by {
        assert xs == xs[..|xs| - 1] + [xs[|xs| - 1]];
      }
      if xs[|xs| - 1] in a then a else a + [xs[|xs| - 1]]
  }

  /** The set of valid links. */
  ghost function ValidSet(links: seq<Link>): set<LinkId>
  {
    set l | 0 <= l < |links| && links[l].valid
  }

  /** Node `m` is ready: every one of its input links is in `valid`. */
  ghost predicate Ready(nodes: seq<Node>, valid: set<LinkId>, m: NodeId)
  {
    m < |nodes| && forall l :: l in nodes[m].inputs ==> l in valid
  }

  /** The ready elements of `xs`, in order. */
  ghost function ReadyOnly(nodes: seq<Node>, valid: set<LinkId>, xs: seq<NodeId>): (r: seq<NodeId>)
    ensures forall x :: x in r <==> x in xs && Ready(nodes, valid, x)
  {
    if xs == [] then []
    else
      var r := ReadyOnly(nodes, valid, xs[..|xs| - 1]);
      assert xs == xs[..|xs| - 1] + [xs[|xs| - 1]];
      if Ready(nodes, valid, xs[|xs| - 1]) then r + [xs[|xs| - 1]] else r
  }

  /** The output links of node `n`. */
  ghost function NodeOutputs(nodes: seq<Node>, n: NodeId): set<LinkId>
  {
    if n < |nodes| then set l | l in nodes[n].outputs else {}
  }

  /** The output links of the nodes of one level. */
  ghost function LevelOutputs(nodes: seq<Node>, level: seq<NodeId>): set<LinkId>
  {
    if level == [] then {} else LevelOutputs(nodes, level[..|level| - 1]) + NodeOutputs(nodes, level[|level| - 1])
  }

  /** The output links of the nodes of all the given levels. */
  ghost function OutputsOf(nodes: seq<Node>, levels: seq<seq<NodeId>>): set<LinkId>
  {
    if levels == [] then {} else OutputsOf(nodes, levels[..|levels| - 1]) + LevelOutputs(nodes, levels[|levels| - 1])
  }

  /** Level `k` of the level sets before levelization, or an empty level. */
  function OldLevel(nl0: seq<seq<NodeId>>, k: nat): seq<NodeId>
  {
    if k < |nl0| then nl0[k] else []
  }

  /** One promotion into level `level + 1` (source lines 195-201 and 219-225):
      create the level if it does not exist, then add `x` unless present. */
  function Step(nl: seq<seq<NodeId>>, level: nat, x: NodeId): seq<seq<NodeId>>
    requires level < |nl|
  {
    var nl1 := if |nl| < level + 2 then nl + [[]] else nl;
    if x in nl1[level + 1] then nl1 else nl1[level + 1 := nl1[level + 1] + [x]]
  }

  /** The level sets after the levelizer's inner loops visit the nodes `xs`
      in order: each one is promoted (`Step`) in real mode, and in exact
      mode when its input links are all in `valid`. */
  ghost function Visit(nodes: seq<Node>, valid: set<LinkId>, realMode: bool, nl: seq<seq<NodeId>>, level: nat, xs: seq<NodeId>): (r: seq<seq<NodeId>>)
    requires level < |nl|
    ensures |r| >= |nl|
  {
    if xs == [] then nl
    else
      var p := Visit(nodes, valid, realMode, nl, level, xs[..|xs| - 1]);
      var x := xs[|xs| - 1];
      if realMode || Ready(nodes, valid, x) then Step(p, level, x) else p
  }

  /** The level sets after promoting all of `promoted` into level `level + 1`. */
  function Grow(nl: seq<seq<NodeId>>, level: nat, promoted: seq<NodeId>): seq<seq<NodeId>>
    requires level < |nl|
  {
    if level + 1 < |nl| then nl[level + 1 := AppendNew(nl[level + 1], promoted)]
    else if promoted == [] then nl
    else nl + [AppendNew([], promoted)]
  }

  /** The nodes promoted while processing the last level of `done` (the
      levels up to and including the one being processed).  Exact mode sees
      the validity of `links` plus every output of `done`. */
  ghost function Promoted(nodes: seq<Node>, links: seq<Link>, done: seq<seq<NodeId>>, realMode: bool): seq<NodeId>
    requires |done| > 0
  {
    var succ := Successors(nodes, links, done[|done| - 1]);
    if realMode then succ else ReadyOnly(nodes, ValidSet(links) + OutputsOf(nodes, done), succ)
  }

  /** Level `k` of `nl` is the old level `k` extended with what level k-1 promotes. */
  ghost predicate LevelFollows(nodes: seq<Node>, links: seq<Link>, nl0: seq<seq<NodeId>>, nl: seq<seq<NodeId>>, k: nat, realMode: bool)
    requires 1 <= k < |nl|
  {
    nl[k] == AppendNew(OldLevel(nl0, k), Promoted(nodes, links, nl[..k], realMode))
  }

  /** `nl` is what the levelizer of the given mode makes of `nl0` on a graph
      whose destinations are those of `links` (and whose initial validity is
      that of `links`): each level k+1 extends the old one with the promoted
      nodes of level k-1, every new level is non-empty, and the last level
      promotes nothing. */
  ghost predicate Levelized(nodes: seq<Node>, links: seq<Link>, nl0: seq<seq<NodeId>>, nl: seq<seq<NodeId>>, realMode: bool)
  {
    && |nl0| >= 1 && |nl| >= |nl0| && nl[0] == nl0[0]
    && (forall k :: 1 <= k < |nl| ==> LevelFollows(nodes, links, nl0, nl, k, realMode))
    && (forall k :: |nl0| <= k < |nl| ==> nl[k] != [])
    && Promoted(nodes, links, nl, realMode) == []
  }

  /** The evaluation order: every level in turn, level 0 first. */
  function Flatten(nl: seq<seq<NodeId>>): seq<NodeId>
  {
    if nl == [] then [] else Flatten(nl[..|nl| - 1]) + nl[|nl| - 1]
  }

  // ---------------------------------------------------------------------------
  // Lemmas

  lemma {:induction false} LinkDestsMembership(links: seq<Link>, ls: seq<LinkId>, m: NodeId)
    ensures m in LinkDests(links, ls) <==> exists l :: l in ls && l < |links| && m in links[l].dests
  {
    if ls != [] {
      var init := ls[..|ls| - 1];
      LinkDestsMembership(links, init, m);
      assert ls == init + [ls[|ls| - 1]];
      if m in LinkDests(links, ls) {
        if m in LinkDests(links, init) {
          var l :| l in init && l < |links| && m in links[l].dests;
          assert l in ls;
        } else {
          assert ls[|ls| - 1] in ls;
        }
      }
      if exists l :: l in ls && l < |links| && m in links[l].dests {
        var l :| l in ls && l < |links| && m in links[l].dests;
        if l != ls[|ls| - 1] {
          assert l in init;
        }
      }
    }
  }

  lemma NodeDestsAreEdges(nodes: seq<Node>, links: seq<Link>, n: NodeId, m: NodeId)
    ensures m in NodeDests(nodes, links, n) <==> Edge(nodes, links, n, m)
  {
    if n < |nodes| {
      LinkDestsMembership(links, nodes[n].outputs, m);
    }
  }

  /** The levelizers visit exactly the successors of the level: `m` is among
      them if and only if some node of `level` has an edge to `m`. */
  lemma SuccessorsAreEdges(nodes: seq<Node>, links: seq<Link>, level: seq<NodeId>, m: NodeId)
    ensures m in Successors(nodes, links, level) <==> exists q :: 0 <= q < |level| && Edge(nodes, links, level[q], m)
  {
    if m in Successors(nodes, links, level) {
      SuccessorsHaveEdges(nodes, links, level, m);
    }
    if q :| 0 <= q < |level| && Edge(nodes, links, level[q], m) {
      EdgesGiveSuccessors(nodes, links, level, q, m);
    }
  }

  lemma {:induction false} SuccessorsHaveEdges(nodes: seq<Node>, links: seq<Link>, level: seq<NodeId>, m: NodeId)
    requires m in Successors(nodes, links, level)
    ensures exists q :: 0 <= q < |level| && Edge(nodes, links, level[q], m)
  {
    var init := level[..|level| - 1];
    var n := level[|level| - 1];
    assert Successors(nodes, links, level) == Successors(nodes, links, init) + NodeDests(nodes, links, n);
    if m in Successors(nodes, links, init) {
      SuccessorsHaveEdges(nodes, links, init, m);
      var q :| 0 <= q < |init| && Edge(nodes, links, init[q], m);
      assert level[q] == init[q];
    } else {
      NodeDestsAreEdges(nodes, links, n, m);
      assert Edge(nodes, links, level[|level| - 1], m);
    }
  }

  lemma {:induction false} EdgesGiveSuccessors(nodes: seq<Node>, links: seq<Link>, level: seq<NodeId>, q: nat, m: NodeId)
    requires q < |level| && Edge(nodes, links, level[q], m)
    ensures m in Successors(nodes, links, level)
  {
    var init := level[..|level| - 1];
    var n := level[|level| - 1];
    assert Successors(nodes, links, level) == Successors(nodes, links, init) + NodeDests(nodes, links, n);
    if q < |init| {
      assert init[q] == level[q];
      EdgesGiveSuccessors(nodes, links, init, q, m);
    } else {
      NodeDestsAreEdges(nodes, links, n, m);
      assert m in NodeDests(nodes, links, n);
    }
  }

  /** Promoting `x` after the others is one more `Step`. */
  lemma GrowStep(nl: seq<seq<NodeId>>, level: nat, promoted: seq<NodeId>, x: NodeId)
    requires level < |nl|
    ensures Grow(nl, level, promoted + [x]) == Step(Grow(nl, level, promoted), level, x)
  {
    assert (promoted + [x])[..|promoted|] == promoted;
  }

  lemma {:induction false} LevelOutputsMembership(nodes: seq<Node>, level: seq<NodeId>, l: LinkId)
    ensures l in LevelOutputs(nodes, level) <==> exists q :: 0 <= q < |level| && level[q] < |nodes| && l in nodes[level[q]].outputs
  {
    if level != [] {
      var init := level[..|level| - 1];
      LevelOutputsMembership(nodes, init, l);
      assert forall q :: 0 <= q < |init| ==> init[q] == level[q];
    }
  }

  lemma OutputsOfMembership(nodes: seq<Node>, levels: seq<seq<NodeId>>, l: LinkId)
    ensures l in OutputsOf(nodes, levels) <==>
      exists k, q :: 0 <= k < |levels| && 0 <= q < |levels[k]| && levels[k][q] < |nodes| && l in nodes[levels[k][q]].outputs
  {
    if levels != [] {
      var init := levels[..|levels| - 1];
      OutputsOfMembership(nodes, init, l);
      LevelOutputsMembership(nodes, levels[|levels| - 1], l);
      if l in OutputsOf(nodes, levels) {
        if l in OutputsOf(nodes, init) {
          var k, q :| 0 <= k < |init| && 0 <= q < |init[k]| && init[k][q] < |nodes| && l in nodes[init[k][q]].outputs;
          assert levels[k] == init[k];
        } else {
          var q :| 0 <= q < |levels[|levels| - 1]| && levels[|levels| - 1][q] < |nodes| && l in nodes[levels[|levels| - 1][q]].outputs;
        }
      }
      if exists k, q :: 0 <= k < |levels| && 0 <= q < |levels[k]| && levels[k][q] < |nodes| && l in nodes[levels[k][q]].outputs {
        var k, q :| 0 <= k < |levels| && 0 <= q < |levels[k]| && levels[k][q] < |nodes| && l in nodes[levels[k][q]].outputs;
        if k < |levels| - 1 {
          assert init[k] == levels[k];
        }
      }
    }
  }

  /** Exact-mode validity: every node that exact mode places at level k+1
      is a destination of a node at level k, and every one of its input
      links was already valid or is an output of a node at level k or below. */
  lemma ExactLevelsRespectInputs(nodes: seq<Node>, links: seq<Link>, nl0: seq<seq<NodeId>>, nl: seq<seq<NodeId>>, k: nat, m: NodeId)
    requires Levelized(nodes, links, nl0, nl, false)
    requires k + 1 < |nl| && m in nl[k + 1] && m !in OldLevel(nl0, k + 1)
    ensures exists q :: 0 <= q < |nl[k]| && Edge(nodes, links, nl[k][q], m)
    ensures m < |nodes|
    ensures forall l :: l in nodes[m].inputs ==>
      l in ValidSet(links) || exists k', q :: 0 <= k' <= k && 0 <= q < |nl[k']| && nl[k'][q] < |nodes| && l in nodes[nl[k'][q]].outputs
  {
    ExactMemberIsReady(nodes, links, nl0, nl, k, m);
    SuccessorsAreEdges(nodes, links, nl[k], m);
    ReadyInputsExplained(nodes, links, nl, k, m);
  }

  /** A node exact mode added at level k+1 is a ready successor of level k. */
  lemma ExactMemberIsReady(nodes: seq<Node>, links: seq<Link>, nl0: seq<seq<NodeId>>, nl: seq<seq<NodeId>>, k: nat, m: NodeId)
    requires Levelized(nodes, links, nl0, nl, false)
    requires k + 1 < |nl| && m in nl[k + 1] && m !in OldLevel(nl0, k + 1)
    ensures m in Successors(nodes, links, nl[k]) && Ready(nodes, ValidSet(links) + OutputsOf(nodes, nl[..k + 1]), m)
  {
    assert LevelFollows(nodes, links, nl0, nl, k + 1, false);
    ExactFollowerIsReady(nodes, links, nl0, nl, k, m);
  }

  lemma ExactFollowerIsReady(nodes: seq<Node>, links: seq<Link>, nl0: seq<seq<NodeId>>, nl: seq<seq<NodeId>>, k: nat, m: NodeId)
    requires k + 1 < |nl| && LevelFollows(nodes, links, nl0, nl, k + 1, false)
    requires m in nl[k + 1] && m !in OldLevel(nl0, k + 1)
    ensures m in Successors(nodes, links, nl[k]) && Ready(nodes, ValidSet(links) + OutputsOf(nodes, nl[..k + 1]), m)
  {
    assert m in Promoted(nodes, links, nl[..k + 1], false);
    assert nl[..k + 1][k] == nl[k];
  }

  lemma ReadyInputsExplained(nodes: seq<Node>, links: seq<Link>, nl: seq<seq<NodeId>>, k: nat, m: NodeId)
    requires k < |nl| && Ready(nodes, ValidSet(links) + OutputsOf(nodes, nl[..k + 1]), m)
    ensures forall l :: l in nodes[m].inputs ==>
      l in ValidSet(links) || exists k', q :: 0 <= k' <= k && 0 <= q < |nl[k']| && nl[k'][q] < |nodes| && l in nodes[nl[k'][q]].outputs
  {
    forall l | l in nodes[m].inputs
      ensures l in ValidSet(links) || exists k', q :: 0 <= k' <= k && 0 <= q < |nl[k']| && nl[k'][q] < |nodes| && l in nodes[nl[k'][q]].outputs
    {
      if l !in ValidSet(links) {
        OutputsOfPrefix(nodes, nl, k, l);
      }
    }
  }

  /** An output of the levels up to `k` is an output of a node at one of them. */
  lemma OutputsOfPrefix(nodes: seq<Node>, nl: seq<seq<NodeId>>, k: nat, l: LinkId)
    requires k < |nl| && l in OutputsOf(nodes, nl[..k + 1])
    ensures exists k', q :: 0 <= k' <= k && 0 <= q < |nl[k']| && nl[k'][q] < |nodes| && l in nodes[nl[k'][q]].outputs
  {
    var done := nl[..k + 1];
    OutputsOfMembership(nodes, done, l);
    var k', q :| 0 <= k' < |done| && 0 <= q < |done[k']| && done[k'][q] < |nodes| && l in nodes[done[k'][q]].outputs;
    assert done[k'] == nl[k'];
  }

  /** Real-mode reachability: every node that real mode places at level k+1
      is a destination of a node at level k. */
  lemma RealLevelsFollowEdges(nodes: seq<Node>, links: seq<Link>, nl0: seq<seq<NodeId>>, nl: seq<seq<NodeId>>, k: nat, m: NodeId)
    requires Levelized(nodes, links, nl0, nl, true)
    requires k + 1 < |nl| && m in nl[k + 1] && m !in OldLevel(nl0, k + 1)
    ensures exists q :: 0 <= q < |nl[k]| && Edge(nodes, links, nl[k][q], m)
  {
    assert LevelFollows(nodes, links, nl0, nl, k + 1, true);
    RealPromotedAreSuccessors(nodes, links, nl, k);
    SuccessorsAreEdges(nodes, links, nl[k], m);
  }

  lemma RealPromotedAreSuccessors(nodes: seq<Node>, links: seq<Link>, nl: seq<seq<NodeId>>, k: nat)
    requires k < |nl|
    ensures Promoted(nodes, links, nl[..k + 1], true) == Successors(nodes, links, nl[k])
  {
    assert nl[..k + 1][k] == nl[k];
  }

  /** Completeness: a node promoted while processing level k is at level
      k+1, and levelization never stops while a level still promotes. */
  lemma LevelizedIsComplete(nodes: seq<Node>, links: seq<Link>, nl0: seq<seq<NodeId>>, nl: seq<seq<NodeId>>, realMode: bool, k: nat, m: NodeId)
    requires Levelized(nodes, links, nl0, nl, realMode)
    requires k < |nl| && m in Promoted(nodes, links, nl[..k + 1], realMode)
    ensures k + 1 < |nl| && m in nl[k + 1]
  {
    var done := nl[..k + 1];
    assert |done| == |nl| ==> done == nl;
    if k + 1 < |nl| {
      assert LevelFollows(nodes, links, nl0, nl, k + 1, realMode);
      assert m in nl[k + 1];
    }
  }

  /** Levels at index 1 and above never hold a node twice. */
  lemma LevelizedHasNoDuplicates(nodes: seq<Node>, links: seq<Link>, nl0: seq<seq<NodeId>>, nl: seq<seq<NodeId>>, realMode: bool)
    requires Levelized(nodes, links, nl0, nl, realMode)
    requires forall k :: 1 <= k < |nl0| ==> Distinct(nl0[k])
    ensures forall k :: 1 <= k < |nl| ==> Distinct(nl[k])
  {
    forall k | 1 <= k < |nl| ensures Distinct(nl[k]) {
      assert LevelFollows(nodes, links, nl0, nl, k, realMode);
    }
  }

  /** Every level past the initial ones was promoted by the levels before it. */
  lemma LevelizedStopsOnlyWhenDone(nodes: seq<Node>, links: seq<Link>, nl0: seq<seq<NodeId>>, nl: seq<seq<NodeId>>, realMode: bool, k: nat)
    requires Levelized(nodes, links, nl0, nl, realMode)
    ensures |nl0| <= k < |nl| ==> Promoted(nodes, links, nl[..k], realMode) != []
  {
    if |nl0| <= k < |nl| {
      assert LevelFollows(nodes, links, nl0, nl, k, realMode);
    }
  }

  /** Two levelizations that agree below level k agree at level k. */
  lemma LevelizedStepAgrees(nodes: seq<Node>, links: seq<Link>, nl0: seq<seq<NodeId>>, a: seq<seq<NodeId>>, b: seq<seq<NodeId>>, realMode: bool, k: nat)
    requires Levelized(nodes, links, nl0, a, realMode) && Levelized(nodes, links, nl0, b, realMode)
    requires 1 <= k < |a| && k < |b| && a[..k] == b[..k]
    ensures a[k] == b[k]
  {
    assert LevelFollows(nodes, links, nl0, a, k, realMode);
    assert LevelFollows(nodes, links, nl0, b, k, realMode);
  }

  /** A levelization that is a prefix of another is all of it. */
  lemma LevelizedPrefixIsWhole(nodes: seq<Node>, links: seq<Link>, nl0: seq<seq<NodeId>>, a: seq<seq<NodeId>>, b: seq<seq<NodeId>>, realMode: bool)
    requires Levelized(nodes, links, nl0, a, realMode) && Levelized(nodes, links, nl0, b, realMode)
    requires |a| <= |b| && b[..|a|] == a
    ensures a == b
  {
    LevelizedStopsOnlyWhenDone(nodes, links, nl0, b, realMode, |a|);
    assert |a| == |b|;
  }

  /** Levelization is deterministic: the same graph and the same starting
      levels always give the same level sets. */
  lemma LevelizedIsDeterministic(nodes: seq<Node>, links: seq<Link>, nl0: seq<seq<NodeId>>, a: seq<seq<NodeId>>, b: seq<seq<NodeId>>, realMode: bool)
    requires Levelized(nodes, links, nl0, a, realMode) && Levelized(nodes, links, nl0, b, realMode)
    ensures a == b
  {
    var n := if |a| < |b| then |a| else |b|;
    LevelizedAgreeBelow(nodes, links, nl0, a, b, realMode, n);
    if |a| <= |b| {
      assert a[..n] == a;
      LevelizedPrefixIsWhole(nodes, links, nl0, a, b, realMode);
    } else {
      assert b[..n] == b;
      LevelizedPrefixIsWhole(nodes, links, nl0, b, a, realMode);
    }
  }

  /** Two levelizations of the same graph agree on every level both have. */
  lemma LevelizedAgreeBelow(nodes: seq<Node>, links: seq<Link>, nl0: seq<seq<NodeId>>, a: seq<seq<NodeId>>, b: seq<seq<NodeId>>, realMode: bool, n: nat)
    requires Levelized(nodes, links, nl0, a, realMode) && Levelized(nodes, links, nl0, b, realMode)
    requires 1 <= n <= |a| && n <= |b|
    ensures a[..n] == b[..n]
  {
    forall k | 1 <= k < |a| && k < |b| && a[..k] == b[..k] ensures a[k] == b[k] {
      LevelizedStepAgrees(nodes, links, nl0, a, b, realMode, k);
    }
    StepwiseAgree(a, b, n);
  }

  /** Two sequences with the same first element, each further element fixed
      by the ones before it, agree on every common prefix. */
  lemma {:induction false} StepwiseAgree(a: seq<seq<NodeId>>, b: seq<seq<NodeId>>, n: nat)
    requires 1 <= n <= |a| && n <= |b| && a[0] == b[0]
    requires forall k :: 1 <= k < |a| && k < |b| && a[..k] == b[..k] ==> a[k] == b[k]
    ensures a[..n] == b[..n]
  {
    if n == 1 {
      PrefixesExtend(a, b, 0);
    } else {
      StepwiseAgree(a, b, n - 1);
      PrefixesExtend(a, b, n - 1);
    }
  }

  lemma PrefixesExtend(a: seq<seq<NodeId>>, b: seq<seq<NodeId>>, k: nat)
    requires k < |a| && k < |b| && a[..k] == b[..k] && a[k] == b[k]
    ensures a[..k + 1] == b[..k + 1]
  {
    assert a[..k + 1] == a[..k] + [a[k]] && b[..k + 1] == b[..k] + [b[k]];
  }

  // ---------------------------------------------------------------------------
  // One step of the levelizers' loops

  lemma SuccessorsSnoc(nodes: seq<Node>, links: seq<Link>, level: seq<NodeId>, q: nat)
    requires q < |level|
    ensures Successors(nodes, links, level[..q + 1]) == Successors(nodes, links, level[..q]) + NodeDests(nodes, links, level[q])
  {
    assert level[..q + 1][..q] == level[..q];
  }

  lemma LinkDestsSnoc(links: seq<Link>, ls: seq<LinkId>, o: nat)
    requires o < |ls|
    ensures LinkDests(links, ls[..o + 1]) == LinkDests(links, ls[..o]) + Dests(links, ls[o])
  {
    assert ls[..o + 1][..o] == ls[..o];
  }

  lemma LevelOutputsSnoc(nodes: seq<Node>, level: seq<NodeId>, q: nat)
    requires q < |level|
    ensures LevelOutputs(nodes, level[..q + 1]) == LevelOutputs(nodes, level[..q]) + NodeOutputs(nodes, level[q])
  {
    assert level[..q + 1][..q] == level[..q];
  }

  lemma ReadyOnlySnoc(nodes: seq<Node>, valid: set<LinkId>, xs: seq<NodeId>, x: NodeId)
    ensures ReadyOnly(nodes, valid, xs + [x]) == ReadyOnly(nodes, valid, xs) + (if Ready(nodes, valid, x) then [x] else [])
  {
    assert (xs + [x])[..|xs|] == xs;
  }

  /** Visiting one more destination `x` in exact mode promotes it exactly
      when it is ready. */
  lemma PromoteOne(nodes: seq<Node>, valid: set<LinkId>, nl: seq<seq<NodeId>>, level: nat, seen: seq<NodeId>, x: NodeId)
    requires level < |nl|
    ensures Grow(nl, level, ReadyOnly(nodes, valid, seen + [x])) ==
      if Ready(nodes, valid, x) then Step(Grow(nl, level, ReadyOnly(nodes, valid, seen)), level, x)
      else Grow(nl, level, ReadyOnly(nodes, valid, seen))
  {
    ReadyOnlySnoc(nodes, valid, seen, x);
    if Ready(nodes, valid, x) {
      GrowStep(nl, level, ReadyOnly(nodes, valid, seen), x);
    }
  }

  lemma VisitSnoc(nodes: seq<Node>, valid: set<LinkId>, realMode: bool, nl: seq<seq<NodeId>>, level: nat, xs: seq<NodeId>, x: NodeId)
    requires level < |nl|
    ensures Visit(nodes, valid, realMode, nl, level, xs + [x]) ==
      var p := Visit(nodes, valid, realMode, nl, level, xs);
      if realMode || Ready(nodes, valid, x) then Step(p, level, x) else p
  {
    assert (xs + [x])[..|xs|] == xs;
  }

  /** Visiting node by node is promoting, all at once, every visited node
      (real mode) or every ready one (exact mode). */
  lemma {:induction false} VisitIsGrow(nodes: seq<Node>, valid: set<LinkId>, realMode: bool, nl: seq<seq<NodeId>>, level: nat, xs: seq<NodeId>)
    requires level < |nl|
    ensures Visit(nodes, valid, realMode, nl, level, xs) == Grow(nl, level, if realMode then xs else ReadyOnly(nodes, valid, xs))
  {
    if xs != [] {
      var ys, x := xs[..|xs| - 1], xs[|xs| - 1];
      assert xs == ys + [x];
      VisitIsGrow(nodes, valid, realMode, nl, level, ys);
      if realMode {
        GrowStep(nl, level, ys, x);
      } else {
        PromoteOne(nodes, valid, nl, level, ys, x);
      }
    }
  }

  lemma SameValidityValidSet(links: seq<Link>, links2: seq<Link>)
    requires SameValidity(links, links2)
    ensures ValidSet(links) == ValidSet(links2)
  {
    forall l | l in ValidSet(links2) ensures l in ValidSet(links) {
      assert links[l].valid == links2[l].valid;
    }
  }

  /** Making a link valid adds it to the valid set and keeps every destination list. */
  lemma MarkValid(links: seq<Link>, l: LinkId)
    requires l < |links|
    ensures ValidSet(links[l := links[l].(valid := true)]) == ValidSet(links) + {l}
    ensures SameDests(links, links[l := links[l].(valid := true)])
  {
  }

  /** Every node the level sets mention is below `count`. */
  ghost predicate IdsBelow(nl: seq<seq<NodeId>>, count: nat)
  {
    forall k, q :: 0 <= k < |nl| && 0 <= q < |nl[k]| ==> nl[k][q] < count
  }

  lemma StepKeepsIdsBelow(nl: seq<seq<NodeId>>, level: nat, x: NodeId, count: nat)
    requires level < |nl| && IdsBelow(nl, count) && x < count
    ensures IdsBelow(Step(nl, level, x), count)
  {
    var nl1 := if |nl| < level + 2 then nl + [[]] else nl;
    assert IdsBelow(nl1, count) by {
      forall k, q | 0 <= k < |nl1| && 0 <= q < |nl1[k]| ensures nl1[k][q] < count {
        if k < |nl| { assert nl1[k] == nl[k]; }
      }
    }
  }

  /** The levelizers visit destinations through the links' destination
      lists only, so validity does not change what they visit. */
  lemma {:induction false} SuccessorsSameDests(nodes: seq<Node>, links: seq<Link>, links2: seq<Link>, level: seq<NodeId>)
    requires SameDests(links, links2)
    ensures Successors(nodes, links, level) == Successors(nodes, links2, level)
  {
    if level != [] {
      SuccessorsSameDests(nodes, links, links2, level[..|level| - 1]);
      var n := level[|level| - 1];
      if n < |nodes| {
        LinkDestsSameDests(links, links2, nodes[n].outputs);
      }
    }
  }

  lemma {:induction false} LinkDestsSameDests(links: seq<Link>, links2: seq<Link>, ls: seq<LinkId>)
    requires SameDests(links, links2)
    ensures LinkDests(links, ls) == LinkDests(links2, ls)
  {
    if ls != [] {
      LinkDestsSameDests(links, links2, ls[..|ls| - 1]);
    }
  }

  /** The levels of `nl` are those of a levelization of `nl0` (a single
      level) that has processed the levels below `level`; the level loop,
      which runs while level `level` exists, is about to process `level`,
      the last level, or has stopped at `level == |nl|`. */
  ghost predicate Levelizing(nodes: seq<Node>, links: seq<Link>, nl0: seq<seq<NodeId>>, nl: seq<seq<NodeId>>, level: nat, realMode: bool)
  {
    && |nl0| == 1 && 1 <= |nl| && level <= |nl| <= level + 1 && nl[0] == nl0[0]
    && (forall k :: 1 <= k < |nl| ==> LevelFollows(nodes, links, nl0, nl, k, realMode))
    && (forall k :: 1 <= k < |nl| ==> nl[k] != [])
    && (level == |nl| ==> Promoted(nodes, links, nl, realMode) == [])
  }

  lemma LevelizingStarts(nodes: seq<Node>, links: seq<Link>, nl0: seq<seq<NodeId>>, realMode: bool)
    requires |nl0| == 1
    ensures Levelizing(nodes, links, nl0, nl0, 0, realMode)
  {
  }

  /** Processing the last level appends what it promotes as a new level
      (if anything), and the loop moves on. */
  lemma LevelizingStep(nodes: seq<Node>, links: seq<Link>, nl0: seq<seq<NodeId>>, nl: seq<seq<NodeId>>, level: nat, realMode: bool)
    requires Levelizing(nodes, links, nl0, nl, level, realMode) && level < |nl|
    ensures var nl2 := Grow(nl, level, Promoted(nodes, links, nl, realMode));
      Levelizing(nodes, links, nl0, nl2, level + 1, realMode) && |nl2| >= |nl| && nl2[..|nl|] == nl
  {
    var p := Promoted(nodes, links, nl, realMode);
    var nl2 := Grow(nl, level, p);
    if p != [] {
      assert nl2[..|nl|] == nl;
      forall k | 1 <= k < |nl2| ensures LevelFollows(nodes, links, nl0, nl2, k, realMode) {
        assert nl2[..k] == nl[..k];
        if k < |nl| {
          assert LevelFollows(nodes, links, nl0, nl, k, realMode);
        } else {
          assert nl[..k] == nl;
        }
      }
      assert p[0] in AppendNew([], p);
    }
  }

  lemma LevelizingStops(nodes: seq<Node>, links: seq<Link>, nl0: seq<seq<NodeId>>, nl: seq<seq<NodeId>>, level: nat, realMode: bool)
    requires Levelizing(nodes, links, nl0, nl, level, realMode) && level == |nl|
    ensures Levelized(nodes, links, nl0, nl, realMode)
  {
  }

  /** Exact mode, after marking the outputs of the last level valid: the
      nodes it promotes are those the levelization promotes. */
  lemma ExactPromoted(nodes: seq<Node>, links0: seq<Link>, links: seq<Link>, nl: seq<seq<NodeId>>)
    requires |nl| > 0 && SameDests(links0, links)
    requires ValidSet(links) == ValidSet(links0) + OutputsOf(nodes, nl)
    ensures Promoted(nodes, links0, nl, false) == ReadyOnly(nodes, ValidSet(links), Successors(nodes, links, nl[|nl| - 1]))
  {
    SuccessorsSameDests(nodes, links0, links, nl[|nl| - 1]);
  }

  /** Every node at level k is loop-free and its rank leaves room for k
      more edges below `stamp`. */
  ghost predicate LevelsRanked(nodes: seq<Node>, rank: seq<nat>, stamp: nat, nl: seq<seq<NodeId>>)
  {
    && |rank| == |nodes|
    && forall k, q :: 0 <= k < |nl| && 0 <= q < |nl[k]| ==>
         nl[k][q] < |nodes| && !nodes[nl[k][q]].loop && rank[nl[k][q]] + k < stamp
  }

  /** A node promoted from the last level is a successor of a loop-free
      node, so it is loop-free with a smaller rank. */
  lemma GrowKeepsRanked(nodes: seq<Node>, links: seq<Link>, rank: seq<nat>, stamp: nat, nl: seq<seq<NodeId>>, level: nat, promoted: seq<NodeId>)
    requires LoopFreeRanked(nodes, links, rank, stamp) && LevelsRanked(nodes, rank, stamp, nl)
    requires level + 1 == |nl|
    requires forall x :: x in promoted ==> x in Successors(nodes, links, nl[level])
    ensures LevelsRanked(nodes, rank, stamp, Grow(nl, level, promoted))
  {
    var nl2 := Grow(nl, level, promoted);
    if promoted != [] {
      forall k, q | 0 <= k < |nl2| && 0 <= q < |nl2[k]|
        ensures nl2[k][q] < |nodes| && !nodes[nl2[k][q]].loop && rank[nl2[k][q]] + k < stamp
      {
        if k == level + 1 {
          var x := nl2[k][q];
          assert x in AppendNew([], promoted);
          SuccessorsAreEdges(nodes, links, nl[level], x);
          var q' :| 0 <= q' < |nl[level]| && Edge(nodes, links, nl[level][q'], x);
          var a := nl[level][q'];
          var l :| l in nodes[a].outputs && l < |links| && x in links[l].dests;
        } else {
          assert nl2[k] == nl[k];
        }
      }
    }
  }

  /** Ranked levels past level 0 are non-empty, so there are at most
      `stamp + 1` of them. */
  lemma RankedLevelsAreFew(nodes: seq<Node>, rank: seq<nat>, stamp: nat, nl: seq<seq<NodeId>>)
    requires LevelsRanked(nodes, rank, stamp, nl) && |nl| >= 1
    requires |nl| >= 2 ==> nl[|nl| - 1] != []
    ensures |nl| <= stamp + 1
  {
    if |nl| >= 2 {
      assert rank[nl[|nl| - 1][0]] + (|nl| - 1) < stamp;
    }
  }

  /** The evaluation order visits exactly the nodes of the levels. */
  lemma {:induction false} FlattenMembership(nl: seq<seq<NodeId>>, n: NodeId)
    ensures n in Flatten(nl) <==> exists k :: 0 <= k < |nl| && n in nl[k]
  {
    if nl != [] {
      var init := nl[..|nl| - 1];
      FlattenMembership(init, n);
      if n in Flatten(nl) && n in Flatten(init) {
        var k :| 0 <= k < |init| && n in init[k];
        assert nl[k] == init[k];
      }
      if exists k :: 0 <= k < |nl| && n in nl[k] {
        var k :| 0 <= k < |nl| && n in nl[k];
        if k < |nl| - 1 {
          assert init[k] == nl[k];
        }
      }
    }
  }

  /** Level order: everything at the levels below `k` is evaluated before
      anything at level `k` or above. */
  lemma {:induction false} FlattenSplits(nl: seq<seq<NodeId>>, k: nat)
    requires k <= |nl|
    ensures Flatten(nl) == Flatten(nl[..k]) + Flatten(nl[k..])
  {
    if k < |nl| {
      var init := nl[..|nl| - 1];
      FlattenSplits(init, k);
      assert init[..k] == nl[..k];
      assert nl[k..][..|nl[k..]| - 1] == init[k..];
    } else {
      assert nl[..k] == nl;
    }
  }
}
