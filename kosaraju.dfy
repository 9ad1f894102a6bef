/**
  The routines of the program's main file: reversing a graph, the iterative
  depth-first search from the first node, the two unfinished stubs, and the
  eleven-node example graph that `main` builds.
 */
module Kosaraju {
  import opened Graphs

  /** Top-five component sizes: still a stub that answers zero whatever the graph. */
  function Kosaraju(g: Graph, nodes: seq<Option<nat>>): (r: (nat, nat, nat, nat, nat))
    ensures r == (0, 0, 0, 0, 0)
  {
    (0, 0, 0, 0, 0)
  }

  /** "Topological sort" of the main file: a stub returning a copy of its input. */
  function TopoSort(g: Graph, nodes: seq<Option<nat>>): (r: Graph)
    ensures r.weights == g.weights && r.edges == g.edges
  {
    g
  }

  /** Every edge of `es` joins nodes below `n`, and if `unflagged`, has weight `false`. */
  ghost predicate EdgesWithin(es: seq<Edge>, n: nat, unflagged: bool) {
    forall k :: 0 <= k < |es| ==> es[k].src < n && es[k].dst < n && (unflagged ==> !es[k].flag)
  }

  /** `edges'` holds the pairs of `edges` plus every edge of `outs` turned round. */
  ghost predicate AddsReversed(edges': seq<Edge>, edges: seq<Edge>, outs: seq<Edge>) {
    forall a: nat, b: nat :: ArcCount(edges', a, b) == ArcCount(edges, a, b) + ArcCount(outs, b, a)
  }

  /**
    The inner loop of the reversal for one node: appends each edge of `outs` turned round, with weight `false`.
   */
  lemma OutEdgesWithin(g: Graph, v: nat)
    requires g.Valid()
    ensures EdgesWithin(OutEdges(g.edges, v), |g.weights|, false)
  {
    var outs := OutEdges(g.edges, v);
    forall k | 0 <= k < |outs| ensures outs[k].src < |g.weights| && outs[k].dst < |g.weights| {
      assert outs[k] in outs;
    }
  }

  method AddReversed(edges: seq<Edge>, outs: seq<Edge>, n: nat) returns (edges': seq<Edge>)
    requires EdgesWithin(outs, n, false) && EdgesWithin(edges, n, true)
    ensures AddsReversed(edges', edges, outs)
    ensures |edges'| == |edges| + |outs|
    ensures EdgesWithin(edges', n, true)
  {
    edges' := edges;
    var j := 0;
    while j < |outs|
      invariant 0 <= j <= |outs|
      invariant forall a: nat, b: nat :: ArcCount(edges', a, b) == ArcCount(edges, a, b) + ArcCount(outs[..j], b, a)
      invariant |edges'| == |edges| + j
      invariant EdgesWithin(edges', n, true)
    {
      var e := outs[j];
      assert outs[..j + 1] == outs[..j] + [e];
      forall a: nat, b: nat
        ensures ArcCount(edges' + [Edge(e.dst, e.src, false)], a, b)
             == ArcCount(edges, a, b) + ArcCount(outs[..j + 1], b, a)
      {
        ArcCountSnoc(edges', Edge(e.dst, e.src, false), true, a, b);
        ArcCountSnoc(outs[..j], e, true, b, a);
      }
      edges' := edges' + [Edge(e.dst, e.src, false)];
      j := j + 1;
    }
    assert outs[..j] == outs;
  }

  /** Visiting node `i` extends a reversal of the edges below `i` to one of the edges below `i + 1`. */
  lemma ReversalStep(es: seq<Edge>, i: nat, edges: seq<Edge>, edges': seq<Edge>)
    requires IsReversal(edges, EdgesBelow(es, i)) && |edges| == |EdgesBelow(es, i)|
    requires AddsReversed(edges', edges, OutEdges(es, i)) && |edges'| == |edges| + |OutEdges(es, i)|
    ensures IsReversal(edges', EdgesBelow(es, i + 1)) && |edges'| == |EdgesBelow(es, i + 1)|
  {
    forall a: nat, b: nat
      ensures ArcCount(edges', a, b) == ArcCount(EdgesBelow(es, i + 1), b, a)
    {
      EdgesBelowStep(es, i, b, a);
    }
    EdgesBelowStep(es, i, 0, 0);
  }

  /** The first loop of the reversal: the node weights, copied in `nodes` order. */
  method CopyWeights(g: Graph, nodes: seq<Option<nat>>) returns (weights: seq<nat>)
    requires IndexedNodes(g, nodes)
    ensures weights == g.weights
  {
    weights := [];
    var i := 0;
    while i < |nodes|
      invariant 0 <= i <= |nodes|
      invariant weights == g.weights[..i]
    {
      weights := weights + [g.weights[nodes[i].value]];
      i := i + 1;
    }
  }

  /**
    The second loop of the reversal: for every node in `nodes` order, its
    out-edges turned round, with weight `false`.
   */
  method ReverseEdges(g: Graph, nodes: seq<Option<nat>>) returns (edges: seq<Edge>)
    requires g.Valid() && IndexedNodes(g, nodes)
    ensures IsReversal(edges, g.edges)
    ensures |edges| == |g.edges|
    ensures EdgesWithin(edges, |g.weights|, true)
  {
    edges := [];
    var i := 0;
    EdgesBelowNone(g.edges);
    while i < |nodes|
      invariant 0 <= i <= |nodes|
      invariant IsReversal(edges, EdgesBelow(g.edges, i))
      invariant |edges| == |EdgesBelow(g.edges, i)|
      invariant EdgesWithin(edges, |g.weights|, true)
    {
      var v := nodes[i].value;
      OutEdgesWithin(g, v);
      var edges' := AddReversed(edges, OutEdges(g.edges, v), |g.weights|);
      ReversalStep(g.edges, i, edges, edges');
      edges := edges';
      i := i + 1;
    }
    forall k | 0 <= k < |g.edges| ensures g.edges[k].src < |g.weights| {
      assert g.edges[k] in g.edges;
    }
    EdgesBelowAll(g.edges, |g.weights|);
  }

  /**
    Builds a new graph with the same node weights, in the same order, and one
    edge `target -> source` with weight `false` for every edge `source -> target`
    of `g`, visiting the nodes in `nodes` order and each node's out-edges in turn.
   */
  method GraphReverse(g: Graph, nodes: seq<Option<nat>>) returns (rev: Graph)
    requires g.Valid() && IndexedNodes(g, nodes)
    ensures rev.Valid()
    ensures rev.weights == g.weights
    ensures IsReversal(rev.edges, g.edges)
    ensures |rev.edges| == |g.edges|
    ensures forall e :: e in rev.edges ==> !e.flag
  {
    var weights := CopyWeights(g, nodes);
    var edges := ReverseEdges(g, nodes);
    rev := Graph(weights, edges);
    forall e | e in rev.edges ensures !e.flag && e.src < |weights| && e.dst < |weights| {
      var k :| 0 <= k < |edges| && edges[k] == e;
    }
  }

  /** Reversing twice gives back the node weights and the multiset of (source, target) pairs. */
  method ReverseTwice(g: Graph, nodes: seq<Option<nat>>) returns (r2: Graph)
    requires g.Valid() && IndexedNodes(g, nodes)
    ensures r2.weights == g.weights
    ensures Arcs(r2.edges) == Arcs(g.edges)
    ensures |r2.edges| == |g.edges|
  {
    var r := GraphReverse(g, nodes);
    r2 := GraphReverse(r, nodes);
    ReversalInvolution(r2.edges, r.edges, g.edges);
  }

  /** The targets of `es`, in order: what pushing every edge's target appends to a stack. */
  function Targets(es: seq<Edge>): (r: seq<nat>)
    ensures |r| == |es|
    ensures forall k :: 0 <= k < |es| ==> r[k] == es[k].dst
  {
    if es == [] then [] else Targets(es[..|es| - 1]) + [es[|es| - 1].dst]
  }

  /** The inner loop of the search: pushes the target of every out-edge, in order. */
  method PushTargets(stack: seq<nat>, outs: seq<Edge>) returns (stack': seq<nat>)
    ensures stack' == stack + Targets(outs)
  {
    stack' := stack;
    var j := 0;
    while j < |outs|
      invariant 0 <= j <= |outs|
      invariant stack' == stack + Targets(outs[..j])
    {
      assert outs[..j + 1][..j] == outs[..j];
      stack' := stack' + [outs[j].dst];
      j := j + 1;
    }
    assert outs[..j] == outs;
  }

  /**
    The invariant of the search loop, on the flags `f` and the stack: every
    stacked and every flagged node is reachable from node 0, node 0 is flagged
    or still stacked, and every out-neighbour of a flagged node is flagged or
    still stacked.
   */
  ghost predicate SearchInv(g: Graph, f: seq<bool>, stack: seq<nat>) {
    && g.Valid() && |f| == |g.weights| && 0 < |f|
    && (forall k :: 0 <= k < |stack| ==> stack[k] < |f| && Reachable(g, 0, stack[k]))
    && (forall i :: 0 <= i < |f| && f[i] ==> Reachable(g, 0, i))
    && (f[0] || 0 in stack)
    && (forall e :: e in g.edges && f[e.src] ==> f[e.dst] || e.dst in stack)
  }

  /** Popping a node that is already flagged keeps the invariant. */
  lemma PopExplored(g: Graph, f: seq<bool>, stack: seq<nat>)
    requires SearchInv(g, f, stack) && stack != []
    requires f[stack[|stack| - 1]]
    ensures SearchInv(g, f, stack[..|stack| - 1])
  {
    var rest, v := stack[..|stack| - 1], stack[|stack| - 1];
    forall x | x in stack && x != v ensures x in rest {
      var k :| 0 <= k < |stack| && stack[k] == x;
      assert rest[k] == x;
    }
  }

  /** The pushed targets of a reachable node are reachable, like the rest of the stack. */
  lemma PushedReachable(g: Graph, rest: seq<nat>, v: nat)
    requires g.Valid() && Reachable(g, 0, v)
    requires forall k :: 0 <= k < |rest| ==> rest[k] < |g.weights| && Reachable(g, 0, rest[k])
    ensures var stack' := rest + Targets(OutEdges(g.edges, v));
      forall k :: 0 <= k < |stack'| ==> stack'[k] < |g.weights| && Reachable(g, 0, stack'[k])
  {
    var outs := OutEdges(g.edges, v);
    var stack' := rest + Targets(outs);
    forall k | 0 <= k < |stack'| ensures stack'[k] < |g.weights| && Reachable(g, 0, stack'[k]) {
      if k >= |rest| {
        assert outs[k - |rest|] in g.edges;
        ReachableStep(g, 0, outs[k - |rest|]);
      }
    }
  }

  /** After flagging `v` and pushing its targets, every edge out of a flagged node ends flagged or stacked. */
  lemma PushedCovers(g: Graph, f: seq<bool>, stack: seq<nat>, v: nat)
    requires g.Valid() && |f| == |g.weights| && v < |f|
    requires stack != [] && stack[|stack| - 1] == v
    requires forall e :: e in g.edges && f[e.src] ==> f[e.dst] || e.dst in stack
    ensures var stack' := stack[..|stack| - 1] + Targets(OutEdges(g.edges, v));
      forall e :: e in g.edges && f[v := true][e.src] ==> f[v := true][e.dst] || e.dst in stack'
  {
    var rest, outs := stack[..|stack| - 1], OutEdges(g.edges, v);
    var stack', f' := rest + Targets(outs), f[v := true];
    forall x | x in stack && x != v ensures x in stack' {
      var k :| 0 <= k < |stack| && stack[k] == x;
      assert stack'[k] == x;
    }
    forall e | e in g.edges && f'[e.src] ensures f'[e.dst] || e.dst in stack' {
      if e.src == v {
        var k :| 0 <= k < |outs| && outs[k] == e;
        assert stack'[|rest| + k] == e.dst;
      }
    }
  }

  /** Popping an unflagged node, flagging it and pushing its out-neighbours keeps the invariant. */
  lemma PopExpand(g: Graph, f: seq<bool>, stack: seq<nat>)
    requires SearchInv(g, f, stack) && stack != []
    requires !f[stack[|stack| - 1]]
    ensures var v := stack[|stack| - 1];
      SearchInv(g, f[v := true], stack[..|stack| - 1] + Targets(OutEdges(g.edges, v)))
  {
    var rest, v := stack[..|stack| - 1], stack[|stack| - 1];
    assert Reachable(g, 0, v);
    PushedReachable(g, rest, v);
    PushedCovers(g, f, stack, v);
    StartCovered(f, stack, Targets(OutEdges(g.edges, v)));
  }

  /** Node 0 stays flagged or stacked when the top of the stack is flagged and replaced by `pushed`. */
  lemma StartCovered(f: seq<bool>, stack: seq<nat>, pushed: seq<nat>)
    requires 0 < |f| && stack != [] && stack[|stack| - 1] < |f|
    requires f[0] || 0 in stack
    ensures var v := stack[|stack| - 1];
      f[v := true][0] || 0 in stack[..|stack| - 1] + pushed
  {
    var v := stack[|stack| - 1];
    if v != 0 && !f[0] {
      var k :| 0 <= k < |stack| && stack[k] == 0;
      assert (stack[..|stack| - 1] + pushed)[k] == 0;
    }
  }

  /** How many nodes are not yet flagged: the measure that every newly set flag decreases. */
  ghost function Unflagged(f: seq<bool>): (r: nat)
    ensures r <= |f|
  {
    if f == [] then 0 else Unflagged(f[..|f| - 1]) + (if f[|f| - 1] then 0 else 1)
  }

  /** Flagging an unflagged node takes one off the count. */
  lemma {:induction false} UnflaggedMark(f: seq<bool>, v: nat)
    requires v < |f| && !f[v]
    ensures Unflagged(f[v := true]) == Unflagged(f) - 1
  {
    var f' := f[v := true];
    if v < |f| - 1 {
      assert f'[..|f| - 1] == f[..|f| - 1][v := true];
      UnflaggedMark(f[..|f| - 1], v);
    } else {
      assert f'[..|f| - 1] == f[..|f| - 1];
    }
  }

  /**
    One round of the search loop: pop a node, look it up in `nodes`, and if it
    is not yet explored, flag it and push the targets of its out-edges. Either
    a new flag is set, which expands exactly that node's out-edges, or the
    flags stay as they were and the stack shrinks by one.
   */
  method SearchStep(g: Graph, nodes: seq<Option<nat>>, flags: array<bool>, stack: seq<nat>)
    returns (stack': seq<nat>)
    requires IndexedNodes(g, nodes) && flags.Length == |g.weights|
    requires SearchInv(g, flags[..], stack) && stack != []
    modifies flags
    ensures SearchInv(g, flags[..], stack')
    ensures |stack'| + 1 + ExpandedEdges(g.edges, old(flags[..])) == |stack| + ExpandedEdges(g.edges, flags[..])
    ensures Unflagged(flags[..]) < old(Unflagged(flags[..]))
         || (flags[..] == old(flags[..]) && |stack'| < |stack|)
    ensures old(flags[stack[|stack| - 1]]) ==>
      flags[..] == old(flags[..]) && stack' == stack[..|stack| - 1]
    ensures !old(flags[stack[|stack| - 1]]) ==>
      && flags[..] == old(flags[..])[stack[|stack| - 1] := true]
      && stack' == stack[..|stack| - 1] + Targets(OutEdges(g.edges, stack[|stack| - 1]))
  {
    var v := stack[|stack| - 1];
    ghost var f := flags[..];
    stack' := stack[..|stack| - 1];
    // the lookup that syncs `explored` with `nodes`
    PositionOfIndexed(g, nodes, v);
    var vi := Position(nodes, v).value;
    if !flags[vi] {
      PopExpand(g, f, stack);
      ExpandedEdgesMark(g.edges, f, vi);
      UnflaggedMark(f, vi);
      flags[vi] := true;
      assert flags[..] == f[vi := true];
      stack' := PushTargets(stack', OutEdges(g.edges, v));
    } else {
      PopExplored(g, f, stack);
    }
  }

  /**
    Iterative depth-first search from `nodes[0]` with an explicit stack. A
    popped node is looked up in `nodes` to find its flag; if it was not yet
    explored it is flagged and the targets of all its out-edges are pushed.
    The source discards `explored`; here it is returned, with `pops`, the
    number of iterations of the loop.
   */
  method DfsIter(g: Graph, nodes: seq<Option<nat>>) returns (explored: seq<bool>, ghost pops: nat)
    requires g.Valid() && IndexedNodes(g, nodes)
    requires |nodes| > 0
    ensures |explored| == |g.weights|
    ensures forall i :: 0 <= i < |explored| ==> (explored[i] <==> Reachable(g, 0, i))
    ensures pops <= 1 + |g.edges|
  {
    var n := |g.weights|;
    var stack: seq<nat> := [];
    var flags := new bool[n](_ => false);
    var start := nodes[0].value;
    stack := stack + [start];
    ReachableRefl(g, start);
    ExpandedEdgesNone(g.edges, flags[..]);
    pops := 0;
    while stack != []
      invariant flags.Length == n
      invariant SearchInv(g, flags[..], stack)
      invariant pops + |stack| == 1 + ExpandedEdges(g.edges, flags[..])
      decreases Unflagged(flags[..]), |stack|
    {
      stack := SearchStep(g, nodes, flags, stack);
      pops := pops + 1;
    }
    explored := flags[..];
    forall i | 0 <= i < n && Reachable(g, 0, i)
      ensures explored[i]
    {
      ClosedHoldsReachable(g, explored, 0, i);
    }
  }

  // ---------------------------------------------------------------------------
  // The example graph that `main` builds

  /** Eleven nodes, node `i` weighing `i`, and eighteen edges of weight `false`. */
  function ExampleGraph(): Graph
  {
    Graph([0, 1, 2, 3, 4, 5, 6, 7, 8, 9, 10],
          [Edge(0, 2, false), Edge(2, 4, false), Edge(2, 10, false), Edge(4, 0, false),
           Edge(10, 7, false), Edge(10, 5, false), Edge(5, 9, false), Edge(9, 7, false),
           Edge(7, 5, false), Edge(4, 6, false), Edge(4, 8, false), Edge(6, 8, false),
           Edge(8, 3, false), Edge(3, 6, false), Edge(8, 1, false), Edge(1, 3, false),
           Edge(1, 9, false), Edge(8, 7, false)])
  }

  /** The `nodes` table `main` fills while adding the nodes. */
  function ExampleNodes(): seq<Option<nat>>
  {
    [Some(0), Some(1), Some(2), Some(3), Some(4), Some(5), Some(6), Some(7), Some(8), Some(9), Some(10)]
  }

  /** The example is a well-formed graph and `nodes` is its identity table. */
  lemma ExampleWellFormed()
    ensures ExampleGraph().Valid() && |ExampleGraph().weights| == 11
    ensures IndexedNodes(ExampleGraph(), ExampleNodes())
  {
    ExampleEdgesValid();
    ExampleNodesIndexed();
  }

  lemma ExampleEdgesValid()
    ensures ExampleGraph().Valid()
  {
    var g := ExampleGraph();
    forall e | e in g.edges ensures e.src < 11 && e.dst < 11 {
      var k :| 0 <= k < 18 && g.edges[k] == e;
      if k < 6 {
        assert k == 0 || k == 1 || k == 2 || k == 3 || k == 4 || k == 5;
      } else if k < 12 {
        assert k == 6 || k == 7 || k == 8 || k == 9 || k == 10 || k == 11;
      } else {
        assert k == 12 || k == 13 || k == 14 || k == 15 || k == 16 || k == 17;
      }
    }
  }

  lemma ExampleNodesIndexed()
    ensures IndexedNodes(ExampleGraph(), ExampleNodes())
  {
    var nodes := ExampleNodes();
    forall i | 0 <= i < |nodes| ensures nodes[i] == Some(i) {
    }
  }

  /** Following the example edge `a -> b`, the `k`-th one, from a node reachable from 0 reaches `b`. */
  lemma ExampleStep(k: nat, a: nat, b: nat)
    requires k < 18 && ExampleGraph().edges[k] == Edge(a, b, false)
    requires Reachable(ExampleGraph(), 0, a)
    ensures Reachable(ExampleGraph(), 0, b)
  {
    var g := ExampleGraph();
    ExampleEdgesValid();
    assert g.edges[k] in g.edges;
    ReachableStep(g, 0, g.edges[k]);
  }

  /** Nodes 2, 4 and 10 are reachable from node 0. */
  lemma ExampleReachFirst()
    ensures Reachable(ExampleGraph(), 0, 2) && Reachable(ExampleGraph(), 0, 4)
    ensures Reachable(ExampleGraph(), 0, 10)
  {
    ReachableRefl(ExampleGraph(), 0);
    ExampleStep(0, 0, 2);
    ExampleStep(1, 2, 4);
    ExampleStep(2, 2, 10);
  }

  /** Nodes 7, 5 and 9 are reachable from node 0, through node 10. */
  lemma ExampleReachThroughTen()
    ensures Reachable(ExampleGraph(), 0, 7) && Reachable(ExampleGraph(), 0, 5)
    ensures Reachable(ExampleGraph(), 0, 9)
  {
    ExampleReachFirst();
    ExampleStep(4, 10, 7);
    ExampleStep(5, 10, 5);
    ExampleStep(6, 5, 9);
  }

  /** Nodes 6, 8, 3 and 1 are reachable from node 0, through node 4. */
  lemma ExampleReachThroughFour()
    ensures Reachable(ExampleGraph(), 0, 6) && Reachable(ExampleGraph(), 0, 8)
    ensures Reachable(ExampleGraph(), 0, 3) && Reachable(ExampleGraph(), 0, 1)
  {
    ExampleReachFirst();
    ExampleStep(9, 4, 6);
    ExampleStep(10, 4, 8);
    ExampleStep(12, 8, 3);
    ExampleStep(14, 8, 1);
  }

  /** Every node of the example graph is reachable from node 0. */
  lemma ExampleAllReachable(v: nat)
    requires v < 11
    ensures Reachable(ExampleGraph(), 0, v)
  {
    ReachableRefl(ExampleGraph(), 0);
    ExampleReachFirst();
    ExampleReachThroughTen();
    ExampleReachThroughFour();
  }

  /** On the example graph the search from node 0 explores every node. */
  method ExampleSearch() returns (explored: seq<bool>)
    ensures |explored| == 11
    ensures forall i :: 0 <= i < |explored| ==> explored[i]
  {
    ghost var pops;
    ExampleWellFormed();
    explored, pops := DfsIter(ExampleGraph(), ExampleNodes());
    forall i | 0 <= i < 11 ensures explored[i] {
      ExampleAllReachable(i);
    }
  }
}
