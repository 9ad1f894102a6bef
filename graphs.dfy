/**
  The graph store the program borrows from petgraph: a `DiGraph<usize, bool>`
  seen as a value. Node `i` carries weight `weights[i]`; each edge has a
  source, a target and a boolean weight. Everything petgraph does not show
  (the order in which `edges(v)` yields the out-edges of `v`, how indices are
  represented) is abstracted: edge order is the order of `edges`, and every
  property about edges is stated over multisets of (source, target) pairs.
 */
module Graphs {

  datatype Option<T> = None | Some(value: T)

  /** A directed edge `src -> dst` with its `bool` weight. */
  datatype Edge = Edge(src: nat, dst: nat, flag: bool)

  /** A directed graph: node weights indexed by node index, and its edges. */
  datatype Graph = Graph(weights: seq<nat>, edges: seq<Edge>)
  {
    /** Every edge joins two existing nodes (petgraph refuses any other). */
    ghost predicate Valid() {
      forall e :: e in edges ==> e.src < |weights| && e.dst < |weights|
    }
  }

  /**
    The `nodes` slice as `main` builds it: `nodes[i]` holds the index of the
    i-th node added, which is `i`.
   */
  ghost predicate IndexedNodes(g: Graph, nodes: seq<Option<nat>>) {
    |nodes| == |g.weights| && forall i :: 0 <= i < |nodes| ==> nodes[i] == Some(i)
  }

  /** The lookup that syncs flags with `nodes`: the first slot holding `v`, if any. */
  function Position(nodes: seq<Option<nat>>, v: nat): (r: Option<nat>)
    ensures r.Some? ==> r.value < |nodes| && nodes[r.value] == Some(v)
    ensures r.Some? ==> forall k :: 0 <= k < r.value ==> nodes[k] != Some(v)
    ensures r.None? ==> forall k :: 0 <= k < |nodes| ==> nodes[k] != Some(v)
  {
    PositionFrom(nodes, v, 0)
  }

  function PositionFrom(nodes: seq<Option<nat>>, v: nat, k: nat): (r: Option<nat>)
    requires k <= |nodes|
    ensures r.Some? ==> k <= r.value < |nodes| && nodes[r.value] == Some(v)
    ensures r.Some? ==> forall i :: k <= i < r.value ==> nodes[i] != Some(v)
    ensures r.None? ==> forall i :: k <= i < |nodes| ==> nodes[i] != Some(v)
    decreases |nodes| - k
  {
    if k == |nodes| then None
    else if nodes[k] == Some(v) then Some(k)
    else PositionFrom(nodes, v, k + 1)
  }

  /** When `nodes` is the identity table, the lookup finds every node at its own index. */
  lemma PositionOfIndexed(g: Graph, nodes: seq<Option<nat>>, v: nat)
    requires IndexedNodes(g, nodes) && v < |nodes|
    ensures Position(nodes, v) == Some(v)
  {
  }

  /** The out-edges of `v`, in edge-list order. */
  function OutEdges(es: seq<Edge>, v: nat): (r: seq<Edge>)
    ensures forall e :: e in r <==> e in es && e.src == v
    ensures |r| <= |es|
  {
    if es == [] then []
    else
      var last := es[|es| - 1];
      OutEdges(es[..|es| - 1], v) + (if last.src == v then [last] else [])
  }

  /** The in-edges of `v`, in edge-list order. */
  function InEdges(es: seq<Edge>, v: nat): (r: seq<Edge>)
    ensures forall e :: e in r <==> e in es && e.dst == v
    ensures |r| <= |es|
  {
    if es == [] then []
    else
      var last := es[|es| - 1];
      InEdges(es[..|es| - 1], v) + (if last.dst == v then [last] else [])
  }

  /** `v` has no incoming edge. */
  ghost predicate IsSource(g: Graph, v: nat) {
    forall e :: e in g.edges ==> e.dst != v
  }

  /** The edges whose source is below `i`: those a loop over nodes `0..i` has visited. */
  ghost function EdgesBelow(es: seq<Edge>, i: nat): seq<Edge>
  {
    if es == [] then []
    else
      var last := es[|es| - 1];
      EdgesBelow(es[..|es| - 1], i) + (if last.src < i then [last] else [])
  }

  // ---------------------------------------------------------------------------
  // Edges as a multiset of (source, target) pairs

  /** How many edges `a -> b` there are in `es`, weights ignored: the multiplicity of (a, b). */
  function ArcCount(es: seq<Edge>, a: nat, b: nat): nat
  {
    if es == [] then 0
    else ArcCount(es[..|es| - 1], a, b) + (if es[|es| - 1].src == a && es[|es| - 1].dst == b then 1 else 0)
  }

  /** The multiset of (source, target) pairs of `es`. */
  ghost function Arcs(es: seq<Edge>): multiset<(nat, nat)>
  {
    if es == [] then multiset{}
    else Arcs(es[..|es| - 1]) + multiset{(es[|es| - 1].src, es[|es| - 1].dst)}
  }

  /** `r` holds each edge of `es` turned round: as many `a -> b` in `r` as `b -> a` in `es`. */
  ghost predicate IsReversal(r: seq<Edge>, es: seq<Edge>) {
    forall a: nat, b: nat :: ArcCount(r, a, b) == ArcCount(es, b, a)
  }

  lemma ArcCountSnoc(s: seq<Edge>, x: Edge, keep: bool, a: nat, b: nat)
    ensures ArcCount(s + (if keep then [x] else []), a, b)
         == ArcCount(s, a, b) + (if keep && x.src == a && x.dst == b then 1 else 0)
  {
    if keep {
      assert (s + [x])[..|s|] == s;
    } else {
      assert s + [] == s;
    }
  }

  /** `OutEdges` keeps every edge leaving `v`, parallel copies included, and nothing else. */
  lemma {:induction false} OutEdgesArcs(es: seq<Edge>, v: nat, a: nat, b: nat)
    ensures ArcCount(OutEdges(es, v), a, b) == (if a == v then ArcCount(es, a, b) else 0)
  {
    if es != [] {
      var last := es[|es| - 1];
      OutEdgesArcs(es[..|es| - 1], v, a, b);
      ArcCountSnoc(OutEdges(es[..|es| - 1], v), last, last.src == v, a, b);
    }
  }

  /** `ArcCount` is the multiplicity function of `Arcs`. */
  lemma {:induction false} ArcsCount(es: seq<Edge>, a: nat, b: nat)
    ensures Arcs(es)[(a, b)] == ArcCount(es, a, b)
  {
    if es != [] {
      ArcsCount(es[..|es| - 1], a, b);
    }
  }

  /** Each edge is one element of `Arcs`: no edge is lost or duplicated. */
  lemma {:induction false} ArcsSize(es: seq<Edge>)
    ensures |Arcs(es)| == |es|
  {
    if es != [] {
      ArcsSize(es[..|es| - 1]);
    }
  }

  /** Two edge lists with the same counts for every pair have the same multiset of arcs. */
  lemma SameArcs(x: seq<Edge>, y: seq<Edge>)
    requires forall a: nat, b: nat :: ArcCount(x, a, b) == ArcCount(y, a, b)
    ensures Arcs(x) == Arcs(y)
  {
    forall p: (nat, nat) ensures Arcs(x)[p] == Arcs(y)[p] {
      ArcsCount(x, p.0, p.1);
      ArcsCount(y, p.0, p.1);
    }
  }

  /** Reversal is an involution: reversing a reversal gives back the original multiset of arcs. */
  lemma ReversalInvolution(r2: seq<Edge>, r: seq<Edge>, es: seq<Edge>)
    requires IsReversal(r, es) && IsReversal(r2, r)
    ensures Arcs(r2) == Arcs(es)
    ensures |r2| == |es|
  {
    forall a: nat, b: nat ensures ArcCount(r2, a, b) == ArcCount(es, a, b) {
      assert ArcCount(r2, a, b) == ArcCount(r, b, a);
    }
    SameArcs(r2, es);
    ArcsSize(r2);
    ArcsSize(es);
  }

  /** Visiting node `i` adds exactly its out-edges to the edges visited so far. */
  lemma {:induction false} EdgesBelowStep(es: seq<Edge>, i: nat, a: nat, b: nat)
    ensures ArcCount(EdgesBelow(es, i + 1), a, b)
         == ArcCount(EdgesBelow(es, i), a, b) + ArcCount(OutEdges(es, i), a, b)
    ensures |EdgesBelow(es, i + 1)| == |EdgesBelow(es, i)| + |OutEdges(es, i)|
  {
    if es != [] {
      var init, last := es[..|es| - 1], es[|es| - 1];
      EdgesBelowStep(init, i, a, b);
      ArcCountSnoc(EdgesBelow(init, i + 1), last, last.src < i + 1, a, b);
      ArcCountSnoc(EdgesBelow(init, i), last, last.src < i, a, b);
      ArcCountSnoc(OutEdges(init, i), last, last.src == i, a, b);
    }
  }

  /** Before any node is visited, no edge has been. */
  lemma {:induction false} EdgesBelowNone(es: seq<Edge>)
    ensures EdgesBelow(es, 0) == []
  {
    if es != [] {
      EdgesBelowNone(es[..|es| - 1]);
    }
  }

  /** Once every node is below `n`, all edges have been visited. */
  lemma {:induction false} EdgesBelowAll(es: seq<Edge>, n: nat)
    requires forall k :: 0 <= k < |es| ==> es[k].src < n
    ensures EdgesBelow(es, n) == es
  {
    if es != [] {
      var init := es[..|es| - 1];
      EdgesBelowAll(init, n);
      assert init + [es[|es| - 1]] == es;
    }
  }


  // ---------------------------------------------------------------------------
  // Reachability

  /** There is an edge `a -> b`. */
  ghost predicate HasArc(g: Graph, a: nat, b: nat) {
    exists e :: e in g.edges && e.src == a && e.dst == b
  }

  /** `p` is a directed path of `g`: existing nodes, consecutive ones joined by an edge. */
  ghost predicate IsPath(g: Graph, p: seq<nat>) {
    && |p| > 0
    && (forall k :: 0 <= k < |p| ==> p[k] < |g.weights|)
    && (forall k :: 0 <= k < |p| - 1 ==> HasArc(g, p[k], p[k + 1]))
  }

  /** `v` can be reached from `u` along directed edges (in zero or more steps). */
  ghost predicate Reachable(g: Graph, u: nat, v: nat) {
    exists p :: IsPath(g, p) && p[0] == u && p[|p| - 1] == v
  }

  lemma ReachableRefl(g: Graph, u: nat)
    requires u < |g.weights|
    ensures Reachable(g, u, u)
  {
    assert IsPath(g, [u]);
  }

  /** Following one more edge keeps the target reachable. */
  lemma ReachableStep(g: Graph, u: nat, e: Edge)
    requires g.Valid() && e in g.edges
    requires Reachable(g, u, e.src)
    ensures Reachable(g, u, e.dst)
  {
    var p :| IsPath(g, p) && p[0] == u && p[|p| - 1] == e.src;
    var q := p + [e.dst];
    assert HasArc(g, q[|p| - 1], q[|p|]);
    assert IsPath(g, q);
  }

  /** The nodes flagged in `f` are closed under following edges. */
  ghost predicate Closed(g: Graph, f: seq<bool>)
    requires g.Valid() && |f| == |g.weights|
  {
    forall e :: e in g.edges && f[e.src] ==> f[e.dst]
  }

  /** A closed set that holds `u` holds every node reachable from `u`. */
  lemma ClosedHoldsReachable(g: Graph, f: seq<bool>, u: nat, v: nat)
    requires g.Valid() && |f| == |g.weights| && Closed(g, f)
    requires u < |f| && f[u]
    requires Reachable(g, u, v)
    ensures v < |f| && f[v]
  {
    var p :| IsPath(g, p) && p[0] == u && p[|p| - 1] == v;
    PathStaysClosed(g, f, p, |p| - 1);
  }

  lemma {:induction false} PathStaysClosed(g: Graph, f: seq<bool>, p: seq<nat>, k: nat)
    requires g.Valid() && |f| == |g.weights| && Closed(g, f)
    requires IsPath(g, p) && f[p[0]]
    requires k < |p|
    ensures f[p[k]]
  {
    if k > 0 {
      PathStaysClosed(g, f, p, k - 1);
      assert HasArc(g, p[k - 1], p[k]);
    }
  }

  /** No directed path of one or more edges leads from a node back to itself. */
  ghost predicate Acyclic(g: Graph) {
    forall p :: IsPath(g, p) && |p| > 1 ==> p[0] != p[|p| - 1]
  }

  /** A stretch of a path is a path. */
  lemma SubPath(g: Graph, p: seq<nat>, i: nat, j: nat)
    requires IsPath(g, p) && i < j <= |p|
    ensures IsPath(g, p[i..j])
  {
    var q := p[i..j];
    forall k | 0 <= k < |q| - 1 ensures HasArc(g, q[k], q[k + 1]) {
      assert q[k] == p[i + k] && q[k + 1] == p[i + k + 1];
    }
  }

  // ---------------------------------------------------------------------------
  // Distinct node sequences

  ghost predicate Distinct(s: seq<nat>) {
    forall i, j :: 0 <= i < j < |s| ==> s[i] != s[j]
  }

  /** Pigeonhole: distinct node indices below `n` number at most `n`. */
  lemma DistinctBound(s: seq<nat>, n: nat)
    requires Distinct(s)
    requires forall k :: 0 <= k < |s| ==> s[k] < n
    ensures |s| <= n
  {
    var elems := set k | 0 <= k < |s| :: s[k];
    DistinctElems(s);
    RangeBound(elems, n);
  }

  lemma {:induction false} DistinctElems(s: seq<nat>)
    requires Distinct(s)
    ensures |set k | 0 <= k < |s| :: s[k]| == |s|
  {
    if s != [] {
      var init := s[..|s| - 1];
      DistinctElems(init);
      var a := set k | 0 <= k < |init| :: init[k];
      var b := set k | 0 <= k < |s| :: s[k];
      assert b == a + {s[|s| - 1]};
      assert s[|s| - 1] !in a;
    }
  }

  lemma {:induction false} RangeBound(elems: set<nat>, n: nat)
    requires forall x :: x in elems ==> x < n
    ensures |elems| <= n
  {
    if n > 0 {
      RangeBound(elems - {n - 1}, n - 1);
    } else {
      assert elems == {};
    }
  }

  /** A path longer than the number of nodes visits some node twice. */
  lemma LongPathRepeats(g: Graph, p: seq<nat>) returns (i: nat, j: nat)
    requires IsPath(g, p) && |p| > |g.weights|
    ensures i < j < |p| && p[i] == p[j]
  {
    if Distinct(p) {
      DistinctBound(p, |g.weights|);
    }
    i, j :| 0 <= i < j < |p| && p[i] == p[j];
  }

  // ---------------------------------------------------------------------------
  // Counting the edges a traversal has expanded

  /** How many edges of `es` leave a node flagged in `f`. */
  ghost function ExpandedEdges(es: seq<Edge>, f: seq<bool>): (r: nat)
    ensures r <= |es|
  {
    if es == [] then 0
    else
      var last := es[|es| - 1];
      ExpandedEdges(es[..|es| - 1], f) + (if last.src < |f| && f[last.src] then 1 else 0)
  }

  /** With nothing flagged, no edge has been expanded. */
  lemma {:induction false} ExpandedEdgesNone(es: seq<Edge>, f: seq<bool>)
    requires forall i :: 0 <= i < |f| ==> !f[i]
    ensures ExpandedEdges(es, f) == 0
  {
    if es != [] {
      ExpandedEdgesNone(es[..|es| - 1], f);
    }
  }

  /** Flagging a new node `v` expands exactly the out-edges of `v`. */
  lemma {:induction false} ExpandedEdgesMark(es: seq<Edge>, f: seq<bool>, v: nat)
    requires v < |f| && !f[v]
    ensures ExpandedEdges(es, f[v := true]) == ExpandedEdges(es, f) + |OutEdges(es, v)|
  {
    if es != [] {
      ExpandedEdgesMark(es[..|es| - 1], f, v);
    }
  }
}
