/**
  The routines of the program's second source file: a topological sort after
  Kahn's algorithm, and a copy of the iterative depth-first search.
 */
module Unused {
  import opened Graphs
  import Kosaraju

  /**
    The inner loop of the sort for a popped node `n`: for every out-edge
    `n -> m` of `g`, `m` would be pushed if `g` showed no incoming edge for it.
    But the edge `n -> m` is itself incoming to `m`, so nothing is ever pushed.
   */
  method PushFreedTargets(g: Graph, stack: seq<nat>, outs: seq<Edge>) returns (stack': seq<nat>)
    requires forall e :: e in outs ==> e in g.edges
    ensures stack' == stack
  {
    stack' := stack;
    var j := 0;
    while j < |outs|
      invariant 0 <= j <= |outs|
      invariant stack' == stack
    {
      var m := outs[j].dst;
      if |InEdges(g.edges, m)| == 0 {
        stack' := stack' + [m];
      }
      j := j + 1;
    }
  }

  /** Strictly decreasing node indices below `n` number at most `n`. */
  lemma {:induction false} DecreasingBound(s: seq<nat>, n: nat)
    requires forall i, j :: 0 <= i < j < |s| ==> s[i] > s[j]
    requires forall i :: 0 <= i < |s| ==> s[i] < n
    ensures |s| <= n
  {
    if s != [] {
      DecreasingBound(s[1..], s[0]);
    }
  }

  /**
    Kahn-style ordering as written: the stack is seeded with the nodes that
    have no incoming edge, in `nodes` order; the loop pops them into `order`.
    The result is exactly the source nodes of `g`, from the highest index to
    the lowest; the loop runs once per source node.
   */
  method TopoSort(g: Graph, nodes: seq<Option<nat>>) returns (order: seq<nat>, ghost rounds: nat)
    requires g.Valid() && IndexedNodes(g, nodes)
    ensures forall v: nat :: v in order <==> v < |g.weights| && IsSource(g, v)
    ensures forall i, j :: 0 <= i < j < |order| ==> order[i] > order[j]
    ensures |order| <= |g.weights|
    ensures rounds == |order|
  {
    var stack: seq<nat> := [];
    order := [];
    // seed the stack with the nodes that have no incoming edge
    var i := 0;
    while i < |nodes|
      invariant 0 <= i <= |nodes|
      invariant forall v: nat :: v in stack <==> v < i && IsSource(g, v)
      invariant forall a, b :: 0 <= a < b < |stack| ==> stack[a] < stack[b]
    {
      var node := nodes[i].value;
      if |InEdges(g.edges, node)| == 0 {
        assert forall a :: 0 <= a < |stack| ==> stack[a] in stack;
        stack := stack + [node];
      } else {
        assert InEdges(g.edges, node)[0] in g.edges;
      }
      i := i + 1;
    }
    rounds := 0;
    while stack != []
      invariant forall v: nat :: v in order || v in stack <==> v < |g.weights| && IsSource(g, v)
      invariant forall a, b :: 0 <= a < b < |stack| ==> stack[a] < stack[b]
      invariant forall a, b :: 0 <= a < b < |order| ==> order[a] > order[b]
      invariant forall a, b :: 0 <= a < |order| && 0 <= b < |stack| ==> order[a] > stack[b]
      invariant rounds == |order|
      decreases |stack|
    {
      var n := stack[|stack| - 1];
      stack := stack[..|stack| - 1];
      order := order + [n];
      rounds := rounds + 1;
      stack := PushFreedTargets(g, stack, OutEdges(g.edges, n));
    }
    assert forall a :: 0 <= a < |order| ==> order[a] in order;
    DecreasingBound(order, |g.weights|);
  }

  /** The same search as the main file's: the final flags are the nodes reachable from node 0. */
  method DfsIter(g: Graph, nodes: seq<Option<nat>>) returns (explored: seq<bool>, ghost pops: nat)
    requires g.Valid() && IndexedNodes(g, nodes)
    requires |nodes| > 0
    ensures |explored| == |g.weights|
    ensures forall i :: 0 <= i < |explored| ==> (explored[i] <==> Reachable(g, 0, i))
    ensures pops <= 1 + |g.edges|
  {
    explored, pops := Kosaraju.DfsIter(g, nodes);
  }

  /** The target of any edge is not a source. */
  lemma TargetIsNotSource(g: Graph, k: nat)
    requires k < |g.edges|
    ensures !IsSource(g, g.edges[k].dst)
  {
    assert g.edges[k] in g.edges;
  }

  /** Every node of the example graph has an incoming edge. */
  lemma ExampleHasNoSource(v: nat)
    requires v < 11
    ensures !IsSource(Kosaraju.ExampleGraph(), v)
  {
    var g := Kosaraju.ExampleGraph();
    if v == 0 { TargetIsNotSource(g, 3); }
    else if v == 1 { TargetIsNotSource(g, 14); }
    else if v == 2 { TargetIsNotSource(g, 0); }
    else if v == 3 { TargetIsNotSource(g, 12); }
    else if v == 4 { TargetIsNotSource(g, 1); }
    else if v == 5 { TargetIsNotSource(g, 5); }
    else if v == 6 { TargetIsNotSource(g, 9); }
    else if v == 7 { TargetIsNotSource(g, 4); }
    else if v == 8 { TargetIsNotSource(g, 10); }
    else if v == 9 { TargetIsNotSource(g, 6); }
    else { TargetIsNotSource(g, 2); }
  }

  /** On the example graph, which has no source node, the sort returns nothing. */
  method ExampleTopoSort() returns (order: seq<nat>)
    ensures order == []
  {
    var g := Kosaraju.ExampleGraph();
    Kosaraju.ExampleWellFormed();
    forall v: nat | v < |g.weights| ensures !IsSource(g, v) {
      ExampleHasNoSource(v);
    }
    ghost var rounds;
    order, rounds := TopoSort(g, Kosaraju.ExampleNodes());
    NoSourceNoOrder(g, order);
  }

  /** A graph without source nodes leaves nothing for the sort to output. */
  lemma NoSourceNoOrder(g: Graph, order: seq<nat>)
    requires forall v: nat :: v in order ==> v < |g.weights| && IsSource(g, v)
    requires forall v: nat :: v < |g.weights| ==> !IsSource(g, v)
    ensures order == []
  {
    var first := if order == [] then 0 else order[0];
    assert order != [] ==> first in order;
  }

  // ---------------------------------------------------------------------------
  // Kahn's algorithm as intended: a side table of remaining in-degrees

  /** How many edges of `es` enter `w` from a node not in `done`. */
  ghost function InCount(es: seq<Edge>, w: nat, done: seq<nat>): nat
  {
    if es == [] then 0
    else
      var last := es[|es| - 1];
      InCount(es[..|es| - 1], w, done) + (if last.dst == w && last.src !in done then 1 else 0)
  }

  lemma InCountSnoc(s: seq<Edge>, x: Edge, keep: bool, w: nat, done: seq<nat>)
    ensures InCount(s + (if keep then [x] else []), w, done)
         == InCount(s, w, done) + (if keep && x.dst == w && x.src !in done then 1 else 0)
  {
    if keep {
      assert (s + [x])[..|s|] == s;
    } else {
      assert s + [] == s;
    }
  }

  /** The in-degree of `w` is the count of edges into `w` from outside the empty set. */
  lemma {:induction false} InEdgesCount(es: seq<Edge>, w: nat)
    ensures |InEdges(es, w)| == InCount(es, w, [])
  {
    if es != [] {
      InEdgesCount(es[..|es| - 1], w);
    }
  }

  /**
    Outputting `v` releases exactly its out-edges: what still enters `w` from
    outside `done` is what enters it from outside `done + [v]`, plus the edges `v -> w`.
   */
  lemma {:induction false} InCountRelease(es: seq<Edge>, w: nat, done: seq<nat>, v: nat)
    requires v !in done
    ensures InCount(es, w, done) == InCount(es, w, done + [v]) + InCount(OutEdges(es, v), w, [])
  {
    if es != [] {
      var init, last := es[..|es| - 1], es[|es| - 1];
      InCountRelease(init, w, done, v);
      InCountSnoc(OutEdges(init, v), last, last.src == v, w, []);
      assert last.src in done + [v] <==> last.src in done || last.src == v;
    }
  }

  /** A prefix of `s` has no more edges into `w` than `s`. */
  lemma {:induction false} InCountPrefix(s: seq<Edge>, j: nat, w: nat)
    requires j <= |s|
    ensures InCount(s[..j], w, []) <= InCount(s, w, [])
  {
    if j < |s| {
      var init := s[..|s| - 1];
      assert s[..j] == init[..j];
      InCountPrefix(init, j, w);
    } else {
      assert s[..j] == s;
    }
  }

  /** No edge left entering `w` from outside `done`: all its in-neighbours are in `done`. */
  lemma {:induction false} InCountZero(es: seq<Edge>, w: nat, done: seq<nat>)
    requires InCount(es, w, done) == 0
    ensures forall e :: e in es && e.dst == w ==> e.src in done
  {
    if es != [] {
      InCountZero(es[..|es| - 1], w, done);
      forall e | e in es && e.dst == w ensures e.src in done {
        if e != es[|es| - 1] {
          var k :| 0 <= k < |es| && es[k] == e;
          assert es[..|es| - 1][k] == e;
        }
      }
    }
  }

  /** Some edge still enters `w` from outside `done`: `w` has an in-neighbour outside `done`. */
  lemma {:induction false} InCountPositive(es: seq<Edge>, w: nat, done: seq<nat>) returns (e: Edge)
    requires InCount(es, w, done) > 0
    ensures e in es && e.dst == w && e.src !in done
  {
    var init, last := es[..|es| - 1], es[|es| - 1];
    if last.dst == w && last.src !in done {
      e := last;
    } else {
      e := InCountPositive(init, w, done);
      var k :| 0 <= k < |init| && init[k] == e;
      assert es[k] == e;
    }
  }

  /** Every in-neighbour of an output node was output before it. */
  ghost predicate Topological(g: Graph, order: seq<nat>) {
    forall k, e :: 0 <= k < |order| && e in g.edges && e.dst == order[k] ==> e.src in order[..k]
  }

  /** A node whose in-neighbours are all output may be output next. */
  lemma TopologicalSnoc(g: Graph, order: seq<nat>, v: nat)
    requires Topological(g, order)
    requires forall e :: e in g.edges && e.dst == v ==> e.src in order
    ensures Topological(g, order + [v])
  {
    var t := order + [v];
    forall k, e | 0 <= k < |t| && e in g.edges && e.dst == t[k] ensures e.src in t[..k] {
      if k < |order| {
        assert t[k] == order[k] && t[..k] == order[..k];
      } else {
        assert t[..k] == order;
      }
    }
  }

  /** The position of `x` in `s`. */
  ghost function IndexOf(s: seq<nat>, x: nat): (k: nat)
    requires x in s
    ensures k < |s| && s[k] == x
  {
    var k :| 0 <= k < |s| && s[k] == x; k
  }

  /** Along a path through output nodes, positions in a topological order strictly increase. */
  lemma {:induction false} PathClimbs(g: Graph, order: seq<nat>, p: seq<nat>, k: nat)
    requires Distinct(order) && Topological(g, order) && IsPath(g, p)
    requires forall i :: 0 <= i < |p| ==> p[i] in order
    requires 0 < k < |p|
    ensures IndexOf(order, p[0]) < IndexOf(order, p[k])
  {
    assert HasArc(g, p[k - 1], p[k]);
    var e :| e in g.edges && e.src == p[k - 1] && e.dst == p[k];
    var pk := IndexOf(order, p[k]);
    assert e.src in order[..pk];
    var i :| 0 <= i < pk && order[..pk][i] == e.src;
    assert IndexOf(order, p[k - 1]) == i;
    if k > 1 {
      PathClimbs(g, order, p, k - 1);
    }
  }

  /** A topological order of all nodes rules out any cycle. */
  lemma TopologicalAcyclic(g: Graph, order: seq<nat>)
    requires Distinct(order) && Topological(g, order)
    requires forall v: nat :: v < |g.weights| ==> v in order
    ensures Acyclic(g)
  {
    forall p | IsPath(g, p) && |p| > 1 ensures p[0] != p[|p| - 1] {
      PathClimbs(g, order, p, |p| - 1);
    }
  }

  /** Every node not in `done` still has an edge entering it from outside `done`. */
  ghost predicate Stuck(g: Graph, done: seq<nat>) {
    forall v: nat :: v < |g.weights| && v !in done ==> InCount(g.edges, v, done) > 0
  }

  /**
    A walk of `len` nodes, all outside `done`, ending in `w`, built backwards
    from in-neighbours outside `done`.
   */
  lemma {:induction false} BackWalk(g: Graph, done: seq<nat>, w: nat, len: nat) returns (p: seq<nat>)
    requires g.Valid() && w < |g.weights| && w !in done && len >= 1 && Stuck(g, done)
    ensures IsPath(g, p) && |p| == len
    ensures forall k :: 0 <= k < |p| ==> p[k] !in done
  {
    if len == 1 {
      p := [w];
    } else {
      var q := BackWalk(g, done, w, len - 1);
      var e := InCountPositive(g.edges, q[0], done);
      p := [e.src] + q;
      assert HasArc(g, p[0], p[1]);
      forall k | 0 <= k < |p| - 1 ensures HasArc(g, p[k], p[k + 1]) {
        if k > 0 {
          assert p[k] == q[k - 1] && p[k + 1] == q[k];
        }
      }
      forall k | 0 <= k < |p| ensures p[k] !in done {
        if k > 0 {
          assert p[k] == q[k - 1];
        }
      }
    }
  }

  /** If every node not yet output still has an in-neighbour not yet output, the graph has a cycle. */
  lemma StuckMeansCycle(g: Graph, done: seq<nat>, w: nat)
    requires g.Valid() && w < |g.weights| && w !in done && Stuck(g, done)
    ensures !Acyclic(g)
  {
    var p := BackWalk(g, done, w, |g.weights| + 1);
    var i, j := LongPathRepeats(g, p);
    SubPath(g, p, i, j + 1);
    var c := p[i..j + 1];
    assert c[0] == p[i] && c[|c| - 1] == p[j];
  }

  /** Moving the top of the stack onto the output keeps all entries distinct. */
  lemma DistinctMoveLast(a: seq<nat>, b: seq<nat>)
    requires Distinct(a + b) && b != []
    ensures b[|b| - 1] !in a
    ensures Distinct(a + [b[|b| - 1]] + b[..|b| - 1])
  {
    var s, c := a + b, a + [b[|b| - 1]] + b[..|b| - 1];
    forall k | 0 <= k < |a| ensures a[k] != b[|b| - 1] {
      assert s[k] == a[k] && s[|s| - 1] == b[|b| - 1];
    }
    forall i, j | 0 <= i < j < |c| ensures c[i] != c[j] {
      var fi := if i < |a| then i else if i == |a| then |s| - 1 else i - 1;
      var fj := if j < |a| then j else if j == |a| then |s| - 1 else j - 1;
      assert c[i] == s[fi] && c[j] == s[fj];
    }
  }

  /** Appending a node not yet present keeps the entries distinct. */
  lemma DistinctSnoc(s: seq<nat>, x: nat)
    requires Distinct(s) && x !in s
    ensures Distinct(s + [x])
  {
    var t := s + [x];
    forall i, j | 0 <= i < j < |t| ensures t[i] != t[j] {
      assert t[i] == s[i];
    }
  }

  /**
    The seeding loop of the sort: every node's in-degree goes into the table,
    and the nodes with none are pushed.
   */
  method SeedInDegrees(g: Graph, nodes: seq<Option<nat>>, indeg: array<nat>) returns (stack: seq<nat>)
    requires IndexedNodes(g, nodes) && indeg.Length == |g.weights|
    modifies indeg
    ensures forall w :: 0 <= w < indeg.Length ==> indeg[w] == InCount(g.edges, w, [])
    ensures forall w: nat :: w in stack <==> w < indeg.Length && indeg[w] == 0
    ensures forall k :: 0 <= k < |stack| ==> stack[k] < indeg.Length
    ensures Distinct(stack)
  {
    stack := [];
    var i := 0;
    while i < |nodes|
      invariant 0 <= i <= |nodes|
      invariant forall w :: 0 <= w < i ==> indeg[w] == InCount(g.edges, w, [])
      invariant forall w: nat :: w in stack <==> w < i && indeg[w] == 0
      invariant forall k :: 0 <= k < |stack| ==> stack[k] < i
      invariant Distinct(stack)
    {
      var node := nodes[i].value;
      InEdgesCount(g.edges, node);
      indeg[node] := |InEdges(g.edges, node)|;
      if indeg[node] == 0 {
        DistinctSnoc(stack, node);
        stack := stack + [node];
      }
      i := i + 1;
    }
  }

  /**
    The inner loop of the sort: each out-edge of the popped node takes one off
    its target's remaining in-degree, and a target whose count reaches zero is
    pushed.
   */
  method ReleaseTargets(g: Graph, indeg: array<nat>, outs: seq<Edge>, ghost order: seq<nat>, stack: seq<nat>)
    returns (stack': seq<nat>)
    requires g.Valid() && indeg.Length == |g.weights|
    requires forall e :: e in outs ==> e in g.edges
    requires forall k :: 0 <= k < |stack| ==> stack[k] < indeg.Length
    requires Distinct(order + stack)
    requires forall w :: 0 <= w < indeg.Length ==>
               indeg[w] == InCount(g.edges, w, order) + InCount(outs, w, [])
    requires forall w: nat :: w < indeg.Length ==> (w in order || w in stack <==> indeg[w] == 0)
    modifies indeg
    ensures forall w :: 0 <= w < indeg.Length ==> indeg[w] == InCount(g.edges, w, order)
    ensures forall k :: 0 <= k < |stack'| ==> stack'[k] < indeg.Length
    ensures Distinct(order + stack')
    ensures forall w: nat :: w < indeg.Length ==> (w in order || w in stack' <==> indeg[w] == 0)
  {
    stack' := stack;
    var j := 0;
    while j < |outs|
      invariant 0 <= j <= |outs|
      invariant forall k :: 0 <= k < |stack'| ==> stack'[k] < indeg.Length
      invariant Distinct(order + stack')
      invariant forall w :: 0 <= w < indeg.Length ==>
                  indeg[w] + InCount(outs[..j], w, []) == InCount(g.edges, w, order) + InCount(outs, w, [])
      invariant forall w: nat :: w < indeg.Length ==> (w in order || w in stack' <==> indeg[w] == 0)
    {
      var m := outs[j].dst;
      InCountSnoc(outs[..j], outs[j], true, m, []);
      assert outs[..j + 1] == outs[..j] + [outs[j]];
      InCountPrefix(outs, j + 1, m);
      indeg[m] := indeg[m] - 1;
      if indeg[m] == 0 {
        assert m !in order + stack';
        DistinctSnoc(order + stack', m);
        assert order + stack' + [m] == order + (stack' + [m]);
        stack' := stack' + [m];
      }
      j := j + 1;
    }
    assert outs[..j] == outs;
  }

  /**
    Kahn's algorithm with the re-check done on what is left of the graph: a
    table of remaining in-degrees, seeded from the graph, is decremented for each
    out-edge of a popped node, and a target is pushed when its count reaches
    zero. The output lists no node twice, lists every in-neighbour of a node
    before it, and lists every node exactly when the graph is acyclic.
   */
  method KahnSort(g: Graph, nodes: seq<Option<nat>>) returns (order: seq<nat>)
    requires g.Valid() && IndexedNodes(g, nodes)
    ensures Distinct(order)
    ensures forall k :: 0 <= k < |order| ==> order[k] < |g.weights|
    ensures Topological(g, order)
    ensures Acyclic(g) <==> forall v: nat :: v < |g.weights| ==> v in order
  {
    var n := |g.weights|;
    var indeg := new nat[n];
    var stack: seq<nat> := SeedInDegrees(g, nodes, indeg);
    order := [];
    assert order + stack == stack;
    while stack != []
      invariant forall k :: 0 <= k < |order| ==> order[k] < n
      invariant forall k :: 0 <= k < |stack| ==> stack[k] < n
      invariant Distinct(order + stack)
      invariant forall w :: 0 <= w < n ==> indeg[w] == InCount(g.edges, w, order)
      invariant forall w: nat :: w < n ==> (w in order || w in stack <==> indeg[w] == 0)
      invariant Topological(g, order)
      decreases n - |order|
    {
      DistinctBound(order + stack, n);
      var v := stack[|stack| - 1];
      ghost var prev := order;
      DistinctMoveLast(order, stack);
      stack := stack[..|stack| - 1];
      InCountZero(g.edges, v, order);
      TopologicalSnoc(g, order, v);
      order := order + [v];
      var outs := OutEdges(g.edges, v);
      forall w | 0 <= w < n
        ensures indeg[w] == InCount(g.edges, w, order) + InCount(outs, w, [])
      {
        InCountRelease(g.edges, w, prev, v);
      }
      stack := ReleaseTargets(g, indeg, outs, order, stack);
    }
    assert order + stack == order;
    if Acyclic(g) {
      forall w: nat | w < n ensures w in order {
        if w !in order {
          StuckMeansCycle(g, order, w);
        }
      }
    } else if forall v: nat :: v < n ==> v in order {
      TopologicalAcyclic(g, order);
    }
  }

  // ---------------------------------------------------------------------------
  // The two-node chain 0 -> 1

  function Chain(): (g: Graph)
    ensures g.Valid() && IndexedNodes(g, [Some(0), Some(1)])
  {
    Graph([0, 1], [Edge(0, 1, false)])
  }

  /** The chain has no cycle: every arc leaves 0 and enters 1. */
  lemma ChainAcyclic()
    ensures Acyclic(Chain())
  {
    var g := Chain();
    forall p | IsPath(g, p) && |p| > 1 ensures p[0] != p[|p| - 1] {
      assert HasArc(g, p[0], p[1]);
      assert HasArc(g, p[|p| - 2], p[|p| - 1]);
    }
  }

  /** As written, only the source 0 is output: node 1 is never released. */
  method ChainTopoSort() returns (order: seq<nat>)
    ensures order == [0]
  {
    var g := Chain();
    ghost var rounds;
    order, rounds := TopoSort(g, [Some(0), Some(1)]);
    assert IsSource(g, 0);
    assert !IsSource(g, 1) by {
      assert g.edges[0] in g.edges;
    }
    assert 0 in order;
    forall k | 0 <= k < |order| ensures order[k] < 1 {
      assert order[k] in order;
    }
    DecreasingBound(order, 1);
  }

  /** With the remaining in-degrees, both nodes are output, 0 before 1. */
  method ChainKahnSort() returns (order: seq<nat>)
    ensures order == [0, 1]
  {
    var g := Chain();
    ChainAcyclic();
    order := KahnSort(g, [Some(0), Some(1)]);
    assert 0 in order && 1 in order;
    DistinctBound(order, 2);
    var k := IndexOf(order, 1);
    assert g.edges[0] in g.edges;
    assert 0 in order[..k];
    assert k == 1 && order[0] == 0;
  }
}
