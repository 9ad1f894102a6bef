# Kosaraju assignment on petgraph: a Dafny model

The program is an unfinished assignment in Rust. It is meant to compute the
strongly connected components of a directed graph with Kosaraju's algorithm
and report the sizes of the five largest. Its graphs are petgraph
`DiGraph<usize, bool>` values: a `usize` weight per node and a `bool` weight
per edge. Next to the graph, the program keeps a `nodes` slice that lists the
node indices in the order they were added. Three routines contain real logic:

- `graph_reverse` copies the node weights into a fresh graph. It then adds an
  edge `target -> source` with weight `false` for every edge `source -> target`
  of the input.
- `DFS_iter` is an iterative depth-first search from `nodes[0]` with an
  explicit stack and an `explored` flag per node. It appears twice, once in
  each source file.
- The second file's `topo_sort` is a Kahn-style ordering. It seeds a stack
  with the nodes that have no incoming edge and pops them into `order`.

`kosaraju` and the main file's `topo_sort` are stubs. The first returns five
zeros; the second returns a copy of its input.

The model is split into three modules:

- `Graphs` (`graphs.dfy`) is the graph store as a value:
  - node weights `seq<nat>` and edges `Edge(src, dst, flag)`;
  - out-edge and in-edge filters, and the `position` lookup;
  - edge multiplicities (`ArcCount`, and the multiset `Arcs`);
  - paths, reachability and cycles.
- `Kosaraju` (`kosaraju.dfy`) covers the main file:
  - the reversal, as a method that builds the result edge by edge;
  - the search, as a method over a `bool` array;
  - the two stubs, and the example graph that `main` builds.
- `Unused` (`unused.dfy`) covers the second file:
  - the Kahn-style sort as written, and the search copy;
  - a corrected Kahn sort that keeps a table of remaining in-degrees, proved
    against its specification (see "Findings").

`nodes` is a `seq<Option<nat>>`. `main` builds it so that `nodes[i]` is node
`i`, and every operation takes that as a precondition (`IndexedNodes`). Under
it, the linear `position` lookup is the identity. petgraph does not document
the order in which `edges(v)` yields out-edges. The model takes edge-list
order, and every edge property is stated over per-pair multiplicities or the
multiset of `(source, target)` pairs, never over edge order.

## Model

| member | source | states |
|---|---|---|
| Graphs.Position | src/main.rs:86-89 | the lookup finds the first slot of `nodes` holding the node, or reports that none does |
| Graphs.PositionFrom | src/main.rs:86-89 | the same scan from a given slot: the first matching slot at or after it, or none |
| Graphs.PositionOfIndexed | src/main.rs:86-89 | when `nodes[i]` is node `i`, the lookup finds every node at its own index, so the `expect` never fires |
| Graphs.OutEdges | src/main.rs:61 | `edges(v)` yields exactly the edges of the graph whose source is `v`, and no more edges than the graph has |
| Graphs.OutEdgesArcs | src/main.rs:61 | `edges(v)` yields every `v -> b` edge as often as the graph holds it, parallel edges included, and no edge from another source |
| Graphs.InEdges | src/unused.rs:15 | `edges_directed(v, Incoming)` yields exactly the edges whose target is `v` |
| Graphs.ArcsSize | src/main.rs:60-64 | every edge is one element of the `(source, target)` multiset: none is lost or duplicated |
| Graphs.ReversalInvolution | src/main.rs:51-65 | turning every edge round twice gives back the original `(source, target)` multiset and the original number of edges |
| Graphs.EdgesBelowStep | src/main.rs:60-61 | visiting node `i` in the reversal adds exactly the out-edges of `i`, counted per `(source, target)` pair |
| Graphs.EdgesBelowAll | src/main.rs:60-64 | once all nodes are visited, every edge has been visited |
| Graphs.ReachableStep | src/main.rs:92-94 | the target of an edge leaving a node reachable from `u` is itself reachable from `u` |
| Graphs.ClosedHoldsReachable | src/main.rs:83-96 | a set of flags closed under following edges, holding the start, holds every node reachable from it |
| Graphs.ExpandedEdgesMark | src/main.rs:90-94 | flagging a new node pushes exactly its out-edges, which bounds the number of pops |
| Graphs.LongPathRepeats | src/unused.rs:22-32 | a path longer than the node count visits some node twice |
| Graphs.DistinctBound | src/unused.rs:22-32 | distinct node indices below the node count number at most the node count |
| Kosaraju.Kosaraju | src/main.rs:44-48 | the component-size routine is a stub: five zeros for every graph |
| Kosaraju.TopoSort | src/main.rs:68-71 | the main file's ordering is a stub: the result has the input's weights and edges |
| Kosaraju.AddReversed | src/main.rs:61-63 | for each out-edge `a -> b`, one edge `b -> a` with weight `false` is appended; the pair counts grow by exactly the turned-round out-edges |
| Kosaraju.ReversalStep | src/main.rs:60-63 | visiting node `i` extends a reversal of the edges of the nodes before `i` to one of the edges of the nodes up to `i` |
| Kosaraju.CopyWeights | src/main.rs:56-58 | the first loop copies the node weights in order: the result equals the input's weights |
| Kosaraju.ReverseEdges | src/main.rs:60-64 | the second loop yields every edge turned round, as many of each pair as the input has of the swapped pair, all of weight `false` and between existing nodes |
| Kosaraju.GraphReverse | src/main.rs:51-66 | the result has the same node count and node weights; every pair `a -> b` occurs as often as `b -> a` in the input; the edge counts are equal; every edge weight is `false` |
| Kosaraju.ReverseTwice | src/main.rs:51-66 | reversing twice gives back the node weights, the `(source, target)` multiset and the edge count of the input |
| Kosaraju.Targets | src/main.rs:92-94 | the targets of the out-edges, one per edge, in order |
| Kosaraju.PushTargets | src/main.rs:92-94 | the stack grows by the target of every out-edge of the popped node |
| Kosaraju.PopExplored | src/main.rs:83-90 | popping an already explored node keeps the search invariant: stacked and flagged nodes are reachable, and every out-neighbour of a flagged node is flagged or stacked |
| Kosaraju.PopExpand | src/main.rs:90-95 | popping an unexplored node, flagging it and pushing its targets keeps the search invariant |
| Kosaraju.PushedReachable | src/main.rs:92-94 | the pushed targets of a reachable node are reachable, like the rest of the stack |
| Kosaraju.PushedCovers | src/main.rs:90-94 | after flagging a node and pushing its targets, every edge out of a flagged node ends at a flagged or stacked node |
| Kosaraju.StartCovered | src/main.rs:82-91 | the start node stays flagged or stacked when the top of the stack is flagged and replaced |
| Kosaraju.UnflaggedMark | src/main.rs:90-91 | setting a new flag takes one off the number of unexplored nodes, which bounds the loop |
| Kosaraju.SearchStep | src/main.rs:84-95 | one round pops the top node `v` and keeps the search invariant; if `v` was already flagged, the flags are unchanged and the stack is the old one without its top; otherwise the new flags are the old ones with only `v`'s flag set, and the new stack is the old one without its top followed by the targets of `v`'s out-edges in order |
| Kosaraju.DfsIter | src/main.rs:74-97 | with a non-empty `nodes`, `explored` has one flag per node, and flag `i` is set exactly when node `i` is reachable from `nodes[0]`; the loop pops at most `1 + edge_count` times |
| Kosaraju.ExampleWellFormed | src/main.rs:8-32 | the example graph has eleven nodes, every edge joins two of them, and `nodes[i]` is node `i` |
| Kosaraju.ExampleEdgesValid | src/main.rs:13-32 | every one of the eighteen example edges joins two of the eleven nodes |
| Kosaraju.ExampleNodesIndexed | src/main.rs:9-12 | the `nodes` table of `main` holds node `i` at slot `i` |
| Kosaraju.ExampleStep | src/main.rs:13-32 | following one example edge from a node reachable from 0 reaches its target |
| Kosaraju.ExampleReachFirst | src/main.rs:14-16 | nodes 2, 4 and 10 are reachable from node 0 |
| Kosaraju.ExampleReachThroughTen | src/main.rs:18-20 | nodes 7, 5 and 9 are reachable from node 0 |
| Kosaraju.ExampleReachThroughFour | src/main.rs:23-28 | nodes 6, 8, 3 and 1 are reachable from node 0 |
| Kosaraju.ExampleAllReachable | src/main.rs:13-32 | every node of the example graph is reachable from node 0 |
| Kosaraju.ExampleSearch | src/main.rs:74-97 | on the example graph the search flags all eleven nodes |
| Unused.PushFreedTargets | src/unused.rs:25-31 | the push at line 29 never happens: each out-edge `n -> m` is itself an incoming edge of `m` in the unchanged graph |
| Unused.DecreasingBound | src/unused.rs:22-33 | strictly decreasing node indices below the node count number at most the node count |
| Unused.TopoSort | src/unused.rs:8-34 | the output is exactly the nodes with no incoming edge, from the highest index to the lowest (so no duplicates), at most `node_count` long; the loop runs once per such node |
| Unused.DfsIter | src/unused.rs:39-61 | the second copy of the search has the same result: the reachability set of `nodes[0]` |
| Unused.TargetIsNotSource | src/unused.rs:28 | the target of any edge has an incoming edge |
| Unused.ExampleHasNoSource | src/main.rs:13-32 | every node of the example graph has an incoming edge |
| Unused.NoSourceNoOrder | src/unused.rs:14-18 | with no source node, nothing is seeded, so the output is empty |
| Unused.ExampleTopoSort | src/unused.rs:8-34 | on the example graph the sort returns nothing |
| Unused.InEdgesCount | src/unused.rs:15 | the number of incoming edges of `w` is the count of edges into `w` |
| Unused.InCountRelease | src/unused.rs:25-27 | outputting `v` consumes exactly the out-edges of `v`: the edges still entering `w` drop by the edges `v -> w` |
| Unused.InCountPrefix | src/unused.rs:25-27 | part of the out-edges never holds more edges into `w` than all of them |
| Unused.InCountZero | src/unused.rs:28 | a remaining in-degree of zero means every in-neighbour has been output |
| Unused.InCountPositive | src/unused.rs:28 | a positive remaining in-degree names an in-neighbour not yet output |
| Unused.TopologicalSnoc | src/unused.rs:23-24 | a node whose in-neighbours are all output may be appended to a topological order |
| Unused.PathClimbs | src/unused.rs:6-8 | along a path, positions in a topological order strictly increase |
| Unused.TopologicalAcyclic | src/unused.rs:6-8 | a topological order of all nodes rules out any cycle |
| Unused.BackWalk | src/unused.rs:22-32 | when every node left has an in-neighbour left, walks of any length exist among the nodes left |
| Unused.StuckMeansCycle | src/unused.rs:22-32 | if every node not output still has an in-neighbour not output, the graph has a cycle |
| Unused.DistinctMoveLast | src/unused.rs:23-24 | moving the top of the stack onto the output keeps all entries distinct |
| Unused.DistinctSnoc | src/unused.rs:29 | pushing a node not yet present keeps all entries distinct |
| Unused.SeedInDegrees | src/unused.rs:14-18 | the in-degree table holds every node's in-degree, and the stack holds, once each, exactly the nodes with none |
| Unused.ReleaseTargets | src/unused.rs:25-31 | each out-edge takes one off its target's remaining in-degree; the targets whose count reaches zero are pushed, once each |
| Unused.KahnSort | src/unused.rs:8-34 | the corrected sort: no node twice, every in-neighbour of an output node comes before it, and every node is output exactly when the graph has no cycle |
| Unused.Chain | src/unused.rs:28 | the two-node chain `0 -> 1` is a well-formed graph with its identity `nodes` table |
| Unused.ChainAcyclic | src/unused.rs:28 | the chain has no cycle |
| Unused.ChainTopoSort | src/unused.rs:28 | as written, the sort outputs only `[0]` on the chain |
| Unused.ChainKahnSort | src/unused.rs:8-34 | the corrected sort outputs `[0, 1]` on the chain |

## Left out

- `main` (src/main.rs:7-42) is not modelled beyond the example graph it builds. It prints the graph, the stub's answer and the reversed graph; printing is I/O.
- petgraph's internals are not modelled: capacity hints, the representation of `NodeIndex` and `EdgeIndex`, and the order in which `edges(v)` yields out-edges. The model uses edge-list order, and every edge property is stated as a count per `(source, target)` pair or as a multiset.
- `gr_cp` in the second file's `topo_sort` (src/unused.rs:20, 27) is left out. Edges are removed from this clone but it is never read again. Its swap-remove index shifting is also left out.
- Kosaraju.Kosaraju: the component computation and the reduction to the five largest sizes are not modelled. The source is a stub returning zeros. The expected `(4, 3, 3, 1, 0)` in the comment at src/main.rs:33 is produced by no code.
- The `recursion_limit` attribute (src/main.rs:1) is a compiler setting.
- Kosaraju.Kosaraju: the widths of `u32` and `usize` are not modelled. The model uses unbounded naturals; no count in the model exceeds the node or edge count.
- Kosaraju.DfsIter: `explored` is returned; the source drops it. The panics are preconditions:
  - an empty `nodes`, since indexing `nodes[0]` panics (src/main.rs:82);
  - a first slot holding `None`, since `expect` fails (src/main.rs:82). `IndexedNodes` makes the first slot node 0;
  - a popped node missing from `nodes`, which `IndexedNodes` rules out (src/main.rs:86-89).
- Kosaraju.DfsIter: it is not a separate clause that flags only go from false to true. Kosaraju.SearchStep states it round by round: each round either leaves the flags unchanged or sets the popped node's flag and no other.
- Kosaraju.SearchStep: one round of the loop body is a method of its own. The search loop in the source is one `while` loop.

## Findings

| source | as written | input that shows it | evidently intended | confidence | as-written member | corrected member |
|---|---|---|---|---|---|---|
| src/unused.rs:28 | after removing `n -> m` from the copy `gr_cp`, the re-check for incoming edges of `m` asks the unchanged `gr`, which still holds `n -> m`; so no node is ever pushed in the main loop, and only the original source nodes are output | the chain `0 -> 1`, with `nodes = [0, 1]`: output `[0]` | ask `gr_cp`, i.e. push `m` once all its incoming edges have been consumed, giving Kahn's topological order, complete exactly on acyclic graphs | not executed | Unused.ChainTopoSort | Unused.KahnSort |
