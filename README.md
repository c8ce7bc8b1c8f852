# Graph algorithms, modelled and verified in Dafny

This project models the textbook graph algorithms of the Python package
`Graph-Algorithms-Python3`. Vertices are dense integers `0..n-1`. Edges are immutable
values, and adjacency is a sequence of per-vertex edge lists. The algorithm objects
become Dafny classes, and their Python lists become `seq` fields that the methods
reassign. The two heap-based helpers, the indexed priority queue and the union-find
structure, are classes over arrays.

Every class method is proved against a value-level specification, which is a function or
predicate over plain sequences. The properties the algorithms promise are proved as
lemmas about those values:
- heap order;
- the inverse position map;
- root preservation under path halving;
- sizes counting the members of a root;
- shortest-path optimality.

Python's `float('inf')` distance is the datatype `Dist = Inf | Fin(int)`. `Plus` models
`inf + w`, and `Exceeds` models the comparison `>` for which `inf > inf` is false.

Modules and files:

| file | module | models |
|---|---|---|
| common.dfy | Common | `Option`, `Result`, `Outcome`, small sequence facts |
| index_min_pq.dfy | PriorityQueue | `IndexMinPQ` (both byte-identical copies) |
| union_find.dfy | UnionFindModule | `UnionFind` |
| directed_edge.dfy | DirectedEdge | the directed `WeightedEdge` |
| edge_weighted_digraph.dfy | EdgeWeightedDigraphs | `EdgeWeightedDigraph` |
| sp_common.dfy | ShortestPathCommon | the shared `_relax` step, `path_to` walk and shortest-path theorem |
| dijkstra_sp.dfy | Dijkstra | `DijkstraSP` |
| depth_first.dfy | DepthFirst | the depth-first search state shared by both topological sorts and the cycle finders |
| finishing_order.dfy | FinishingOrder | strong connectivity, and the closure property of a depth-first finishing order that Kosaraju-Sharir rests on |
| digraph_topological.dfy | DigraphTopological | `TopologicalOrder` of directed_graph_algorithms |
| weighted_topological.dfy | WeightedTopological | `TopologicalOrder` of shortest_path |
| acyclic_sp.dfy | AcyclicShortestPaths | `AcyclicSP` |
| cycle_search.dfy | CycleSearch | the search with `on_stack` and parent links of both cycle finders |
| directed_cycle.dfy | DirectedCycles | `DirectedCycle` |
| edge_weighted_cycle_finder.dfy | EdgeWeightedCycles | `EdgeWeightedCycleFinder` |
| parent_graph.dfy | ParentGraph | the Bellman-Ford invariant: parent cycles, negative cycles, termination of `path_to` |
| relaxation_passes.dfy | RelaxationPasses | why n passes of relaxation leave no edge relaxable without a negative cycle |
| bellman_ford_traditional.dfy | BellmanFordTraditional | the n-pass `BellmanFord` |
| bellman_ford.dfy | BellmanFordQueue | the queue-based `BellmanFord` |
| weighted_edge.dfy | WeightedEdges | the undirected `WeightedEdge` of the spanning-tree algorithms |
| edge_heap.dfy | EdgeHeap | `heapq` over edges, as a multiset |
| weighted_graph.dfy | WeightedGraphs | the adjacency lists of an undirected edge-weighted graph |
| connectivity.dfy | Connectivity | walks, connectivity and forests over a set of edges |
| growing_tree.dfy | GrowingTree | the tree both versions of Prim grow from vertex 0 |
| kruskal.dfy | Kruskal | `KruskalMST` |
| lazy_prim.dfy | LazyPrim | `LazyPrimMST` |
| prim.dfy | PrimInvariants, Prim | `PrimMST` |
| flow_edge.dfy | FlowEdges | `FlowEdge`, with its fixed part as the value `Arc` |
| flow_values.dfy | FlowValues | net flows, residual capacity leaving the source, cut capacities |
| flow_network.dfy | FlowNetworks | `FlowNetwork` |
| augmenting_paths.dfy | AugmentingPaths | the search tree, bottleneck and augmentation of Ford-Fulkerson, on values |
| ford_fulkerson.dfy | FordFulkersons | `FordFulkerson` |
| undirected_graph.dfy | UndirectedGraphs | the undirected `Graph`, its paths and its edge count |
| connected_components.dfy | UndirectedComponents | `ConnectedComponents` |
| undirected_cycle.dfy | UndirectedCycle | the undirected `Cycle` |
| bipartite_validation.dfy | BipartiteValidations | `BipartiteValidation` |
| hamilton_path.dfy | HamiltonPaths | `HamiltonPath` |
| directed_bfs.dfy | BreadthFirst | the directed `DirectedBFS` |
| strong_components.dfy | KosarajuSharir | `StrongComponents`, with the reverse graph it searches first |
| eulerian_graph.dfy | Eulerian | `EulerianGraph`: its multigraph lists, the counting search, the bridge test and the degree checks |
| sap.dfy | ShortestAncestral | `SAP`: the argument check, the two-sided breadth-first search and the ancestor and length it stores |

## Model

| member | source | states |
|---|---|---|
| PriorityQueue.IndexMinPQ.constructor | shortest_path/utils/index_min_pq.py:46-56 | a new queue is valid and empty, and every position entry is -1 |
| PriorityQueue.IndexMinPQ.Contains | shortest_path/utils/index_min_pq.py:58-68 | `contains(i)` holds exactly when `i` is a key of the queue's contents |
| PriorityQueue.IndexMinPQ.NonEmpty | shortest_path/utils/index_min_pq.py:205-212 | `__bool__` is true exactly when the contents are non-empty |
| PriorityQueue.IndexMinPQ.Greater | shortest_path/utils/index_min_pq.py:181-192 | compares the keys held at two heap positions |
| PriorityQueue.IndexMinPQ.Exchange | shortest_path/utils/index_min_pq.py:194-203 | swaps two heap slots and keeps `qp` the inverse of `pq` and the queued set unchanged |
| PriorityQueue.IndexMinPQ.Swim | shortest_path/utils/index_min_pq.py:142-154 | restores heap order from a single too-small entry upward, without changing the queued set |
| PriorityQueue.IndexMinPQ.SmallerChild | shortest_path/utils/index_min_pq.py:165-169 | picks the child with the smaller key, the left one on a tie |
| PriorityQueue.IndexMinPQ.Sink | shortest_path/utils/index_min_pq.py:156-179 | restores heap order from a single too-large entry downward |
| PriorityQueue.IndexMinPQ.Insert | shortest_path/utils/index_min_pq.py:70-88 | an absent index joins the contents with its key, and the size grows by one |
| PriorityQueue.IndexMinPQ.DelMin | shortest_path/utils/index_min_pq.py:90-119 | an empty queue gives the empty-heap error; otherwise a minimum-key index is returned and removed, and every other entry keeps its key |
| PriorityQueue.IndexMinPQ.RemoveRoot | shortest_path/utils/index_min_pq.py:104-119 | the root entry holds a minimum key and leaves the contents |
| PriorityQueue.IndexMinPQ.SinkAndClear | shortest_path/utils/index_min_pq.py:113-119 | after the root swap, sinking restores order and the removed index is no longer queued |
| PriorityQueue.IndexMinPQ.DecreaseKey | shortest_path/utils/index_min_pq.py:121-140 | an absent index or a key that is not strictly smaller is an error and leaves the arrays unchanged; otherwise only that key changes |
| PriorityQueue.SwapInverse | minimum_spanning_tree/utils/index_min_pq.py:194-203 | a swap keeps `qp[pq[k]] == k` on occupied slots and keeps the queued set |
| PriorityQueue.SwimStep | shortest_path/utils/index_min_pq.py:149-154 | one swim swap moves the single order violation one level up |
| PriorityQueue.SwimDone | shortest_path/utils/index_min_pq.py:149 | when the loop guard fails the heap is ordered |
| PriorityQueue.SinkStep | shortest_path/utils/index_min_pq.py:163-179 | one sink swap moves the single order violation one level down |
| PriorityQueue.SinkDone | shortest_path/utils/index_min_pq.py:163-174 | when the sink loop stops the heap is ordered |
| PriorityQueue.RootIsMin | shortest_path/utils/index_min_pq.py:104-105 | in an ordered heap the root key is at most every key |
| PriorityQueue.InsertAtEnd | shortest_path/utils/index_min_pq.py:84-88 | placing a new index at slot n+1 keeps the inverse map and leaves only that slot to swim |
| PriorityQueue.DecreaseAt | shortest_path/utils/index_min_pq.py:132-137 | lowering one key leaves only its slot out of order, upward |
| PriorityQueue.EmptyIffZero | shortest_path/utils/index_min_pq.py:205-212 | the contents are empty exactly when the size is zero |
| PriorityQueue.DropLast | shortest_path/utils/index_min_pq.py:116-117 | clearing the last slot's position removes exactly that index from the queued set |
| PriorityQueue.LastToRoot | shortest_path/utils/index_min_pq.py:107-113 | moving the last entry to the root leaves only the root out of order, downward |
| PriorityQueue.RemovedContents | shortest_path/utils/index_min_pq.py:116-117 | removing an index from the queued set removes exactly it from the contents |
| PriorityQueue.RootHoldsMin | minimum_spanning_tree/utils/index_min_pq.py:100-105 | the root index is queued and carries a minimum key |
| PriorityQueue.HeapSetSize | shortest_path/utils/index_min_pq.py:16 | the first m heap slots hold m distinct indices |
| PriorityQueue.QueueSize | shortest_path/utils/index_min_pq.py:16 | the contents have exactly n entries, all in range |
| UnionFindModule.Find | minimum_spanning_tree/utils/union_find.py:54-72 | following parents ends at a site that is its own parent |
| UnionFindModule.HalvingKeepsFind | minimum_spanning_tree/utils/union_find.py:69-70 | one path-halving write keeps the forest well founded and changes no site's root |
| UnionFindModule.LinkFind | minimum_spanning_tree/utils/union_find.py:122-128 | linking root a under root b sends exactly a's members to b |
| UnionFindModule.LinkMembers | minimum_spanning_tree/utils/union_find.py:122-128 | after linking, b's members are the union of both groups and a has none |
| UnionFindModule.LinkSizes | minimum_spanning_tree/utils/union_find.py:122-128 | the survivor's size grows by the absorbed size and still counts its members; a stops being a root |
| UnionFindModule.HalvingKeepsSizes | minimum_spanning_tree/utils/union_find.py:66-72 | path halving keeps roots, members and size counts |
| UnionFindModule.RootsAreFinds | minimum_spanning_tree/utils/union_find.py:54-72 | every root finds itself and every site finds a root |
| UnionFindModule.AllRoots | minimum_spanning_tree/utils/union_find.py:36 | initially there are n roots |
| UnionFindModule.UnionFind.constructor | minimum_spanning_tree/utils/union_find.py:21-37 | each site is its own root with size 1, and there are n components |
| UnionFindModule.UnionFind.Root | minimum_spanning_tree/utils/union_find.py:54-72 | returns the site's root, and no site's root, no size and no root set changes |
| UnionFindModule.UnionFind.Connected | minimum_spanning_tree/utils/union_find.py:74-95 | an out-of-range site is an error; otherwise the result is whether both roots agree |
| UnionFindModule.UnionFind.Union | minimum_spanning_tree/utils/union_find.py:97-128 | out of range is an error; connected sites change nothing; otherwise the smaller root goes under the larger (q's under p's on a tie), and the count falls by one |
| UnionFindModule.UnionFind.Link | minimum_spanning_tree/utils/union_find.py:122-128 | re-parents root a under b, adds the sizes, and moves exactly a's members |
| UnionFindModule.UnionFind.Components | minimum_spanning_tree/utils/union_find.py:39-52 | one group per root, holding exactly the sites with that root |
| UnionFindModule.UnionFind.Len | minimum_spanning_tree/utils/union_find.py:152-159 | the number of components, which is the number of roots |
| UnionFindModule.GroupStep | minimum_spanning_tree/utils/union_find.py:49-50 | adding site i to its root's group keeps the grouping of the first i+1 sites |
| EdgeWeightedDigraphs.ListedFrom | shortest_path/directed_edge.py:49-56 | `from_edge` of an edge kept in the list of v is v, in every graph built by `add_edge` |
| ShortestPathCommon.ParentTo | shortest_path/directed_edge.py:58-65 | `to_edge` of the parent edge of w is w, and that edge is one of the graph's edges, listed at its `from_edge` |
| DirectedEdge.EdgeOrder | shortest_path/directed_edge.py:67-89 | `<` on weights is a strict order; `==` compares weights only, is an equivalence, and holds exactly when neither edge is less |
| EdgeWeightedDigraphs.EdgeWeightedDigraph.constructor | shortest_path/edge_weighted_digraph.py:11-20 | n empty adjacency lists and no edges |
| EdgeWeightedDigraphs.EdgeWeightedDigraph.AddEdge | shortest_path/edge_weighted_digraph.py:22-31 | `KeyError` exactly when the edge's source is not a vertex, with nothing changed; otherwise the edge is appended to its source's list only and to the end of `edges` |
| EdgeWeightedDigraphs.EdgeWeightedDigraph.Adjacents | shortest_path/edge_weighted_digraph.py:33-43 | `KeyError` exactly for a vertex outside the graph; otherwise the list kept at v, each of whose edges starts at v and is one of the graph's edges |
| EdgeWeightedDigraphs.FlattenAppend | shortest_path/edge_weighted_digraph.py:29-31 | appending to one list adds exactly that edge to the multiset of all listed edges |
| EdgeWeightedDigraphs.AppendBySource | shortest_path/edge_weighted_digraph.py:29-30 | appending an edge to its source's list keeps every list sorted by source |
| EdgeWeightedDigraphs.EmptyLists | shortest_path/edge_weighted_digraph.py:18-20 | empty adjacency lists hold no edges |
| EdgeWeightedDigraphs.InFlatten | shortest_path/edge_weighted_digraph.py:43 | every edge of one list is among all listed edges |
| ShortestPathCommon.Plus | shortest_path/dijkstra_sp.py:40-41 | definition: adding a weight to an infinite distance stays infinite |
| ShortestPathCommon.DistOrder | shortest_path/dijkstra_sp.py:40 | the distance comparison is a total preorder with infinity on top, and adding weights is monotone and associative |
| ShortestPathCommon.Initial | shortest_path/dijkstra_sp.py:18-22 | definition: every distance is infinite except the source's 0, and there are no parent edges |
| ShortestPathCommon.Relax | shortest_path/dijkstra_sp.py:31-42 | definition: the shared `_relax`, where only the target's entries change, and only on a strict improvement |
| ShortestPathCommon.InitialTree | shortest_path/dijkstra_sp.py:18-22 | the initial tree satisfies the parent-edge invariants |
| ShortestPathCommon.RelaxStep | shortest_path/dijkstra_sp.py:38-42 | relaxing keeps parent edges valid (the edge ends at its vertex, and the distance is at most the parent's plus the weight); distances never increase; the state changes exactly when the edge was relaxable |
| ShortestPathCommon.NoShorterPath | shortest_path/dijkstra_sp.py:25-29 | when no edge is relaxable, no path from s to t is shorter than the distance of t |
| ShortestPathCommon.LowerKeepsEdge | shortest_path/dijkstra_sp.py:38-41 | lowering some other distance keeps a non-relaxable edge non-relaxable when its target did not drop |
| ShortestPathCommon.LowerKeepsRelaxed | shortest_path/dijkstra_sp.py:38-41 | the same for all edges of one vertex |
| ShortestPathCommon.ChainStart | shortest_path/dijkstra_sp.py:71-76 | the parent walk ends at a vertex without a parent edge |
| ShortestPathCommon.PathTo | shortest_path/dijkstra_sp.py:71-78 | the walk collects the parent chain, reversed into path order |
| ShortestPathCommon.ChainIsPath | shortest_path/dijkstra_sp.py:71-78 | the parent chain is a path of graph edges ending at v |
| ShortestPathCommon.ChainWeight | shortest_path/dijkstra_sp.py:71-78 | when no edge is relaxable, the parent chain's weight equals the distance |
| ShortestPathCommon.ChainStartIsSource | shortest_path/dijkstra_sp.py:71-78 | the parent chain of a reached vertex starts at the source |
| ShortestPathCommon.ShortestPaths | shortest_path/dijkstra_sp.py:49-78 | for a finite distance the parent chain is a path from the source of exactly that weight; no path from the source is shorter; an infinite vertex has no path |
| Dijkstra.Start | shortest_path/dijkstra_sp.py:18-23 | the initial state with only the source queued meets the loop invariant |
| Dijkstra.Finish | shortest_path/dijkstra_sp.py:26 | taking a minimum-key vertex off the queue and finishing it keeps the invariant |
| Dijkstra.FinishTree | shortest_path/dijkstra_sp.py:26 | finishing a vertex keeps the tree invariants with its new rank |
| Dijkstra.FinishDone | shortest_path/dijkstra_sp.py:26 | the finished set grows by one, and its keys stay below the new floor |
| Dijkstra.FinishQueue | shortest_path/dijkstra_sp.py:26 | the queue invariant holds after removing the minimum |
| Dijkstra.RelaxTarget | shortest_path/dijkstra_sp.py:38-40 | with non-negative weights, an edge of the vertex being finished never improves a finished vertex |
| Dijkstra.RelaxTree | shortest_path/dijkstra_sp.py:38-42 | relaxing keeps the tree invariant |
| Dijkstra.RelaxDone | shortest_path/dijkstra_sp.py:38-42 | relaxing keeps the facts about finished vertices |
| Dijkstra.RelaxQueue | shortest_path/dijkstra_sp.py:44-47 | an improved vertex is queued with key equal to its new distance, by decrease or by insert |
| Dijkstra.QueueKeys | shortest_path/dijkstra_sp.py:44-47 | queued keys still equal distances after one target changes |
| Dijkstra.QueueCovers | shortest_path/dijkstra_sp.py:44-47 | every finite vertex is still finished or queued |
| Dijkstra.RelaxFinished | shortest_path/dijkstra_sp.py:28-29 | after relaxing edge i, edges 0..i of the current vertex and all edges of other finished vertices are not relaxable |
| Dijkstra.RelaxKeeps | shortest_path/dijkstra_sp.py:38-47 | one relaxation keeps the whole loop invariant |
| Dijkstra.Done | shortest_path/dijkstra_sp.py:25 | when the queue is empty, no edge is relaxable |
| Dijkstra.DijkstraSP.constructor | shortest_path/dijkstra_sp.py:10-29 | with non-negative weights, the final state is a shortest-path tree: no edge is relaxable, the source is at 0 without a parent, and parent edges are valid |
| Dijkstra.DijkstraSP.Round | shortest_path/dijkstra_sp.py:25-29 | one iteration of the main loop keeps the invariant and finishes one more vertex |
| Dijkstra.DijkstraSP.TakeNearest | shortest_path/dijkstra_sp.py:26 | the vertex removed from the queue is finished at the smallest queued distance |
| Dijkstra.DijkstraSP.RelaxEdgesOf | shortest_path/dijkstra_sp.py:28-29 | afterwards every edge of every finished vertex is not relaxable |
| Dijkstra.DijkstraSP.Relax | shortest_path/dijkstra_sp.py:31-47 | the tree changes as the shared relax step says, and the queue tracks the improved distance |
| Dijkstra.DijkstraSP.DistTo | shortest_path/dijkstra_sp.py:49-59 | a finite result is the weight of some path from the source, and no path from the source is shorter; infinite means unreachable |
| Dijkstra.DijkstraSP.PathTo | shortest_path/dijkstra_sp.py:61-78 | for a reachable vertex, a path from the source whose weight is the distance, and no path is lighter; for an unreachable one, the empty list |
| DepthFirst.GrowsUnmarked | directed_graph_algorithms/topological_order.py:33 | marking more vertices leaves a subset of the unmarked ones |
| DepthFirst.Start | directed_graph_algorithms/topological_order.py:17-18 | nothing marked, nothing finished and an empty stack is a valid search state |
| DepthFirst.Push | directed_graph_algorithms/topological_order.py:33-36 | marking an unmarked successor of the top of the stack pushes it and keeps the search state |
| DepthFirst.StackWalk | directed_graph_algorithms/topological_order.py:34-36 | the active calls form a walk of the graph |
| DepthFirst.BackEdge | directed_graph_algorithms/directed_cycle.py:59-62 | an edge from the top of the stack to a vertex on it means the graph has a cycle |
| DepthFirst.Pop | directed_graph_algorithms/topological_order.py:37 | finishing the top of the stack once its successors are done keeps the search state, with it finished after them |
| DepthFirst.PrefixIn | directed_graph_algorithms/topological_order.py:37 | a finished vertex stays finished |
| DepthFirst.Complete | directed_graph_algorithms/topological_order.py:20-22 | after the outer loop every vertex is finished exactly once, and in an acyclic graph after all its successors |
| DepthFirst.Reversed | directed_graph_algorithms/topological_order.py:39-47 | the finishing order read back to front puts every edge forward |
| FinishingOrder.FirstExit | directed_graph_algorithms/topological_order.py:34-36 | a walk that starts inside a vertex list and ends outside it crosses out of it over one edge |
| FinishingOrder.Closing | directed_graph_algorithms/topological_order.py:33-37 | appending the top of the stack, once its successors are marked, keeps the finishing order closed: every strongly connected component lying wholly in it reaches nothing outside it |
| FinishingOrder.PopPrefixes | directed_graph_algorithms/topological_order.py:33-37 | the same for every prefix of the finishing order |
| DigraphTopological.TopologicalOrder.constructor | directed_graph_algorithms/topological_order.py:9-22 | every vertex is searched and finished, and every prefix of the finishing order is closed in the above sense |
| DigraphTopological.TopologicalOrder.Dfs | directed_graph_algorithms/topological_order.py:24-37 | the vertex and everything it reaches unfinished gets finished, after its successors, keeping every prefix of the finishing order closed; marks only grow |
| DigraphTopological.TopologicalOrder.GetOrder | directed_graph_algorithms/topological_order.py:39-47 | lists each vertex exactly once, and for an acyclic graph every edge points forward |
| WeightedTopological.Targets | shortest_path/topological_order.py:32-33 | the successor lists are the edge targets, list by list |
| WeightedTopological.TargetsClosed | shortest_path/topological_order.py:32-34 | for a well-formed graph every target is a vertex |
| WeightedTopological.TopologicalOrder.constructor | shortest_path/topological_order.py:9-21 | every vertex is searched and finished |
| WeightedTopological.TopologicalOrder.Dfs | shortest_path/topological_order.py:23-36 | the vertex and everything it reaches unfinished gets finished, after its successors |
| WeightedTopological.TopologicalOrder.GetOrder | shortest_path/topological_order.py:38-45 | lists each vertex exactly once, and for an acyclic graph every edge points forward |
| AcyclicShortestPaths.PositionsOf | shortest_path/acyclic_sp.py:22-25 | a topological order gives each vertex a position, every edge going to a later one |
| AcyclicShortestPaths.Later | shortest_path/acyclic_sp.py:25-27 | an edge of the vertex at position k never points at a vertex already processed |
| AcyclicShortestPaths.Start | shortest_path/acyclic_sp.py:17-21 | the initial tree meets the loop invariant with nothing processed |
| AcyclicShortestPaths.RelaxKeeps | shortest_path/acyclic_sp.py:26-27 | relaxing one more edge of the current vertex keeps the loop invariant |
| AcyclicShortestPaths.Done | shortest_path/acyclic_sp.py:25-27 | after every vertex in topological order, no edge is relaxable |
| AcyclicShortestPaths.AcyclicSP.constructor | shortest_path/acyclic_sp.py:10-27 | on every graph, each parent edge is a graph edge into its vertex, whose finite distance is at least the parent's plus the weight, and every vertex but the source with a finite distance has a parent; on an acyclic graph the final state is a shortest-path tree from the source |
| AcyclicShortestPaths.AcyclicSP.RelaxEdgesOf | shortest_path/acyclic_sp.py:26-27 | relaxes every edge of the vertex at position k, keeping the invariant |
| AcyclicShortestPaths.AcyclicSP.Relax | shortest_path/acyclic_sp.py:29-40 | the tree changes as the shared relax step says |
| AcyclicShortestPaths.AcyclicSP.DistTo | shortest_path/acyclic_sp.py:42-52 | a finite result is the weight of a path from the source and no path is lighter; infinite means unreachable |
| AcyclicShortestPaths.AcyclicSP.PathTo | shortest_path/acyclic_sp.py:54-71 | for a reachable vertex, a lightest path from the source; otherwise the empty list |
| CycleSearch.RecordedCycle | shortest_path/cycle_finder.py:64-78 | a recorded vertex list whose last vertex repeats means the graph has a cycle |
| CycleSearch.Begin | shortest_path/cycle_finder.py:17-22 | the state before the first search is a valid tracing state |
| CycleSearch.Enter | shortest_path/cycle_finder.py:46-47 | marking v and putting it on the stack keeps the stack marks and parent links in step |
| CycleSearch.Link | shortest_path/cycle_finder.py:55-57 | giving an unmarked vertex its parent changes nothing on the stack |
| CycleSearch.Leave | shortest_path/cycle_finder.py:62 | taking v off the stack once its successors are finished keeps the state, v finished after them |
| CycleSearch.Close | shortest_path/cycle_finder.py:59-60 | an edge into a vertex on the stack closes a cycle: the stack followed by that vertex is a cycle record |
| CycleSearch.Descends | shortest_path/cycle_finder.py:49-62 | along a walk of finished vertices the finishing positions strictly decrease |
| CycleSearch.PostorderedAcyclic | shortest_path/cycle_finder.py:23-27 | a postorder holding every vertex rules out cycles |
| CycleSearch.NoCycle | shortest_path/cycle_finder.py:23-27 | a search that marks everything without finding a cycle proves the graph acyclic |
| DirectedCycles.DirectedCycle.constructor | directed_graph_algorithms/directed_cycle.py:9-27 | a cycle is recorded exactly when the graph has one, and a recorded one is a cycle record |
| DirectedCycles.DirectedCycle.HasCycle | directed_graph_algorithms/directed_cycle.py:29-37 | true exactly when the graph has a cycle |
| DirectedCycles.DirectedCycle.Dfs | directed_graph_algorithms/directed_cycle.py:40-62 | either records a cycle or finishes v and leaves the search state valid |
| DirectedCycles.DirectedCycle.Scan | directed_graph_algorithms/directed_cycle.py:51-62 | scans v's successors, stopping once a cycle is known, then finishes v |
| DirectedCycles.DirectedCycle.Step | directed_graph_algorithms/directed_cycle.py:55-60 | an unmarked successor is searched, one on the stack closes a cycle, and a finished one is skipped |
| DirectedCycles.DirectedCycle.GetCyclePath | directed_graph_algorithms/directed_cycle.py:64-78 | records the stack followed by w, a cycle record |
| DirectedCycles.DirectedCycle.GetCycle | directed_graph_algorithms/directed_cycle.py:80-91 | None exactly for an acyclic graph, otherwise a cycle record |
| EdgeWeightedCycles.EdgeWeightedCycleFinder.constructor | shortest_path/cycle_finder.py:10-27 | a cycle is recorded exactly when the graph has one |
| EdgeWeightedCycles.EdgeWeightedCycleFinder.HasCycle | shortest_path/cycle_finder.py:29-36 | true exactly when the graph has a cycle |
| EdgeWeightedCycles.EdgeWeightedCycleFinder.Dfs | shortest_path/cycle_finder.py:38-62 | either records a cycle or finishes v and leaves the search state valid |
| EdgeWeightedCycles.EdgeWeightedCycleFinder.Scan | shortest_path/cycle_finder.py:49-62 | scans v's edges, stopping once a cycle is known, then finishes v |
| EdgeWeightedCycles.EdgeWeightedCycleFinder.Step | shortest_path/cycle_finder.py:53-60 | an unmarked target is searched, one on the stack closes a cycle, and a finished one is skipped |
| EdgeWeightedCycles.EdgeWeightedCycleFinder.GetCyclePath | shortest_path/cycle_finder.py:64-78 | records the stack followed by w, a cycle record |
| EdgeWeightedCycles.EdgeWeightedCycleFinder.GetCycle | shortest_path/cycle_finder.py:80-90 | None exactly for an acyclic graph, otherwise a cycle record |
| ParentGraph.Before | shortest_path/bellman_ford.py:77-80 | definition: the cyclic predecessor along a cycle of parent links |
| ParentGraph.ParentEdges | shortest_path/bellman_ford.py:77-80 | the parent edges along a parent cycle, in cycle order |
| ParentGraph.InitialSlack | shortest_path/bellman_ford.py:19-28 | the initial parent links have no cycle at all |
| ParentGraph.RelaxSlack | shortest_path/bellman_ford.py:56-58 | relaxing an edge keeps some relaxable parent edge on every parent cycle |
| ParentGraph.ThroughSlack | shortest_path/bellman_ford.py:56-58 | a parent cycle through the new parent edge contains a relaxable edge |
| ParentGraph.AvoidSlack | shortest_path/bellman_ford.py:56-58 | a parent cycle avoiding the target keeps a relaxable edge |
| ParentGraph.SelfLoopSlack | shortest_path/bellman_ford.py:56-58 | a self-loop that was taken as parent edge was negative, and stays relaxable |
| ParentGraph.NoParentCycle | shortest_path/bellman_ford_traditional.py:65-71 | once no edge is relaxable, the parent links have no cycle |
| ParentGraph.SlackCycleNegative | shortest_path/bellman_ford.py:82 | a parent cycle with a relaxable edge is a negative-weight cycle of the graph |
| ParentGraph.NegativeAround | shortest_path/bellman_ford.py:82 | a cycle on which every edge is tight or better, and one strictly better, has negative weight |
| ParentGraph.CycleBounds | shortest_path/bellman_ford.py:77-80 | every vertex of a parent cycle has a finite distance and a graph edge as parent |
| ParentGraph.CycleWalk | shortest_path/bellman_ford.py:77-80 | the parent edges of a cycle join up into a closed path of graph edges |
| ParentGraph.Potentials | shortest_path/bellman_ford.py:56 | the finite distances along a parent cycle |
| ParentGraph.BeforePotential | shortest_path/bellman_ford.py:56 | the potential of a cycle vertex's predecessor is its parent's distance |
| ParentGraph.CycleEdge | shortest_path/bellman_ford.py:56-58 | each parent edge of a cycle is a graph edge from the predecessor, no shorter than the distances say |
| ParentGraph.Telescope | shortest_path/bellman_ford.py:56 | the weights along a stretch of the cycle add up to at most the drop in distance, strictly when one edge is slack |
| ParentGraph.Pigeonhole | shortest_path/bellman_ford.py:135-137 | a vertex list longer than the number of vertices repeats one |
| ParentGraph.FindCycle | shortest_path/bellman_ford.py:135-137 | parent links followed for more than n steps without reaching a root contain a parent cycle |
| ParentGraph.RootsWithin | shortest_path/bellman_ford.py:135-137 | without parent cycles, following parents from any vertex reaches a root within n steps |
| ParentGraph.DepthStable | shortest_path/bellman_ford.py:135-137 | the depth counted with more steps allowed stays the same |
| ParentGraph.RanksExist | shortest_path/bellman_ford.py:135-137 | without parent cycles, each vertex gets a rank one more than its parent's, so `path_to` terminates |
| ParentGraph.InitialWitnessed | shortest_path/bellman_ford.py:19-28 | initially each finite distance has a walk of exactly that weight |
| ParentGraph.RelaxWitnessed | shortest_path/bellman_ford.py:56-58 | relaxing extends the parent's walk by the edge, keeping every finite distance witnessed |
| ParentGraph.SourceZero | shortest_path/bellman_ford_traditional.py:65-71 | with no edge relaxable and a walk behind every distance, the source is still at 0 |
| ParentGraph.SoundInitial | shortest_path/bellman_ford.py:19-28 | the initial state meets the Bellman-Ford invariant |
| ParentGraph.SoundRelax | shortest_path/bellman_ford.py:56-58 | relaxing a graph edge keeps the Bellman-Ford invariant |
| ParentGraph.SoundFinish | shortest_path/bellman_ford_traditional.py:65-71 | once no edge is relaxable, the tree is a shortest-path tree from the source |
| ParentGraph.CycleFromSource | shortest_path/bellman_ford.py:69-82 | a cycle of parent links means a negative cycle reachable from the source |
| ParentGraph.NoNegativeCycleFrom | shortest_path/bellman_ford_traditional.py:29-31 | a shortest-path tree rules out a negative cycle reachable from the source |
| BellmanFordTraditional.BellmanFord.constructor | shortest_path/bellman_ford_traditional.py:10-31 | after n passes the flag is set exactly when an edge is still relaxable, which is exactly when a negative cycle is reachable from the source; without it the tree is a shortest-path tree |
| BellmanFordTraditional.BellmanFord.RelaxEdgesOf | shortest_path/bellman_ford_traditional.py:26-27 | relaxing every edge of one vertex keeps the invariant, and leaves each of those edges covered: its target no further than its source was at the start of the pass, plus its weight |
| BellmanFordTraditional.BellmanFord.Relax | shortest_path/bellman_ford_traditional.py:43-54 | the tree changes as the shared relax step says, and the walks follow it |
| BellmanFordTraditional.BellmanFord.DetectNegativeCycle | shortest_path/bellman_ford_traditional.py:56-71 | the flag is set exactly when some edge is still relaxable, and nothing else changes |
| BellmanFordTraditional.BellmanFord.HasNegativeCycle | shortest_path/bellman_ford_traditional.py:33-40 | true exactly when an edge is still relaxable, and exactly when a negative cycle is reachable from the source |
| RelaxationPasses.InitialBounded | shortest_path/bellman_ford_traditional.py:18-22 | before the first pass, every walk of no edges from the source is bounded by its end's distance |
| RelaxationPasses.PassStart | shortest_path/bellman_ford_traditional.py:24-25 | a pass starts with no edge covered and no distance raised |
| RelaxationPasses.CoverStep | shortest_path/bellman_ford_traditional.py:26-27 | relaxing the next edge of v covers it, keeps the earlier ones covered and raises no distance |
| RelaxationPasses.CoverNext | shortest_path/bellman_ford_traditional.py:25-27 | once every edge of v is covered, the pass has covered every edge of the vertices up to v |
| RelaxationPasses.PassDone | shortest_path/bellman_ford_traditional.py:24-27 | a pass that covers every edge turns a bound on walks of k edges into one on walks of k + 1 edges |
| RelaxationPasses.Shorten | shortest_path/bellman_ford_traditional.py:24 | without a negative cycle reachable from the source, every walk from it has one to the same end of fewer than n edges, no heavier |
| RelaxationPasses.WeightJoin | shortest_path/bellman_ford_traditional.py:52-53 | the weight of two walks joined is the sum of their weights |
| RelaxationPasses.EdgeSettled | shortest_path/bellman_ford_traditional.py:64-71 | after n passes, with no negative cycle reachable from the source, the given edge cannot be relaxed |
| RelaxationPasses.PassesSuffice | shortest_path/bellman_ford_traditional.py:24-30 | after n passes, with no negative cycle reachable from the source, no edge can be relaxed, so `_detect_negative_cycle` leaves the flag clear |
| BellmanFordTraditional.BellmanFord.DistTo | shortest_path/bellman_ford_traditional.py:73-86 | None when flagged; otherwise a finite distance is the weight of a path and no path is lighter |
| BellmanFordTraditional.BellmanFord.HasPathTo | shortest_path/bellman_ford_traditional.py:88-98 | a finite distance, which always has a walk behind it; unflagged, exactly when a path exists |
| BellmanFordTraditional.BellmanFord.PathTo | shortest_path/bellman_ford_traditional.py:100-121 | None when flagged; otherwise a lightest path from the source, empty when unreachable |
| BellmanFordQueue.SubgraphStep | shortest_path/bellman_ford.py:77-80 | an edge u to x of the parent subgraph is x's parent edge and a graph edge |
| BellmanFordQueue.SubgraphCycle | shortest_path/bellman_ford.py:80-82 | a cycle record of the parent subgraph is a cycle record of the graph and contains a parent cycle |
| BellmanFordQueue.SubgraphWalk | shortest_path/bellman_ford.py:76-80 | a walk along parent edges is a walk of the graph |
| BellmanFordQueue.SubgraphParents | shortest_path/bellman_ford.py:80-82 | the part of such a walk after the first visit of its last vertex is a cycle of parent edges |
| BellmanFordQueue.Enqueue | shortest_path/bellman_ford.py:60-62 | the queue grows by the target at the back exactly when it improved and was not waiting |
| BellmanFordQueue.StartQueue | shortest_path/bellman_ford.py:26-28 | the source alone is queued and every other vertex cannot lower anything |
| BellmanFordQueue.Dequeue | shortest_path/bellman_ford.py:31-32 | taking the front vertex off keeps the marks in step and every other off-queue vertex relaxed |
| BellmanFordQueue.HandledStep | shortest_path/bellman_ford.py:53-62 | after one more edge of v, every off-queue vertex but v is relaxed, and v's first edges are unless it was queued again |
| BellmanFordQueue.QueueStep | shortest_path/bellman_ford.py:60-62 | appending an improved target keeps the queue distinct and the marks in step |
| BellmanFordQueue.HandledSettled | shortest_path/bellman_ford.py:53-67 | once all of v's edges are handled, every vertex off the queue is relaxed |
| BellmanFordQueue.EmptyQueue | shortest_path/bellman_ford.py:30 | an empty queue means no edge can lower a distance |
| BellmanFordQueue.ListParent | shortest_path/bellman_ford.py:77-79 | adding a parent edge to the subgraph keeps every listed edge a parent edge |
| BellmanFordQueue.ParentSubgraph | shortest_path/bellman_ford.py:76-79 | a well-formed digraph over the same vertices listing only parent edges |
| BellmanFordQueue.BellmanFord.constructor | shortest_path/bellman_ford.py:12-34 | the invariant holds; when the loop stops a reported cycle is a negative cycle reachable from the source, an empty queue gives a shortest-path tree |
| BellmanFordQueue.BellmanFord.RelaxVertex | shortest_path/bellman_ford.py:45-67 | every vertex off the queue ends with its edges relaxed, and any recorded cycle is a negative one |
| BellmanFordQueue.BellmanFord.RelaxEdge | shortest_path/bellman_ford.py:54-62 | the tree changes as the shared relax step says and the queue as `Enqueue` says |
| BellmanFordQueue.BellmanFord.FindNegativeCycle | shortest_path/bellman_ford.py:69-82 | a recorded cycle is a cycle record of a negative cycle reachable from the source; nothing else changes |
| BellmanFordQueue.BellmanFord.HasNegativeCycle | shortest_path/bellman_ford.py:36-43 | true exactly when a negative cycle is reachable from the source |
| BellmanFordQueue.BellmanFord.NegativeCycle | shortest_path/bellman_ford.py:84-92 | a cycle record exactly when a negative cycle is reachable |
| BellmanFordQueue.BellmanFord.DistTo | shortest_path/bellman_ford.py:94-107 | Inf with a cycle; otherwise a finite distance is a path weight and no path is lighter |
| BellmanFordQueue.BellmanFord.HasPathTo | shortest_path/bellman_ford.py:109-119 | a finite distance, which always has a walk behind it; without a cycle, exactly when a path exists |
| BellmanFordQueue.BellmanFord.PathTo | shortest_path/bellman_ford.py:121-142 | None with a cycle; otherwise a lightest path from the source, empty when unreachable |
| WeightedEdges.Either | minimum_spanning_tree/weighted_edge.py:49-56 | `either()` gives an endpoint of the edge, the one given first |
| WeightedEdges.Other | minimum_spanning_tree/weighted_edge.py:58-73 | `other(x)` gives the opposite endpoint of either endpoint; an argument that is no endpoint gets the first endpoint back, with no error |
| WeightedEdges.OtherOther | minimum_spanning_tree/weighted_edge.py:58-73 | going to the other end twice returns to the endpoint one started from |
| WeightedEdges.EdgeCompare | minimum_spanning_tree/weighted_edge.py:75-97 | `<` is a strict order on weights; `==` is an equivalence that holds exactly when neither edge is lighter, whatever the endpoints |
| EdgeHeap.MinimumExists | minimum_spanning_tree/kruskal.py:26 | a non-empty heap of edges holds an edge no heavier than any other |
| EdgeHeap.HeapPop | minimum_spanning_tree/kruskal.py:26 | `heappop` returns a lightest edge of the heap and removes one copy of it |
| GrowingTree.AcceptForest | minimum_spanning_tree/lazy_prim.py:32-36 | an edge from a marked vertex to an unmarked one joins no two vertices the tree already connects, so the tree stays a forest |
| GrowingTree.AcceptMarked | minimum_spanning_tree/lazy_prim.py:36-43 | after adding that edge and marking its far end, every tree edge is a graph edge between marked vertices |
| GrowingTree.AcceptJoined | minimum_spanning_tree/lazy_prim.py:36-43 | after adding that edge and marking its far end, the tree connects every marked vertex to vertex 0 |
| GrowingTree.FinishReached | minimum_spanning_tree/lazy_prim.py:26-43 | every marked vertex is connected to vertex 0 in the graph |
| GrowingTree.ClosedMarks | minimum_spanning_tree/lazy_prim.py:26-43 | when every edge at a marked vertex ends at marked vertices, every vertex connected to 0 is marked |
| Kruskal.TracksStart | minimum_spanning_tree/kruskal.py:20 | with every site its own root, two sites share a root exactly when the empty tree connects them |
| Kruskal.MergedJoined | minimum_spanning_tree/kruskal.py:30-31 | two sites that share a root after a union are connected by the tree with the new edge |
| Kruskal.TracksUnion | minimum_spanning_tree/kruskal.py:30-32 | after the union of the edge's ends, sharing a root still means exactly being connected by the grown tree |
| Kruskal.OneRoot | minimum_spanning_tree/kruskal.py:25 | with a single root left, every two sites share it |
| Kruskal.AppendKeeps | minimum_spanning_tree/kruskal.py:30-32 | an edge between unconnected ends, no lighter than the tree's edges, keeps the tree a forest in weight order |
| Kruskal.PoppedGrow | minimum_spanning_tree/kruskal.py:26-32 | popped edges whose ends the tree connects stay connected as the tree grows |
| Kruskal.Unite | minimum_spanning_tree/kruskal.py:30-31 | `connected` then `union`: the roots merge exactly when the two sites had different roots, and the component count drops by one; otherwise nothing changes |
| Kruskal.PushAll | minimum_spanning_tree/kruskal.py:22-23 | the heap holds every graph edge, as often as it is listed |
| Kruskal.InvStart | minimum_spanning_tree/kruskal.py:18-23 | the loop invariant holds with every edge on the heap, an empty tree and n components |
| Kruskal.HeapStep | minimum_spanning_tree/kruskal.py:26 | popping a lightest edge keeps the graph's edges split between heap and popped edges, and the tree no heavier than the heap |
| Kruskal.UniteStep | minimum_spanning_tree/kruskal.py:30-32 | an accepted edge keeps the roots tracking the tree, the tree a sorted forest and every popped edge's ends connected |
| Kruskal.InvStep | minimum_spanning_tree/kruskal.py:25-32 | one turn of the loop keeps the invariant, whether the edge is kept or dropped |
| Kruskal.InvFinish | minimum_spanning_tree/kruskal.py:25-32 | when the loop stops the tree is a sorted forest of graph edges, fewer than n, connecting the ends of every graph edge |
| Kruskal.Round | minimum_spanning_tree/kruskal.py:26-32 | one turn pops a lightest edge, shrinking the heap, and keeps it exactly when its ends were not connected, preserving the invariant |
| Kruskal.KruskalMST.constructor | minimum_spanning_tree/kruskal.py:11-32 | the result is a spanning forest of the graph, in the order the edges were chosen |
| Kruskal.KruskalMST.Edges | minimum_spanning_tree/kruskal.py:34-41 | the tree's edges: a forest of graph edges, lightest first, connecting the ends of every graph edge |
| LazyPrim.PushedMembers | minimum_spanning_tree/lazy_prim.py:56-58 | `_visit` pushes exactly the listed edges whose end opposite the vertex is unmarked |
| LazyPrim.PushedStep | minimum_spanning_tree/lazy_prim.py:56-58 | one more listed edge is pushed exactly when its other end is unmarked |
| LazyPrim.InvStart | minimum_spanning_tree/lazy_prim.py:17-23 | after `_visit(0)` the loop invariant holds with an empty tree |
| LazyPrim.SkipKeeps | minimum_spanning_tree/lazy_prim.py:31-33 | dropping a popped edge whose ends are both marked keeps the invariant |
| LazyPrim.AcceptHeap | minimum_spanning_tree/lazy_prim.py:39-43 | after visiting the unmarked end, every heap edge is a graph edge with a marked end |
| LazyPrim.AcceptClosed | minimum_spanning_tree/lazy_prim.py:39-43 | after visiting the unmarked end, every edge at a marked vertex has both ends marked or is on the heap |
| LazyPrim.AcceptKeeps | minimum_spanning_tree/lazy_prim.py:35-43 | accepting an edge with an unmarked end and visiting that end keeps the invariant, with the tree one edge longer |
| LazyPrim.InvFinish | minimum_spanning_tree/lazy_prim.py:26-43 | when the loop stops, the marked vertices are exactly those connected to 0, and the tree has one edge fewer than there are marked vertices |
| LazyPrim.FinishEmpty | minimum_spanning_tree/lazy_prim.py:26 | once the heap is empty, every vertex connected to 0 is marked |
| LazyPrim.LazyPrimMST.constructor | minimum_spanning_tree/lazy_prim.py:10-43 | the result: a forest of graph edges spanning the component of vertex 0 |
| LazyPrim.LazyPrimMST.Step | minimum_spanning_tree/lazy_prim.py:26-43 | one pass keeps the invariant, and either shrinks the heap or grows the tree by one edge |
| LazyPrim.LazyPrimMST.Accept | minimum_spanning_tree/lazy_prim.py:35-43 | the popped edge joins the tree and its unmarked end is visited, keeping the invariant |
| LazyPrim.LazyPrimMST.Visit | minimum_spanning_tree/lazy_prim.py:46-58 | the vertex becomes marked, and the heap gains exactly the vertex's edges to unmarked vertices |
| LazyPrim.LazyPrimMST.Edges | minimum_spanning_tree/lazy_prim.py:60-67 | a forest of graph edges spanning the component of vertex 0, one edge fewer than the marked vertices |
| PrimInvariants.InitialDist | minimum_spanning_tree/prim.py:20-25 | distance 0 at vertex 0 and infinity everywhere else |
| PrimInvariants.MarkedParentsMark | minimum_spanning_tree/prim.py:40 | marking a vertex adds its parent edge, if it has one, to the marked vertices' parent edges |
| PrimInvariants.MarkedParentsUnmarked | minimum_spanning_tree/prim.py:49 | changing an unmarked vertex's parent edge leaves the marked vertices' parent edges alone |
| PrimInvariants.MarkedParentsAll | minimum_spanning_tree/prim.py:64 | when only marked vertices have parent edges, those are all the edges `edges()` lists |
| PrimInvariants.InvStart | minimum_spanning_tree/prim.py:18-26 | with nothing marked, no parents and vertex 0 alone on the heap with key 0, the invariant holds |
| PrimInvariants.NoParents | minimum_spanning_tree/prim.py:64 | without parent edges `edges()` is empty |
| PrimInvariants.MarkQueue | minimum_spanning_tree/prim.py:29-40 | marking the vertex just removed from the heap keeps every queued vertex unmarked with its distance as its key; vertex 0 comes first |
| PrimInvariants.MarkParents | minimum_spanning_tree/prim.py:40 | marking a vertex with a finite distance keeps the parent-edge facts |
| PrimInvariants.MarkCut | minimum_spanning_tree/prim.py:40 | marking x keeps every edge at an earlier marked vertex offered |
| PrimInvariants.MarkTree | minimum_spanning_tree/prim.py:40 | marking the removed vertex grows the tree by its parent edge, keeping a forest that connects every marked vertex to 0 |
| PrimInvariants.MarkKeeps | minimum_spanning_tree/prim.py:29-40 | removing the minimum and marking it starts the scan of its edges with the invariant intact |
| PrimInvariants.ScanMarked | minimum_spanning_tree/prim.py:45-46 | an edge to a marked vertex changes nothing and counts as offered |
| PrimInvariants.ScanHeavier | minimum_spanning_tree/prim.py:48 | an edge no lighter than the far end's distance changes nothing and counts as offered |
| PrimInvariants.ScanStep | minimum_spanning_tree/prim.py:42-55 | each of the three cases of the loop body keeps the scan invariant, one edge further |
| PrimInvariants.FarEnd | minimum_spanning_tree/prim.py:43 | the far end of a listed edge is a vertex, and its far end is the vertex one started from |
| PrimInvariants.ScanLighter | minimum_spanning_tree/prim.py:48-55 | a lighter edge to an unmarked vertex becomes its parent, with its weight as distance and heap key, keeping the scan invariant |
| PrimInvariants.OfferQueue | minimum_spanning_tree/prim.py:52-55 | a queued vertex gets a strictly smaller key, and an absent one fits in the heap |
| PrimInvariants.ScanParents | minimum_spanning_tree/prim.py:49-50 | the new parent edge and distance keep the parent-edge facts |
| PrimInvariants.ScanQueue | minimum_spanning_tree/prim.py:50-55 | the new key keeps the heap in step with the distances |
| PrimInvariants.ScanCut | minimum_spanning_tree/prim.py:48-55 | a lower distance keeps every edge already offered offered |
| PrimInvariants.ScanDone | minimum_spanning_tree/prim.py:42-55 | once every edge of x is offered, the invariant between visits holds again |
| PrimInvariants.EmptyQueue | minimum_spanning_tree/prim.py:28 | with the heap empty, vertex 0 is marked, only marked vertices have parents, and every edge at a marked vertex has both ends marked |
| PrimInvariants.InvFinish | minimum_spanning_tree/prim.py:28-29 | with the heap empty, the marked vertices are exactly those connected to 0, exactly they have parent edges, and those edges are the tree |
| PrimInvariants.Reordered | minimum_spanning_tree/prim.py:64 | the parent edges in vertex order hold the same edges as the tree, as many, all graph edges |
| Prim.PrimMST.constructor | minimum_spanning_tree/prim.py:11-29 | the result: the marked vertices are the component of 0, each of them but 0 has a parent edge, and the parent edges form a spanning forest of it |
| Prim.PrimMST.Visit | minimum_spanning_tree/prim.py:32-55 | the removed vertex is marked and all its edges offered, keeping the invariant, with one more marked vertex |
| Prim.PrimMST.Mark | minimum_spanning_tree/prim.py:40 | the vertex becomes marked and the tree gains its parent edge; parents and distances are unchanged |
| Prim.PrimMST.OfferAll | minimum_spanning_tree/prim.py:42-55 | offering every edge of v ends with the invariant between visits, the marks unchanged |
| Prim.PrimMST.Offer | minimum_spanning_tree/prim.py:43-55 | an edge to an unmarked vertex lighter than its distance becomes its parent, with its weight as distance and heap key; anything else changes nothing |
| Prim.PrimMST.Enqueue | minimum_spanning_tree/prim.py:52-55 | `decrease_key` or `insert`: the heap's contents map w to the new key, nothing else changes |
| Prim.PrimMST.Edges | minimum_spanning_tree/prim.py:57-64 | the parent edges in vertex order: graph edges forming a spanning forest of 0's component, one fewer than the marked vertices |
| FlowEdges.OtherEnd | flow_network/flow_edge.py:78-96 | succeeds exactly for an endpoint, and then gives an endpoint that differs from the one given unless the edge is a loop; `ValueError` for any other vertex |
| FlowEdges.Residual | flow_network/flow_edge.py:98-116 | succeeds exactly for an endpoint; for a flow within bounds the residual capacity lies between 0 and the capacity |
| FlowEdges.Shift | flow_network/flow_edge.py:118-134 | succeeds exactly for an endpoint; `ValueError` for any other vertex |
| FlowEdges.ShiftBounds | flow_network/flow_edge.py:98-134 | pushing no more than the residual capacity toward an endpoint keeps the flow between 0 and the capacity |
| FlowEdges.ShiftResiduals | flow_network/flow_edge.py:98-134 | on an edge that is not a loop, pushing d toward x lowers the residual capacity toward x by d and raises it toward the other end by d |
| FlowEdges.ShiftBack | flow_network/flow_edge.py:78-134 | pushing d toward x and then d toward the other end restores the flow |
| FlowEdges.OtherOther | flow_network/flow_edge.py:78-96 | the other end of the other end is the endpoint one started from |
| FlowEdges.FlowEdge.constructor | flow_network/flow_edge.py:6-18 | a new edge has the given endpoints and capacity and carries no flow |
| FlowEdges.FlowEdge.Other | flow_network/flow_edge.py:78-96 | `other(v)` is w, `other(w)` is v, and any other vertex fails |
| FlowEdges.FlowEdge.ResidualCapacityTo | flow_network/flow_edge.py:98-116 | the flow toward v, the capacity less the flow toward w, and a failure for any other vertex |
| FlowEdges.FlowEdge.AddResidualFlowTo | flow_network/flow_edge.py:118-134 | the flow drops by delta toward v and grows by delta toward w; any other vertex fails with the flow unchanged |
| FlowValues.SlackNonNegative | flow_network/ford_fulkerson.py:23-36 | the residual capacity leaving the source, the measure that makes the main loop stop, is never negative |
| FlowValues.ValueIsCut | flow_network/ford_fulkerson.py:48-56 | a balanced flow that fills every edge out of the marked side and empties every edge into it carries the cut's capacity into the target |
| FlowValues.CutBoundsValue | flow_network/ford_fulkerson.py:6-8 | no balanced flow within bounds carries more into the target than the capacity of a cut separating it from the source |
| FlowValues.CutCapacityFixed | flow_network/ford_fulkerson.py:48-56 | the capacity of a cut depends on the marked vertices only, not on the flow |
| AugmentingPaths.BottleStep | flow_network/ford_fulkerson.py:27-29 | one step of the bottleneck loop takes the parent edge's residual capacity into the minimum and moves to the parent, which was queued earlier |
| AugmentingPaths.AugStep | flow_network/ford_fulkerson.py:32-34 | one step of the augmentation loop pushes along the parent edge and moves to the parent, which was queued earlier |
| AugmentingPaths.EdgeOnce | flow_network/ford_fulkerson.py:31-34 | the edges along a path from the target are distinct, so each is pushed once |
| AugmentingPaths.BottleBound | flow_network/ford_fulkerson.py:24-29 | from a vertex other than the source the bottleneck is finite, every edge of the path can carry it, and it is no more than the starting amount |
| AugmentingPaths.BottleTight | flow_network/ford_fulkerson.py:24-29 | the bottleneck is the largest amount every edge of the path can carry, unless it is the starting amount |
| AugmentingPaths.BottlePositive | flow_network/ford_fulkerson.py:24-29 | over a tree of edges with positive residual capacity (line 83), the bottleneck is positive |
| AugmentingPaths.AugNet | flow_network/ford_fulkerson.py:31-34 | augmenting by d raises the net flow into the end of the path by d, lowers it at the source by d, and changes no other vertex |
| AugmentingPaths.AugBounds | flow_network/ford_fulkerson.py:31-34 | augmenting by an amount the path can carry keeps every edge that was within its bounds within them |
| AugmentingPaths.AugSlack | flow_network/ford_fulkerson.py:31-34 | augmenting by d lowers the residual capacity leaving the source by exactly d |
| AugmentingPaths.AugmentProgress | flow_network/ford_fulkerson.py:23-36 | a round raises the value by the bottleneck, which is positive, keeps conservation at every other vertex and the bounds of every edge, and strictly lowers the residual capacity leaving the source |
| AugmentingPaths.ClosedSaturated | flow_network/ford_fulkerson.py:79-88 | when no edge with residual capacity leaves the marked vertices, every edge out of them is full and every edge into them is empty |
| AugmentingPaths.MaxFlowMinCut | flow_network/ford_fulkerson.py:10-36 | when the loop started from a balanced flow and stops, the value equals the capacity of the cut around the marked vertices, and no flow within bounds carries more into the target |
| AugmentingPaths.FrontierStart | flow_network/ford_fulkerson.py:72-77 | the search starts with only the source marked and queued |
| AugmentingPaths.MarkQueue | flow_network/ford_fulkerson.py:85-86 | marking and queueing a new vertex keeps every marked vertex in the queue exactly once, at its rank |
| AugmentingPaths.MarkTree | flow_network/ford_fulkerson.py:82-85 | marking w through an edge with residual capacity toward it from the vertex being explored keeps the tree and its open edges |
| AugmentingPaths.MarkStep | flow_network/ford_fulkerson.py:82-86 | one marking step keeps the whole search state |
| AugmentingPaths.FrontierClosed | flow_network/ford_fulkerson.py:79-88 | once the queue is empty, no edge with residual capacity leads from a marked vertex to an unmarked one |
| AugmentingPaths.FrontierBound | flow_network/ford_fulkerson.py:79-80 | the queue never holds more entries than there are vertices, so the search stops |
| FlowNetworks.AttachKeeps | flow_network/flow_network.py:21-31 | appending an edge at both of its ends keeps every listed edge at one of its ends and every edge listed at both |
| FlowNetworks.ListedEdge | flow_network/flow_network.py:33-43 | an edge listed at u is one of the network's edges and has u as an end |
| FlowNetworks.ListingWithin | flow_network/flow_network.py:21-31 | every edge of the network has both ends among its vertices |
| FlowNetworks.FlowNetwork.constructor | flow_network/flow_network.py:11-19 | a new network has n empty lists and no edges |
| FlowNetworks.FlowNetwork.AddEdge | flow_network/flow_network.py:21-31 | appends the edge at its first end and then at its second; a first end outside the network fails with nothing changed, a second end outside it fails after the first append; success keeps the listing valid |
| FlowNetworks.FlowNetwork.Adjacents | flow_network/flow_network.py:33-43 | the list at v, each of whose edges has v as an end; `KeyError` exactly for a vertex outside the network |
| FordFulkersons.MarkedBelow | flow_network/ford_fulkerson.py:56 | the marked vertices below k, in increasing order |
| FordFulkersons.LinkedExtend | flow_network/ford_fulkerson.py:84 | recording an edge as the parent of a newly marked vertex keeps the parent edge objects in step with `via` |
| FordFulkersons.HandledAllUpTo | flow_network/ford_fulkerson.py:81-86 | once every edge listed at v has been looked at, every edge at v with residual capacity toward its other end leads to a marked vertex |
| FordFulkersons.Consider | flow_network/ford_fulkerson.py:82-86 | marks, records and queues the far end of an edge exactly when it has residual capacity toward it and is unmarked; keeps the search state |
| FordFulkersons.Explore | flow_network/ford_fulkerson.py:80-86 | exploring the next queued vertex keeps the search state with one more vertex done |
| FordFulkersons.Search | flow_network/ford_fulkerson.py:72-86 | the marked vertices form a tree of edges with residual capacity toward the vertices they reach, and no such edge leaves them |
| FordFulkersons.PushAlong | flow_network/ford_fulkerson.py:33 | pushing along one edge changes its flow and no other edge's |
| FordFulkersons.FordFulkerson.constructor | flow_network/ford_fulkerson.py:10-36 | the value is what the augmentations carried from s to t, conservation and bounds are kept, s is marked and t is not, no edge with residual capacity leaves the marked vertices, and from a balanced start the value is a maximum flow equal to the cut's capacity |
| FordFulkersons.FordFulkerson.Round | flow_network/ford_fulkerson.py:23-36 | one turn of the main loop: when a path is found the residual capacity leaving the source drops, otherwise the target is unmarked and the cut is closed |
| FordFulkersons.FordFulkerson.Improve | flow_network/ford_fulkerson.py:24-36 | pushing the bottleneck and adding it to the value keeps the loop invariant and lowers the residual capacity leaving the source |
| FordFulkersons.FordFulkerson.HasAugmentingPath | flow_network/ford_fulkerson.py:58-88 | resets the search, leaves the flows alone and reports whether the target was marked |
| FordFulkersons.FordFulkerson.Bottleneck | flow_network/ford_fulkerson.py:24-29 | the minimum residual capacity of the parent edges from t back to s |
| FordFulkersons.FordFulkerson.Augment | flow_network/ford_fulkerson.py:31-34 | the flows afterwards are the augmentation of the flows before along the parent edges from t back to s |
| FordFulkersons.FordFulkerson.InCut | flow_network/ford_fulkerson.py:48-56 | `in_cut`: exactly the marked vertices, in increasing order |
| UndirectedGraphs.ConnectedRefl | undirected_graph_algorithms/connected_components.py:36-37 | every vertex is connected to itself by the one-vertex path |
| UndirectedGraphs.ConnectedStep | undirected_graph_algorithms/connected_components.py:38-40 | a path to u extends to every neighbour of u |
| UndirectedGraphs.ConnectedSym | undirected_graph_algorithms/graph.py:39-40 | when every edge is in the sets of both ends, connectivity is symmetric |
| UndirectedGraphs.ConnectedTrans | undirected_graph_algorithms/connected_components.py:54 | two paths that meet join their ends |
| UndirectedGraphs.UniformPath | undirected_graph_algorithms/connected_components.py:36-40 | a labelling equal across every edge is equal along every path |
| UndirectedGraphs.UniformConnected | undirected_graph_algorithms/connected_components.py:54 | connected vertices carry equal labels under such a labelling |
| UndirectedGraphs.DegreeSumUpdate | undirected_graph_algorithms/graph.py:28 | replacing one set changes the degree sum by the change in that set's size |
| UndirectedGraphs.JoinAt | undirected_graph_algorithms/graph.py:39-40 | `add_edge` puts w in the set of v and v in the set of w and changes no other set |
| UndirectedGraphs.SplitAt | undirected_graph_algorithms/graph.py:51-52 | removing v-w takes w from the set of v and v from the set of w and changes no other set |
| UndirectedGraphs.InLinks | undirected_graph_algorithms/graph.py:28 | a pair is an edge between different vertices exactly when it is ordered and in the sets |
| UndirectedGraphs.Relink | undirected_graph_algorithms/graph.py:39-52 | sets that differ only in the edge v-w have that one edge, or that one loop, more or fewer |
| UndirectedGraphs.Resymmetric | undirected_graph_algorithms/graph.py:39-52 | changing the edge v-w in both sets at once keeps every edge in the sets of both of its ends |
| UndirectedGraphs.DegreeSumJoin | undirected_graph_algorithms/graph.py:39-40 | a new edge between different vertices adds two to the degree sum |
| UndirectedGraphs.DegreeSumSplit | undirected_graph_algorithms/graph.py:51-52 | removing an edge between different vertices takes two from the degree sum |
| UndirectedGraphs.JoinLink | undirected_graph_algorithms/graph.py:39-40 | a new edge between different vertices keeps the sets symmetric and the degree count, and adds exactly that edge |
| UndirectedGraphs.JoinLoop | undirected_graph_algorithms/graph.py:39-40 | a new loop keeps the sets symmetric and the degree count, and adds exactly that loop |
| UndirectedGraphs.JoinAgain | undirected_graph_algorithms/graph.py:39-40 | adding an edge that is there already changes nothing |
| UndirectedGraphs.SplitCount | undirected_graph_algorithms/graph.py:51-52 | removing an edge between different vertices that is there keeps symmetry and the count, and removes exactly that edge |
| UndirectedGraphs.UnloopCount | undirected_graph_algorithms/graph.py:51 | taking a loop out of its vertex's set keeps symmetry and the count, and removes exactly that loop |
| UndirectedGraphs.SplitLoop | undirected_graph_algorithms/graph.py:51-52 | removing a loop is one removal from one set |
| UndirectedGraphs.SplitJoin | undirected_graph_algorithms/graph.py:39-52 | removing an edge just added, between vertices it did not join, restores the sets |
| UndirectedGraphs.EmptyCount | undirected_graph_algorithms/graph.py:16-17 | the empty sets of a new graph are symmetric, counted, and have no edges and no loops |
| UndirectedGraphs.EmptySum | undirected_graph_algorithms/graph.py:16-28 | empty sets have degree sum 0 |
| UndirectedGraphs.Widest | undirected_graph_algorithms/graph.py:88 | a vertex among the first k whose set is at least as large as every other's |
| UndirectedGraphs.Graph.constructor | undirected_graph_algorithms/graph.py:8-17 | n empty sets, with no edges and no loops |
| UndirectedGraphs.Graph.NumberOfEdges | undirected_graph_algorithms/graph.py:19-28 | the halved degree sum is the number of edges between different vertices plus half the number of loops, since a loop adds one to the sum |
| UndirectedGraphs.Graph.AddEdge | undirected_graph_algorithms/graph.py:30-40 | a first vertex outside the graph fails with nothing changed, a second one fails after the first insertion; otherwise both insertions happen, symmetry and the count are kept, re-adding changes nothing, and a new edge or loop is added exactly |
| UndirectedGraphs.Graph.RemoveEdge | undirected_graph_algorithms/graph.py:42-52 | as written: `KeyError` for a missing vertex or edge, and for a self-loop, after the loop has been taken out of the set; an edge between different vertices is removed from both sets |
| UndirectedGraphs.Graph.RemoveEdgeCorrected | undirected_graph_algorithms/graph.py:42-52 | the removal as intended: a missing vertex or edge fails with nothing changed, and any present edge, loops included, is removed exactly, keeping symmetry and the count |
| UndirectedGraphs.Graph.Adjacents | undirected_graph_algorithms/graph.py:54-65 | the neighbours of v, which are the vertices whose sets hold v; `KeyError` exactly outside the graph |
| UndirectedGraphs.Graph.Degree | undirected_graph_algorithms/graph.py:67-78 | the size of the set of v; `KeyError` exactly outside the graph |
| UndirectedGraphs.Graph.MaxDegree | undirected_graph_algorithms/graph.py:80-88 | fails exactly on a graph without vertices, where `max` of an empty list raises; otherwise a degree at least every other, which some vertex has |
| UndirectedComponents.Begin | undirected_graph_algorithms/connected_components.py:21-23 | the least unmarked vertex starts a new search, numbered after all earlier ones |
| UndirectedComponents.MarkNumbered | undirected_graph_algorithms/connected_components.py:36-37 | marking a vertex reached from the current root with the current number keeps every marked vertex connected to the root of its number |
| UndirectedComponents.MarkSpread | undirected_graph_algorithms/connected_components.py:36-37 | marking an unmarked vertex keeps every finished vertex's neighbours marked with its own number |
| UndirectedComponents.Mark | undirected_graph_algorithms/connected_components.py:36-37 | marking and pushing a vertex reached from the current root keeps the search state |
| UndirectedComponents.Top | undirected_graph_algorithms/connected_components.py:36-38 | the vertex on top of the stack is marked with the stack's number |
| UndirectedComponents.GrowsAllMarked | undirected_graph_algorithms/connected_components.py:36 | marks are never cleared, so a set of marked vertices stays marked |
| UndirectedComponents.AllMarkedTake | undirected_graph_algorithms/connected_components.py:38-40 | after its search, the neighbour just looked at is marked too |
| UndirectedComponents.Finish | undirected_graph_algorithms/connected_components.py:38-40 | once all neighbours of v are marked, they carry v's number, and v is finished |
| UndirectedComponents.Ended | undirected_graph_algorithms/connected_components.py:22-24 | a finished search leaves every vertex up to its root marked and every marked vertex finished |
| UndirectedComponents.RootsAbove | undirected_graph_algorithms/connected_components.py:21-24 | the i-th root is at least i |
| UndirectedComponents.Components | undirected_graph_algorithms/connected_components.py:21-40 | once every vertex is marked and finished, two vertices share a number exactly when a path joins them, and each number is at most its vertex |
| UndirectedComponents.ConnectedComponents.constructor | undirected_graph_algorithms/connected_components.py:9-24 | every vertex is marked with a number below the count, equal numbers mean connected and the other way round, each number is its root's, and `id[v] <= v` |
| UndirectedComponents.ConnectedComponents.Visit | undirected_graph_algorithms/connected_components.py:21-24 | a vertex no earlier search reached starts a search numbered `component`, and afterwards every vertex up to it is marked |
| UndirectedComponents.ConnectedComponents.Dfs | undirected_graph_algorithms/connected_components.py:26-40 | marks v and everything reached from it with the current number, never clearing a mark |
| UndirectedComponents.ConnectedComponents.Neighbours | undirected_graph_algorithms/connected_components.py:38-40 | afterwards every neighbour of v is marked |
| UndirectedComponents.ConnectedComponents.Step | undirected_graph_algorithms/connected_components.py:39-40 | afterwards the neighbour w is marked |
| UndirectedComponents.ConnectedComponents.Connected | undirected_graph_algorithms/connected_components.py:42-54 | whether a path joins v and w; `IndexError` exactly outside the graph |
| UndirectedComponents.ConnectedComponents.Count | undirected_graph_algorithms/connected_components.py:56-64 | the number of searches: every vertex is numbered below it and each number below it has its root |
| UndirectedComponents.ConnectedComponents.IdVertex | undirected_graph_algorithms/connected_components.py:66-78 | the number of v's component, below the count and at most v; `IndexError` exactly outside the graph |
| UndirectedCycle.RecordedCycle | undirected_graph_algorithms/cycle.py:75-79 | a recorded list contains a cycle of the graph: a self-loop or a ring of three or more distinct vertices |
| UndirectedCycle.TakeOne | undirected_graph_algorithms/cycle.py:52 | one more neighbour looked at |
| UndirectedCycle.Start | undirected_graph_algorithms/cycle.py:20-22 | nothing marked and no parent links is a search state |
| UndirectedCycle.Enter | undirected_graph_algorithms/cycle.py:51 | marking v, whose parent link names the top of the stack, and pushing it keeps the search state, and v has no child yet |
| UndirectedCycle.Link | undirected_graph_algorithms/cycle.py:57 | `edge_to[adjacent] = current_vertex` for an unmarked neighbour keeps the search state |
| UndirectedCycle.Leave | undirected_graph_algorithms/cycle.py:52-63 | a vertex whose neighbours are all looked at is finished: tied to each, as its parent or its child |
| UndirectedCycle.OnPath | undirected_graph_algorithms/cycle.py:60-63 | a marked neighbour that is not the parent and was not looked at yet is on the stack |
| UndirectedCycle.TopLink | undirected_graph_algorithms/cycle.py:57-58 | the parent link of the top of the stack, and so `parent_vertex`, names the entry below it, or nothing for a root |
| UndirectedCycle.Close | undirected_graph_algorithms/cycle.py:60-79 | the stack followed by such a neighbour is a recorded cycle |
| UndirectedCycle.KeptTrans | undirected_graph_algorithms/cycle.py:57 | parent links of marked vertices, once kept, stay kept |
| UndirectedCycle.Reparent | undirected_graph_algorithms/cycle.py:57 | linking an unmarked vertex changes no marked vertex's link |
| UndirectedCycle.Adopt | undirected_graph_algorithms/cycle.py:56-58 | after the search from a child, the child is looked at and v has no other new child |
| UndirectedCycle.FreshStep | undirected_graph_algorithms/cycle.py:56-58 | the vertices a search from a child reached hang from vertices reached after v was |
| UndirectedCycle.Deepest | undirected_graph_algorithms/cycle.py:57 | an index of p whose vertex is at least as deep as every other in p |
| UndirectedCycle.RingRepeats | undirected_graph_algorithms/cycle.py:52-63 | on a ring of three or more after a finished search, the ring neighbours of the deepest vertex are both its parent, so the ring repeats a vertex |
| UndirectedCycle.NoRing | undirected_graph_algorithms/cycle.py:52-63 | a finished search without a cycle leaves no self-loop and no ring |
| UndirectedCycle.Complete | undirected_graph_algorithms/cycle.py:24-28 | once every vertex is marked without a cycle, the graph is a forest |
| UndirectedCycle.Cycle.constructor | undirected_graph_algorithms/cycle.py:12-28 | a cycle is recorded exactly when the graph has one, and then it is a recorded cycle |
| UndirectedCycle.Cycle.Dfs | undirected_graph_algorithms/cycle.py:41-63 | either records a cycle, or marks v and leaves it finished, the links of earlier vertices kept and every new vertex hanging from a new one |
| UndirectedCycle.Cycle.Scan | undirected_graph_algorithms/cycle.py:52-63 | either records a cycle, or looks at every neighbour of v |
| UndirectedCycle.Cycle.Step | undirected_graph_algorithms/cycle.py:53-63 | an unmarked neighbour is searched from as v's child; a marked one other than the parent closes a recorded cycle; the parent is tied to v already |
| UndirectedCycle.Cycle.GetCyclePath | undirected_graph_algorithms/cycle.py:65-79 | following the parent links from v to the root and appending w records the stack followed by w |
| UndirectedCycle.Cycle.HasCycle | undirected_graph_algorithms/cycle.py:30-39 | true exactly when the graph has a cycle |
| UndirectedCycle.Cycle.GetCycle | undirected_graph_algorithms/cycle.py:81-92 | None exactly for a forest, otherwise a recorded cycle |
| UndirectedComponents.MarkCurrent | undirected_graph_algorithms/connected_components.py:36-37 | marking v with the number c and pushing it keeps every stack entry marked with c |
| UndirectedComponents.FinishSpread | undirected_graph_algorithms/connected_components.py:38-40 | once every neighbour of v is marked, popping v leaves it finished, its neighbours marked with its number |
| BipartiteValidations.Alternates | undirected_graph_algorithms/bipartite_validation.py:53 | a two-colouring, proper on every edge, gives the two ends of a path one colour exactly when the path has an even number of edges |
| BipartiteValidations.Clash | undirected_graph_algorithms/bipartite_validation.py:56-57 | two walks of equal parity from one vertex to the two ends of an edge leave the graph without a two-colouring |
| BipartiteValidations.WalkRefl | undirected_graph_algorithms/bipartite_validation.py:24-25 | a root is reached from itself over no edges |
| BipartiteValidations.WalkStep | undirected_graph_algorithms/bipartite_validation.py:52-54 | a walk to u goes on to each neighbour of u with the other parity |
| BipartiteValidations.Coloured | undirected_graph_algorithms/bipartite_validation.py:49-57 | colours -1 and 1 opposite along every edge give a proper two-colouring, so the graph is bipartite |
| BipartiteValidations.Root | undirected_graph_algorithms/bipartite_validation.py:18-25 | an unmarked vertex starts a search with colour -1 and parity even, and the earlier marked vertices keep their walks |
| BipartiteValidations.Settle | undirected_graph_algorithms/bipartite_validation.py:23-26 | a search that has finished every vertex on its stack leaves the state between searches |
| BipartiteValidations.Enter | undirected_graph_algorithms/bipartite_validation.py:49 | marking v, reached over a walk of the parity of its colour, keeps every marked vertex's parity and the opposite colours of the finished vertices |
| BipartiteValidations.Descend | undirected_graph_algorithms/bipartite_validation.py:49 | marking v and pushing it keeps the search state |
| BipartiteValidations.Paint | undirected_graph_algorithms/bipartite_validation.py:52-53 | `color[adjacent] = - color[vertex]` on an unmarked neighbour changes no marked vertex's colour, keeps the state, and gives the neighbour the parity of its walk |
| BipartiteValidations.SameSign | undirected_graph_algorithms/bipartite_validation.py:56 | for colours -1 and 1 a positive product means equal colours, and otherwise they are opposite |
| BipartiteValidations.KeptTrans | undirected_graph_algorithms/bipartite_validation.py:52-54 | colours of marked vertices kept by two steps are kept by both |
| BipartiteValidations.RootsKept | undirected_graph_algorithms/bipartite_validation.py:18-25 | the roots of all searches so far, the new one included, keep colour -1 |
| BipartiteValidations.GrowsUpTo | undirected_graph_algorithms/bipartite_validation.py:23-26 | once the search from `vertex` is over, every vertex up to it is marked |
| BipartiteValidations.Look | undirected_graph_algorithms/bipartite_validation.py:51-57 | one more neighbour of v looked at, with the colour opposite to v |
| BipartiteValidations.KeptExamined | undirected_graph_algorithms/bipartite_validation.py:51-54 | the neighbours looked at keep their colours opposite to v through a nested search |
| BipartiteValidations.Leave | undirected_graph_algorithms/bipartite_validation.py:51-57 | when every neighbour of v has the opposite colour, popping v keeps the finished vertices opposite to their neighbours |
| BipartiteValidations.Retreat | undirected_graph_algorithms/bipartite_validation.py:51-57 | once every neighbour of v is marked and, while the flag holds, of the opposite colour, popping v keeps the search state |
| BipartiteValidations.Conflict | undirected_graph_algorithms/bipartite_validation.py:56-57 | an edge from v to a marked vertex of v's colour lies in the current search tree, so the graph has an odd closed walk and is not bipartite |
| BipartiteValidations.BipartiteValidation.constructor | undirected_graph_algorithms/bipartite_validation.py:9-26 | the flag holds exactly when the graph has a two-colouring, and then the colours are one; every colour is -1 or 1 and every root has -1 |
| BipartiteValidations.BipartiteValidation.Visit | undirected_graph_algorithms/bipartite_validation.py:23-26 | a search from a vertex no earlier search reached, after which every vertex up to it is marked and the roots keep colour -1 |
| BipartiteValidations.BipartiteValidation.Dfs | undirected_graph_algorithms/bipartite_validation.py:40-57 | marks v and the vertices reached from it, changing the colour of no vertex marked before, never setting the flag once it is clear |
| BipartiteValidations.BipartiteValidation.Scan | undirected_graph_algorithms/bipartite_validation.py:51-57 | looks at every neighbour of v, after which all are marked and, while the flag holds, of the opposite colour |
| BipartiteValidations.BipartiteValidation.Step | undirected_graph_algorithms/bipartite_validation.py:52-57 | an unmarked neighbour gets the opposite colour and a search of its own; a marked one of equal colour clears the flag, which then means the graph is not bipartite |
| BipartiteValidations.BipartiteValidation.Bipartite | undirected_graph_algorithms/bipartite_validation.py:28-37 | true exactly when the graph has a two-colouring, and then the colours are a proper one |
| HamiltonPaths.Fresh | undirected_graph_algorithms/hamilton_path.py:31-37 | the vertex a simple path ends in is a vertex and is on no earlier place of the path, so it is unmarked when the search reaches it |
| HamiltonPaths.SimpleStep | undirected_graph_algorithms/hamilton_path.py:36-38 | a neighbour of the path's end that is not on it extends a simple path to a simple path |
| HamiltonPaths.Next | undirected_graph_algorithms/hamilton_path.py:36-38 | the vertex after p on a simple path extending p is a neighbour of p's end that is not on p |
| HamiltonPaths.PathsMember | undirected_graph_algorithms/hamilton_path.py:22-40 | the paths the search from p can count are exactly the Hamiltonian paths that start with p |
| HamiltonPaths.BelowMember | undirected_graph_algorithms/hamilton_path.py:36-38 | the paths reached through neighbours below k are the Hamiltonian paths starting with p whose next vertex is below k |
| HamiltonPaths.StartsMember | undirected_graph_algorithms/hamilton_path.py:19-20 | the paths counted from the start vertices below k are the Hamiltonian paths whose first vertex is below k |
| HamiltonPaths.Hamiltonians | undirected_graph_algorithms/hamilton_path.py:4-7 | its members are exactly the Hamiltonian paths of the graph, as vertex sequences |
| HamiltonPaths.StartsCount | undirected_graph_algorithms/hamilton_path.py:19-20 | the search from one more start vertex adds its own paths to the count, none of them counted before |
| HamiltonPaths.ViaStep | undirected_graph_algorithms/hamilton_path.py:36-38 | a marked neighbour adds no path, an unmarked one adds the paths that continue through it, none counted through another neighbour |
| HamiltonPaths.ViaAll | undirected_graph_algorithms/hamilton_path.py:33-38 | the paths starting with p are p itself when it holds all n vertices, and otherwise those continuing through a neighbour of its end |
| HamiltonPaths.Reversal | undirected_graph_algorithms/hamilton_path.py:4-7 | on a symmetric graph a Hamiltonian path read backwards is one too and differs from it when there are two or more vertices, so each undirected path is counted twice |
| HamiltonPaths.HamiltonPath.constructor | undirected_graph_algorithms/hamilton_path.py:9-20 | `count` is the number of Hamiltonian paths of the graph, and every vertex is unmarked again |
| HamiltonPaths.HamiltonPath.Dfs | undirected_graph_algorithms/hamilton_path.py:22-40 | adds to `count` the number of Hamiltonian paths that start with the current path and v, and leaves the marks as it found them |
| HamiltonPaths.HamiltonPath.Scan | undirected_graph_algorithms/hamilton_path.py:36-38 | adds the number of Hamiltonian paths that continue the current path through a neighbour of v, leaving the marks unchanged |
| HamiltonPaths.HamiltonPath.Step | undirected_graph_algorithms/hamilton_path.py:37-38 | a neighbour on the path adds nothing; one off it adds the number of Hamiltonian paths that continue through it |
| BreadthFirst.Attach | directed_graph_algorithms/bfs.py:31-35 | marking an unmarked successor of a marked vertex with that vertex as parent and one more edge keeps the search tree, and changes no marked vertex's distance |
| BreadthFirst.Enqueue | directed_graph_algorithms/bfs.py:31-33 | enqueuing a vertex when it is first marked keeps every marked vertex in the queue exactly once, with distances that never fall along the queue |
| BreadthFirst.ScanEnqueue | directed_graph_algorithms/bfs.py:30-35 | the body of the inner loop on an unmarked successor keeps the state of the iteration, the successor now looked at |
| BreadthFirst.ScanEnd | directed_graph_algorithms/bfs.py:28-35 | once every successor of the dequeued vertex is looked at, each is marked at most one edge further from the source, and the next iteration may start |
| BreadthFirst.Bound | directed_graph_algorithms/bfs.py:28-35 | once every marked vertex is examined, every walk from the source ends at a marked vertex whose distance is at most the walk's number of edges |
| BreadthFirst.TreeWalk | directed_graph_algorithms/bfs.py:33-35 | following the parents back from a marked vertex gives a walk from the source of exactly its distance |
| BreadthFirst.MeaningAt | directed_graph_algorithms/bfs.py:28-35 | a vertex is marked exactly when the source reaches it, and its distance is then the fewest edges of such a walk |
| BreadthFirst.Meaning | directed_graph_algorithms/bfs.py:28-35 | the same for every vertex at once |
| BreadthFirst.BackWalk | directed_graph_algorithms/bfs.py:68-71 | the parent chain collected from v back to the source, reversed, is a walk |
| BreadthFirst.DirectedBFS.constructor | directed_graph_algorithms/bfs.py:10-35 | afterwards the marked vertices are exactly those the source reaches, `dist_to` holds the fewest edges to each, and the source, at distance 0, has no parent |
| BreadthFirst.DirectedBFS.Explore | directed_graph_algorithms/bfs.py:29-35 | one iteration of the main loop keeps every vertex queued once and in distance order, and leaves the dequeued vertex examined |
| BreadthFirst.DirectedBFS.HasPathTo | directed_graph_algorithms/bfs.py:37-48 | true exactly when the source reaches the vertex |
| BreadthFirst.DirectedBFS.PathTo | directed_graph_algorithms/bfs.py:50-71 | none exactly when the vertex is unreachable; otherwise a walk from the source to it with the fewest edges |
| KosarajuSharir.Preds | directed_graph_algorithms/strong_components.py:23 | the vertices below k with an edge to v, and no others |
| KosarajuSharir.ReverseGraph | directed_graph_algorithms/strong_components.py:23 | the same vertices, with w a successor of v exactly when v is a successor of w |
| KosarajuSharir.ReverseReaches | directed_graph_algorithms/strong_components.py:23-24 | a reaches b in the reverse graph exactly when b reaches a in the graph |
| KosarajuSharir.ShutReaches | directed_graph_algorithms/strong_components.py:43-45 | a marked set closed under successors holds everything its vertices reach |
| KosarajuSharir.Kosaraju | directed_graph_algorithms/strong_components.py:23-29 | with the marked set closed under successors, the unmarked vertex finishing last in the reverse search is reached back by every unmarked vertex it reaches |
| KosarajuSharir.Latest | directed_graph_algorithms/strong_components.py:26-27 | an unmarked vertex met in the reverse finishing order, all earlier ones marked, is the unmarked vertex finishing last |
| KosarajuSharir.Every | directed_graph_algorithms/strong_components.py:26-27 | once every vertex of the reverse finishing order is marked, every vertex is |
| KosarajuSharir.Joins | directed_graph_algorithms/strong_components.py:41-45 | every vertex a search of the second pass reaches is strongly connected to the vertex it started from |
| KosarajuSharir.Leave | directed_graph_algorithms/strong_components.py:43-45 | once all its successors are marked, a vertex leaving the stack keeps the marked vertices off the stack closed under successors |
| KosarajuSharir.Regroup | directed_graph_algorithms/strong_components.py:26-29 | after a search, the vertices marked so far are closed under successors, each carries the label of a root it is strongly connected to, strongly connected ones share a label, and each root holds its own |
| KosarajuSharir.Labels | directed_graph_algorithms/strong_components.py:59 | two labelled vertices share a label exactly when they are strongly connected |
| KosarajuSharir.Partition | directed_graph_algorithms/strong_components.py:6-8 | the same for every pair of vertices once all are marked |
| KosarajuSharir.FirstPass | directed_graph_algorithms/strong_components.py:23-24 | the search of the reverse graph finishes every vertex exactly once, and every prefix of its finishing order is closed |
| KosarajuSharir.StrongComponents.constructor | directed_graph_algorithms/strong_components.py:11-29 | every vertex gets a label below `count`, and two vertices share one exactly when they reach each other |
| KosarajuSharir.StrongComponents.SecondPass | directed_graph_algorithms/strong_components.py:26-29 | searching from every unmarked vertex in the reverse finishing order marks every vertex and keeps the labelling invariant, one new label per search |
| KosarajuSharir.StrongComponents.Dfs | directed_graph_algorithms/strong_components.py:31-45 | marks v, keeps every mark and old label, and leaves each marked vertex off the stack with all its successors marked; every vertex labelled in this search carries the component and is strongly connected to the search's root |
| KosarajuSharir.StrongComponents.Connected | directed_graph_algorithms/strong_components.py:47-59 | true exactly when the two vertices reach each other |
| KosarajuSharir.StrongComponents.Count | directed_graph_algorithms/strong_components.py:61-69 | the number of searches: every label lies below it and each label below it belongs to its search's root |
| KosarajuSharir.StrongComponents.IdVertex | directed_graph_algorithms/strong_components.py:71-82 | the label of v, shared by exactly the vertices strongly connected to it |
| Eulerian.RemoveCount | undirected_graph_algorithms/eulerian_graph.py:56-57 | `list.remove` keeps what came before the first occurrence and what came after it, and takes exactly one copy out of the multiset of entries |
| Eulerian.OddCount | undirected_graph_algorithms/eulerian_graph.py:165 | the number of vertices below k of odd degree, which has the parity of their degree sum |
| Eulerian.Handshake | undirected_graph_algorithms/eulerian_graph.py:165-188 | with an even degree sum the number of odd vertices is even, so never exactly one |
| Eulerian.LinkAt | undirected_graph_algorithms/eulerian_graph.py:44-45 | adding v-w lists w once more at v and v once more at w, every other entry count unchanged |
| Eulerian.LinkKeeps | undirected_graph_algorithms/eulerian_graph.py:44-45 | adding an edge keeps every entry a vertex and each edge listed at both ends, and adds two to the degree sum |
| Eulerian.Listed | undirected_graph_algorithms/eulerian_graph.py:56-57 | on a graph listing each edge at both ends, removing a listed edge goes through both steps, a loop included |
| Eulerian.CutAt | undirected_graph_algorithms/eulerian_graph.py:56-57 | removing v-w lists w once less at v and v once less at w, every other entry count unchanged |
| Eulerian.CutKeeps | undirected_graph_algorithms/eulerian_graph.py:56-57 | removing an edge keeps every entry a vertex and each edge listed at both ends, and takes two off the degree sum |
| Eulerian.CutEdge | undirected_graph_algorithms/eulerian_graph.py:56-57 | a removal leaves every other neighbour in place and adds none |
| Eulerian.Restored | undirected_graph_algorithms/eulerian_graph.py:115-120 | removing an edge and adding it back restores the multiset of every list |
| Eulerian.Reroute | undirected_graph_algorithms/eulerian_graph.py:113-123 | when w is still reachable from v once one copy of v-w is removed, everything reachable before still is |
| Eulerian.CutFewer | undirected_graph_algorithms/eulerian_graph.py:113-117 | removing an edge adds no reachable vertex |
| Eulerian.CutSame | undirected_graph_algorithms/eulerian_graph.py:113-117 | while w stays reachable from v, removing v-w keeps the whole set reachable from v |
| Eulerian.BridgeTest | undirected_graph_algorithms/eulerian_graph.py:109-123 | as many vertices are reachable from v after removing one copy of v-w as before exactly when w is still reachable from v |
| Eulerian.Reached | undirected_graph_algorithms/eulerian_graph.py:137-142 | a count started from a fresh marked list marks exactly the vertices reachable from its start |
| Eulerian.AllMarked | undirected_graph_algorithms/eulerian_graph.py:155 | the marks count every vertex exactly when every vertex is marked |
| Eulerian.EulerianGraph.constructor | undirected_graph_algorithms/eulerian_graph.py:6-15 | the given number of vertices, each with an empty list; a valid graph |
| Eulerian.EulerianGraph.AddEdge | undirected_graph_algorithms/eulerian_graph.py:35-45 | appends w to the list of v and v to the list of w; a missing v fails before any change, a missing w after the first append; a valid graph stays valid |
| Eulerian.EulerianGraph.RemoveEdge | undirected_graph_algorithms/eulerian_graph.py:47-57 | removes the first w from the list of v and the first v from the list of w; a missing key or entry fails, after the first step when the second one fails; on a valid graph it fails only when the edge is absent, and the graph stays valid |
| Eulerian.EulerianGraph.DfsCount | undirected_graph_algorithms/eulerian_graph.py:125-142 | marks v and keeps every mark, leaves each marked vertex off the stack with all its neighbours marked, marks only vertices reachable from the root, and returns how many it marked |
| Eulerian.EulerianGraph.CountFrom | undirected_graph_algorithms/eulerian_graph.py:110-117 | a count from a fresh marked list is the number of vertices reachable from its start |
| Eulerian.EulerianGraph.AllConnected | undirected_graph_algorithms/eulerian_graph.py:144-155 | true exactly when vertex 0 reaches every vertex; an error when there are no vertices |
| Eulerian.EulerianGraph.NumberOfOddVertices | undirected_graph_algorithms/eulerian_graph.py:157-166 | the number of vertices of odd degree, even on a valid graph |
| Eulerian.EulerianGraph.HasEulerianCycle | undirected_graph_algorithms/eulerian_graph.py:168-177 | true exactly when no vertex has odd degree |
| Eulerian.EulerianGraph.HasEulerianPath | undirected_graph_algorithms/eulerian_graph.py:179-188 | true exactly when the vertices of odd degree are two distinct vertices and no others |
| Eulerian.EulerianGraph.ValidEulerian | undirected_graph_algorithms/eulerian_graph.py:190-198 | vertex 0 reaches every vertex and at most two vertices have odd degree; an error when there are no vertices |
| Eulerian.EulerianGraph.EdgeIsNotBridge | undirected_graph_algorithms/eulerian_graph.py:92-123 | true at degree one, otherwise exactly when neighbor is still reachable from vertex with one copy of the edge removed; the edge is put back at the end of both lists, every list keeping its multiset, and the graph stays valid |
| ShortestAncestral.Validate | directed_graph_algorithms/sap.py:61-90 | an argument becomes a list, one vertex a list of one; the query passes exactly when both lists are non-empty and hold only vertices of the graph, and otherwise raises the `ValueError` |
| ShortestAncestral.ValidateOne | directed_graph_algorithms/sap.py:76-88 | two single vertices pass exactly when both are vertices of the graph |
| ShortestAncestral.FreshMembers | directed_graph_algorithms/sap.py:168-172 | one step appends each successor the side had not visited exactly once, and nothing else |
| ShortestAncestral.ImprovedTrans | directed_graph_algorithms/sap.py:174-179 | a length that never rises, with an ancestor that changes only with it, composes over successive steps |
| ShortestAncestral.CompareAdd | directed_graph_algorithms/sap.py:174-179 | comparing a newly visited vertex the other side has visited keeps every compared total at least the length, and a change of length is a strict fall to that vertex's total, with that vertex as the ancestor |
| ShortestAncestral.StepChecked | directed_graph_algorithms/sap.py:166-179 | if every vertex both sides visited was compared before a step, so it is after: the step compares exactly the vertices it newly visits |
| ShortestAncestral.StepMeasure | directed_graph_algorithms/sap.py:166-172 | each step strictly lowers twice the unvisited vertices plus the queued ones not yet taken, so the loop of `_bidirectional_bfs` ends |
| ShortestAncestral.StepLayered | directed_graph_algorithms/sap.py:166-172 | one step of a side searching from a single vertex is one iteration of a breadth-first search from it: the queue keeps every visited vertex once in distance order and the popped vertex is examined |
| ShortestAncestral.Completed | directed_graph_algorithms/sap.py:166-172 | a search from one vertex whose queue is used up has visited exactly the vertices it reaches, each at its fewest edges |
| ShortestAncestral.Optimum | directed_graph_algorithms/sap.py:174-179 | once both searches from single vertices are finished and every common vertex was compared, the ancestor is none at infinite length exactly when no vertex is reached from both, and otherwise a common ancestor on a shortest ancestral path whose length is the number of edges |
| ShortestAncestral.Settle | directed_graph_algorithms/sap.py:131-132 | setting the length to None when there is no ancestor gives the promised answer for single vertices |
| ShortestAncestral.Begun | directed_graph_algorithms/sap.py:101-127 | two disjoint groups queued and visited at distance 0 start the search with no common vertex, and a group of one vertex starts a breadth-first search from it |
| ShortestAncestral.FirstRound | directed_graph_algorithms/sap.py:112-129 | the first round starts from the first group and the first vertex of the second, as a search from each |
| ShortestAncestral.SameVertex | directed_graph_algorithms/sap.py:118-123 | a vertex is its own common ancestor on a shortest ancestral path, of length 0 |
| ShortestAncestral.SecondRound | directed_graph_algorithms/sap.py:118-132 | after a first round that found no ancestor, on the inputs `Diverges` describes (see the row of `ShortestAncestral.SAP.Sap`) the first step of the second round meets a vertex the first side visited while the length is None |
| ShortestAncestral.QueueGroup | directed_graph_algorithms/sap.py:110-116 | every vertex of the first group is queued, visited at distance 0 and gathered into `set_check`, in order |
| ShortestAncestral.SAP.constructor | directed_graph_algorithms/sap.py:11-21 | a new query object over the graph, with the length and ancestor None |
| ShortestAncestral.SAP.Bfs | directed_graph_algorithms/sap.py:154-179 | pops the vertex at the head, appends and visits the successors not yet visited at one more edge, compares those the other side visited; it raises exactly when the length is None and the step meets the other side, and otherwise the length never rises |
| ShortestAncestral.SAP.Visit | directed_graph_algorithms/sap.py:168-179 | one successor: an unvisited one is appended, visited and, when the other side has visited it, compared; the comparison raises when the length is None |
| ShortestAncestral.SAP.BidirectionalBfs | directed_graph_algorithms/sap.py:134-152 | runs both sides in turns until both queues are used up; the length never rises; a search from a single vertex ends finished; it raises only from a None length, and does so when the first queue is used up and the second side's first step meets the first side |
| ShortestAncestral.SAP.Turn | directed_graph_algorithms/sap.py:147-152 | one pass of the loop: a step on each side whose queue holds a vertex, lowering the measure of both sides |
| ShortestAncestral.SAP.Sap | directed_graph_algorithms/sap.py:92-132 | the code as written: a vertex of the second group met in the first stores the whole second group at length 0, and only then is a list stored; otherwise the ancestor is None exactly when the length is; for single distinct vertices it is the shortest ancestral path, or None for both; it raises only on a second group of two or more, and does raise when the first group is one vertex v, v and the first vertex w0 of the second group have no common ancestor, and the second vertex has a successor that v reaches and w0 does not (`Diverges`) |
| ShortestAncestral.SAP.Round | directed_graph_algorithms/sap.py:118-132 | one pass of the loop over the second group: queue the vertex, search and set the length to None without an ancestor; a pass after one that found none raises when it compares with None |
| ShortestAncestral.SAP.SapCorrected | directed_graph_algorithms/sap.py:92-132 | the intended search: a shared vertex is the ancestor at length 0, it never raises, never stores a list, the ancestor is None exactly when the length is, and single vertices, equal or not, get the shortest ancestral path |
| ShortestAncestral.SAP.Search | directed_graph_algorithms/sap.py:129-132 | after both groups are queued, one bidirectional search and the None reset give an ancestor that is None exactly when the length is |
| ShortestAncestral.SAP.GetAncestor | directed_graph_algorithms/sap.py:45-59 | invalid arguments raise `ValueError` and change nothing; otherwise the search runs and its ancestor is returned, the shortest common ancestor for single vertices |
| ShortestAncestral.SharedQuery | directed_graph_algorithms/sap.py:118-123 | the query of vertex 0 against itself stores the list `[0]` as written, and the vertex 0 as intended |
| ShortestAncestral.UnorderedQuery | directed_graph_algorithms/sap.py:118-132 | on the graph with the one edge 2 -> 0, the query of 0 against `[1, 2]` raises as written, and the intended search completes |

## Left out

- The `main` demonstrations of every file: they read data files and print. The heap's test vectors (shortest_path/utils/index_min_pq.py:221-234) are not replayed either, because reasoning about eight successive heap states is out of reach of the verifier's budget.
- `EdgeWeightedDigraph.from_file` and `to_networkx_graph`: file input and a plotting library.
- PriorityQueue.IndexMinPQ.DelMin: the Python code also writes `None` into the removed key slot. The model keeps the stale integer, because membership is decided by `qp` alone.
- PriorityQueue.IndexMinPQ.Insert: requires the index to be absent and the queue not full. The source does not check either, and inserting a present index corrupts the heap.
- UnionFindModule.UnionFind.Components: returns a map from each root to its group, not Python's list of the dictionary's values, whose order follows dictionary insertion.
- `UnionFind.__getitem__`, `__iter__` and `__repr__`: they depend on dictionary insertion order and slicing, and `__len__` with the grouping by root covers their content.
- The `isinstance` argument checks of `UnionFind`: Dafny's typing makes them vacuous.
- Dijkstra.DijkstraSP.constructor: requires non-negative weights. With a negative edge a finished vertex can be improved and queued again, and the proof of optimality does not apply.
- Floating-point weights: weights are integers, so sums are exact.
- BellmanFordQueue.BellmanFord.constructor: takes a `fuel` bound on the number of dequeued vertices. Termination of the source's loop is not proved: with a negative cycle it depends on the cycle search finding a parent cycle in time. The model promises the invariant whatever the bound, and the final results once the loop stops on its own.
- The flag of both Bellman-Ford classes means a negative cycle reachable from the source. A negative cycle elsewhere in the graph sets no flag, in the source as in the model.
- `from_edge` and `to_edge` of `DirectedEdge`: they read the fields `v` and `w`, which DirectedEdge.From and DirectedEdge.To return. What the algorithms rely on is stated by EdgeWeightedDigraphs.ListedFrom and ShortestPathCommon.ParentTo.
- Dijkstra.DijkstraSP.constructor: requires the source to be a vertex and every listed edge to end at one; otherwise `dist_to[source]` or `dist_to[w]` raises an IndexError in the source.
- AcyclicShortestPaths.AcyclicSP.constructor: requires the source to be a vertex and every listed edge to end at one, where the source raises an IndexError. The source also runs on a graph with a cycle, and so does the model, which proves there only that the parent edges are graph edges into their vertices, each bounding its vertex's distance, and that every finitely distant vertex but the source has one; the shortest-path tree is proved for acyclic graphs, the ones the class is written for.
- AcyclicShortestPaths.AcyclicSP.DistTo: requires an acyclic graph, since on a cyclic one the distances are not shortest, and a vertex of the graph, where the source raises an IndexError.
- AcyclicShortestPaths.AcyclicSP.PathTo: requires an acyclic graph and a vertex of the graph, as DistTo does.
- BellmanFordQueue.BellmanFord.constructor: requires the source to be a vertex and every listed edge to end at one, where the source raises an IndexError.
- BellmanFordTraditional.BellmanFord.constructor: requires the source to be a vertex and every listed edge to end at one, where the source raises an IndexError.
- Dijkstra.DijkstraSP.DistTo: requires a vertex of the graph; outside it the source raises an IndexError at `_dist_to[vertex]`.
- Dijkstra.DijkstraSP.PathTo: requires a vertex of the graph; outside it the source raises an IndexError at `_edge_to[vertex]`.
- BellmanFordQueue.BellmanFord.DistTo: requires a vertex of the graph. Without a negative cycle the source raises an IndexError outside it; with one it returns infinity for any argument, which the model does not cover.
- BellmanFordQueue.BellmanFord.HasPathTo: requires a vertex of the graph; outside it the source raises an IndexError.
- BellmanFordQueue.BellmanFord.PathTo: requires a vertex of the graph. Without a negative cycle the source raises an IndexError outside it; with one it returns None for any argument, which the model does not cover.
- BellmanFordTraditional.BellmanFord.DistTo: requires a vertex of the graph. Without a negative cycle the source raises an IndexError outside it; with one it returns None for any argument, which the model does not cover.
- BellmanFordTraditional.BellmanFord.HasPathTo: requires a vertex of the graph; outside it the source raises an IndexError.
- BellmanFordTraditional.BellmanFord.PathTo: requires a vertex of the graph. Without a negative cycle the source raises an IndexError outside it; with one it returns None for any argument, which the model does not cover.
- BreadthFirst.DirectedBFS.HasPathTo: requires a vertex of the graph; outside it the source raises an IndexError at `marked[vertex]`.
- BreadthFirst.DirectedBFS.PathTo: requires a vertex of the graph; outside it the source raises an IndexError.
- KosarajuSharir.StrongComponents.Connected: requires both arguments to be vertices; outside the graph the source raises an IndexError at `id[vertex]`.
- KosarajuSharir.StrongComponents.IdVertex: requires a vertex of the graph; outside it the source raises an IndexError at `id[vertex]`.
- `negative_cycle`: the docstring says it returns edges, but the code returns the cycle finder's vertex list, which the model follows.
- The cycle finders record the whole stack followed by the repeated vertex, so the list can start with vertices before the cycle. The model states exactly that (`CycleRecord`).
- The minimum-spanning-tree property, minimal total weight, is not proved for any of the three algorithms. The model proves that each result is a forest of graph edges spanning the component of vertex 0, or for Kruskal every component.
- Kruskal.KruskalMST.constructor: minimal total weight is not proved. It needs the exchange argument, that an edge added in weight order is the lightest across some cut, and that proof was not attempted; the model proves a spanning forest of graph edges, one tree per component.
- LazyPrim.LazyPrimMST.constructor: minimal total weight is not proved. It needs the cut argument, that the lightest edge leaving the tree belongs to some minimum spanning tree, and that proof was not attempted; the model proves a tree of graph edges spanning the component of vertex 0.
- Prim.PrimMST.constructor: minimal total weight is not proved, for the same reason as in LazyPrim: the cut argument was not attempted. The model proves a tree of graph edges spanning the component of vertex 0.
- Python's `heapq` list is modelled as a multiset: which of several equally light edges `heappop` returns is left open, and the proofs hold for every choice.
- LazyPrim.LazyPrimMST.constructor: requires at least one vertex. On an empty graph `marked[0]` raises an IndexError in the source.
- Prim.PrimMST.constructor: requires at least one vertex. On an empty graph `dist_to[0]` raises an IndexError in the source.
- minimum_spanning_tree/edge_weighted_graph.py is not part of this model: the graph is its adjacency lists, each edge listed at both of its ends (`WellFormed`), and Kruskal gets the number of vertices and the edge list.
- `WeightedEdge.__repr__`, and the property getters `vertex_v`, `vertex_w` and `weight`, which are the datatype's fields.
- Kruskal.KruskalMST.constructor: builds the tree in a local and assigns `mst` once at the end, where the source appends to the field as it goes. Nothing reads the field in between.
- Prim.PrimMST.Edges: the forest property is stated of the ghost sequence `tree`, the parent edges in the order their vertices were marked. The returned list is in vertex order, and the model proves it holds the same edges, not that this order is a forest too.
- `WeightedEdge.__eq__` compares weights only, as `WeightedEdges.Same` models. The algorithms never use it: the Dafny heap and lists compare edges structurally where nothing in the source compares them at all.
- `FlowEdge.__repr__` and the getters `vertex_v`, `vertex_w`, `capacity`, `flow`, `from_edge` and `to_edge`: they read the class's fields.
- `FlowNetwork.from_file` and `to_networkx_graph`: file input and a plotting library.
- Capacities, flows and the value are integers where the source uses floats, so sums are exact and the residual capacity leaving the source is a measure that makes the main loop stop.
- FlowNetworks.FlowNetwork.AddEdge: requires one list per vertex, which the constructor sets up and AddEdge keeps. The dictionary of lists is a sequence.
- FlowNetworks.FlowNetwork.Adjacents: requires a valid listing, which every network built by the constructor and successful AddEdge calls has.
- FordFulkersons.FordFulkerson.constructor: requires s != t, because with s == t the bottleneck stays infinite and the source's loop never ends; and requires s and t to be vertices, where the source raises an IndexError.
- FordFulkersons.FordFulkerson.constructor: the maximum-flow statement assumes the flows start balanced and within bounds, as fresh edges with non-negative capacities are.
- The `value` property: it returns the field `value`, whose meaning the constructor states.
- `deque.popleft` in the search: the queue is a growing sequence read from a head index, which visits the same vertices in the same order.
- The slice assignments that reset `_edge_to` and `_marked`: the model assigns fresh sequences, as no other object holds these lists.
- Vertices are `nat`: Python's negative indices, which `marked[-1]` or a dictionary lookup would accept or reject differently, are not representable.
- UndirectedComponents.ConnectedComponents.constructor: requires the sets to be symmetric, as every graph built by `Graph.add_edge` is; and the initial `id` entries are 0 rather than `None`, which no query reads before the search sets them.
- UndirectedCycle.Cycle.constructor: requires symmetric sets, as above. A self-loop or an adjacency set cannot hold a parallel edge, so the cycles found are self-loops and rings of three or more.
- UndirectedGraphs.Graph.NumberOfEdges: states the count the code computes. A loop adds one to the degree sum, so two loops count as one edge; this is the behaviour the model proves, not an edge count.
- `average_degree` (floating point) and `number_self_loops` (set adjacency stores a loop once and the code still halves it, which states no coherent property).
- BipartiteValidations.BipartiteValidation.constructor: requires symmetric sets, as above; a neighbour outside the graph raises an IndexError in the source. The colours are the integers -1 and 1 the code stores, and the component ids and search roots are ghost state added to state the proof.
- HamiltonPaths.HamiltonPath.constructor: requires every neighbour to be a vertex, where the source would raise an IndexError at `marked[adjacent]`. Symmetry is not needed for the count, only for `Reversal`.
- BreadthFirst.DirectedBFS.Explore: the inner loop updates local copies of `marked`, `edge_to` and `dist_to` and writes them back to the fields when it ends. No other code reads the fields in between.
- BreadthFirst.DirectedBFS.constructor: requires the source to be a vertex and every successor to be one, where the source raises an IndexError. `edge_to` of an unreached vertex, `None` in the source, is the model's `None` too.
- `Digraph.reverse_graph` (directed_graph_algorithms/digraph.py) is not part of this model. ReverseGraph lists the predecessors of each vertex in increasing order; the labels, not their numbering, are what the model proves about, so any order of the lists would do.
- KosarajuSharir.StrongComponents.constructor: the initial `id` entries are 0 rather than `None`; every vertex has its label set before the constructor returns. The first and second passes are the methods FirstPass and SecondPass, which the source writes inline in `__init__`. `roots` and `post`, the search roots and the finishing order, are ghost state added to state the proof.
- `EulerianGraph.euler_tour`, `_get_euler_tour` and `_dfs_euler` (undirected_graph_algorithms/eulerian_graph.py:17-33, 59-90): the tour walker removes edges from a list while a Python `for` loop iterates over it, so what it produces follows the list iterator's behaviour under mutation rather than a stated contract. The model covers the guard it relies on (ValidEulerian) and the bridge test it calls (EdgeIsNotBridge).
- Eulerian.EulerianGraph.EdgeIsNotBridge: requires a valid graph and neighbor in the list of vertex, as at its only call site; with an absent edge the source raises a ValueError in `remove_edge`.
- Eulerian.EulerianGraph.DfsCount: requires v unmarked, as at every call in the source; the count starts from a fresh marked list or from an unmarked neighbour.
- Eulerian.EulerianGraph.Valid: the even degree sum is kept as part of the invariant, preserved by AddEdge and RemoveEdge, rather than derived from the symmetry of the lists.
- `EulerianGraph.from_file`: file input.
- `Graph.from_file` and `to_networkx_graph`: file input and a plotting library.
- `Cycle.get_cycle`'s `' -> '.join`: the cycle is returned as the sequence of vertices.
- The `for adjacent in self._adj[v]` loops over a Python set visit the neighbours in hash order; the model picks each next neighbour with `:|`, so every proof holds for every order.
- The `sca` and `length` properties of `SAP`: they return the fields `sca` and `length`.
- The `isinstance` checks of `SAP._validate`: arguments are the datatype `Query` of one vertex or a list of vertices, and vertices are `nat`, so a non-integer or a negative vertex cannot be written.
- The deques, dictionaries and sets of `_sap` are the datatype `Side`, passed to and returned from each step by value. No other code holds them, so nothing is lost by not sharing them.
- The distance dictionaries are lists with an entry at every vertex; only the entries of visited vertices are read, as in the source, and the others carry no meaning.
- ShortestAncestral.SAP.SapCorrected: the shortest ancestral path is proved for single vertices only. For groups the model proves that a shared vertex is the ancestor at length 0, that no list is stored and that the ancestor is None exactly when the length is, not that the ancestor minimises the total distance over all pairs.
- ShortestAncestral.SAP.GetAncestor: runs the corrected search `SapCorrected`; the search as written is `Sap`, with the behaviour the findings below describe.
- ShortestAncestral.UnorderedQuery: states only that the intended search completes and stores no list, not which ancestor it finds, because the group case of `SapCorrected` is not proved optimal.

## Findings

| source | as written | input that shows it | evidently intended | confidence | as-written member | corrected member |
|---|---|---|---|---|---|---|
| undirected_graph_algorithms/graph.py:51-52 | removes w from the set of v, then v from the set of w | `add_edge(0, 0)` then `remove_edge(0, 0)`: the first `remove` takes 0 out of the one set, the second raises `KeyError` | a loop is removed once and the call succeeds | not executed | UndirectedGraphs.Graph.RemoveEdge | UndirectedGraphs.Graph.RemoveEdgeCorrected |
| directed_graph_algorithms/sap.py:121 | a vertex of the second group found in the first stores the whole second list `vertex_w` as the ancestor | vertex 0 of a one-vertex graph against itself: `sca` is `[0]` (ShortestAncestral.SharedQuery) | the shared vertex is the ancestor, as the comment on line 119 and the documented return type say | not executed | ShortestAncestral.SAP.Sap | ShortestAncestral.SAP.SapCorrected |
| directed_graph_algorithms/sap.py:129-132 | the search and the reset of the length to None run inside the loop over the second group, once per vertex | the graph 0, 1, 2 with the single edge 2 -> 0, `get_ancestor(0, [1, 2])`: the round of 1 finds nothing and sets the length to None, and the round of 2 evaluates `1 < None` at line 177, a `TypeError` (ShortestAncestral.UnorderedQuery) | queue the whole second group, then search once and reset the length | not executed | ShortestAncestral.SAP.Sap | ShortestAncestral.SAP.SapCorrected |
