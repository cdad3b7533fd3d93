# A verified model of a generic Java graph library

This project models the core of a small in-memory graph library written in
Java. Its parts:

- a union-find structure (`DisjointSetUnion`);
- two edge value types (`Edge`, `WeightedEdge`);
- an unweighted graph (`AbstractGraph`) with two variants, a directed graph
  and a forest;
- a weighted graph (`AbstractWeightedGraph`) with one variant, the network;
- a breadth- or depth-first iterator (`GraphIterator`).

The algorithms are:

- breadth-first shortest paths;
- SPFA (queue-based Bellman–Ford) with `INF = 0x3F3F3F3F`;
- three-colour cycle detection, topological sort and transpose;
- Kosaraju's strongly connected components;
- the forest's union-find-guarded `addEdge`, its bipartiteness check and its
  connected components;
- de-duplicating edge counts and weight sums;
- Kruskal's spanning tree;
- Edmonds–Karp maximum flow on a residual graph whose paired edges point at
  each other by index.

Each Java class whose methods update fields in place is a Dafny `class`.
Those fields are `map`, `set` and `seq` values that the methods reassign:
`DisjointSetUnion`, `AbstractGraph`, `AbstractWeightedGraph`,
`DirectedGraph`, `Forest`, `Network` and `GraphIterator`.

Java's class hierarchy becomes composition, because Dafny traits are not used
here:

- a `DirectedGraph` or a `Forest` holds an `AbstractGraph`;
- a `Network` holds an `AbstractWeightedGraph`;
- a `Forest` also holds its `DisjointSetUnion`.

Each variant states its own shape invariant as `Valid()`, and every mutating
method keeps it.

Some algorithms only read the graph: shortest paths, the depth-first searches,
Kosaraju, Kruskal's scan and Edmonds–Karp. They are module-level methods over
the graph's maps, with their loops and invariants. The class methods call
them.

Edges, residual edges and results are datatypes. Java's
`IllegalArgumentException`, its null-dereference exception and `null` returns become
the `Outcome`, `Status` and `Option` datatypes of `outcomes.dfy`. Each kind of
error gets its own tag, so the error cases are stated exactly.

The modules follow the Java files:

| module | file | models |
|---|---|---|
| `DisjointSets` | disjoint_sets.dfy | `DisjointSetUnion.java`, as written and as documented |
| `Edges` | edges.dfy | `Edge.java`, `WeightedEdge.java` |
| `UnweightedGraphs` | abstract_graph.dfy | `AbstractGraph.java` |
| `WeightedGraphs` | weighted_graph.dfy | `AbstractWeightedGraph.java`, `INF` of `WeightedGraph.java` |
| `GraphIterators` | graph_iterator.dfy | `GraphIterator.java`, the iterator factories of `AbstractGraph.java` |
| `Traversals` | traversals.dfy | the recursive depth-first searches of `DirectedGraph.java` and `Forest.java` |
| `DirectedGraphs` | directed_graph.dfy | `DirectedGraph.java` with its nested `Kosaraju` |
| `Forests` | forest.dfy | `Forest.java` |
| `Networks` | network.dfy | `Network.java` |
| `MaxFlows` | max_flow.dfy | the nested `EdmondsKarp` class of `Network.java` |
| `Outcomes`, `Sequences`, `Filters`, `Paths` | outcomes.dfy, sequences.dfy, filters.dfy, paths.dfy | results and errors; lists as sets; the order-preserving `filter` of the Java streams; walks and reachability |

Two points where the code and its documentation disagree.

**Union-find.** The code's `find` returns the parent, not the root, and its
`union` compares grandparents. The as-written union is modelled exactly
(`UnionAsWritten`, `DisjointSetUnion.Union`). Two input sequences that break
it are proved (see Findings). The forest and Kruskal's algorithm use the union
the documentation describes (`UnionOfRoots`, `DisjointSetUnion.UnionByRoot`).

**Bipartiteness.** `Forest.isBipartite` can only return `true`: the verdict of
its `BFS` is assigned to the callee's own parameter. The model keeps this, and
proves that `true` is correct for every forest built with the corrected union.
With the as-written union it is not: the edges (0,1), (2,3), (0,2), (4,5),
(0,4), (0,3) are all accepted, the last one closes the odd cycle 0-2-3, and
`isBipartite` still answers `true`.

## Model

| member | source | states |
|---|---|---|
| DisjointSets.DisjointSetUnion.constructor | src/DisjointSetUnion.java:29-32 | a new structure has no elements: empty parent and rank maps |
| DisjointSets.DisjointSetUnion.MakeSet | src/DisjointSetUnion.java:40-45 | `x` becomes its own parent with rank 0, overwriting any earlier entry; nothing else changes |
| DisjointSets.DisjointSetUnion.Find | src/DisjointSetUnion.java:55-60 | an unseen `x` is registered and returned; a known `x` yields `parent[x]`, which need not be the root, and the maps are unchanged |
| DisjointSets.DisjointSetUnion.FindUtil | src/DisjointSetUnion.java:62-67 | the write at line 64 stores back the value already there: parent and rank are unchanged and the result is `parent[x]` |
| DisjointSets.DisjointSetUnion.Union | src/DisjointSetUnion.java:81-104 | the new state and the answer are exactly those of the as-written union specification |
| DisjointSets.UnionAsWritten | src/DisjointSetUnion.java:81-104 | the as-written union keeps the maps well formed and adds exactly the two elements |
| DisjointSets.UnionAsWrittenRanks | src/DisjointSetUnion.java:94-103 | ranks never decrease, and change only when the two compared parents had equal rank |
| DisjointSets.UnionAsWrittenLinksOne | src/DisjointSetUnion.java:88-101 | a refused union only registers; an accepted one re-parents exactly one element, a result of `find`, under the other, of no lower rank; ranks stay unless the two tie, and then the first goes under the second, whose rank grows by one |
| DisjointSets.UnionWithinTwoLinks | src/DisjointSetUnion.java:69-92 | while every element is within two links of its root, the as-written union succeeds iff the elements were in different sets |
| DisjointSets.UnionAsWrittenSeparates | src/DisjointSetUnion.java:81-104 | the unions (0,1), (2,3), (0,2), (4,5), (0,4) separate 0 from 2 after joining them, and union(0,3) then succeeds |
| DisjointSets.UnionAsWrittenMakesCycle | src/DisjointSetUnion.java:81-104 | the unions (0,1), (2,3), (0,2), (4,5), (4,0), (6,7), (6,4), (0,4) leave 1 and 5 as each other's parents, so `find(0)` never returns |
| DisjointSets.JoinedIffSameRoot | src/DisjointSetUnion.java:47-60 | once the parent chains end, two elements are in one set iff they have one root |
| DisjointSets.RankOrderedReachesRoot | src/DisjointSetUnion.java:94-101 | under union by rank every parent chain ends at a root, so the corrected `find` returns |
| DisjointSets.Representative | src/DisjointSetUnion.java:47-60 | the root found by following parent links is a root, reached within the number of higher-ranked elements |
| DisjointSets.ClimbToRoot | src/DisjointSetUnion.java:47-60 | the loop following parent links returns the representative, a root joined to `x` |
| DisjointSets.DisjointSetUnion.FindRoot | src/DisjointSetUnion.java:47-60 | the documented `find`: registers an unseen `x` and returns its root; ranks stay ordered |
| DisjointSets.UnionOfRoots | src/DisjointSetUnion.java:69-80 | the documented union keeps the maps well formed and rank-ordered, and adds exactly the two elements |
| DisjointSets.UnionOfRootsLinks | src/DisjointSetUnion.java:94-101 | the corrected union registers both elements and links one root directly under the other, by rank |
| DisjointSets.UnionOfRootsSucceedsIffApart | src/DisjointSetUnion.java:69-80 | the corrected union succeeds iff the two elements had different roots |
| DisjointSets.UnionOfRootsMerges | src/DisjointSetUnion.java:69-80 | after a successful corrected union, two elements are joined iff they were before, or one was with `x` and the other with `y` |
| DisjointSets.UnionOfRootsRepresentatives | src/DisjointSetUnion.java:69-80 | the same in terms of representatives; a refused union changes no representative |
| DisjointSets.SameRootIsJoined | src/DisjointSetUnion.java:47-60 | under union by rank, sharing an ancestor and sharing a representative coincide |
| DisjointSets.RegisteredKeepsRepresentative | src/DisjointSetUnion.java:40-45 | registering a new singleton moves no existing element to another root |
| DisjointSets.DisjointSetUnion.UnionByRoot | src/DisjointSetUnion.java:69-80 | the documented union on the object: the new state and the answer are those of the corrected specification |
| DisjointSets.DisjointSetUnion.Link | src/DisjointSetUnion.java:94-101 | linking two roots by rank keeps ranks ordered |
| Edges.Equals | src/Edge.java:100-114 | two edges are equal iff they are of one class with equal fields; a plain and a weighted edge are never equal |
| Edges.ReverseDiffers | src/Edge.java:112-113 | `Edge(u, v)` equals `Edge(v, u)` iff `u == v` |
| Edges.PlainIsNotWeighted | src/Edge.java:107-108 | a plain edge never equals a weighted edge with the same endpoints, in either order of comparison |
| Edges.EqualEdgesHashEqually | src/WeightedEdge.java:130-132 | equal edges of either class have equal hash codes |
| Edges.ReverseHashesEqually | src/Edge.java:87-89 | the exclusive-or hash ignores direction |
| Edges.ByWeight | src/WeightedEdge.java:41-43 | the default comparator is negative, zero or positive exactly as the first weight is below, equal to or above the second, and swapping the edges negates it |
| Edges.EdgeHash | src/Edge.java:87-89 | the hash xor one endpoint's hash is the other endpoint's hash; a loop hashes to zero |
| Edges.WeightedHash | src/WeightedEdge.java:130-132 | removing the weight's 32 bits gives back the plain edge's hash; a zero weight leaves it unchanged |
| Edges.Hash | src/Edge.java:87-89 | a plain edge hashes as `Edge.hashCode`, a weighted one as `WeightedEdge.hashCode` on top of it |
| Edges.SetWeight | src/WeightedEdge.java:73-75 | only the weight changes; the result equals the edge iff the weight was already that |
| UnweightedGraphs.AbstractGraph.constructor | src/AbstractGraph.java:50-54 | no vertices, no edges, no adjacency entries |
| UnweightedGraphs.AbstractGraph.VertexCount | src/AbstractGraph.java:67-69 | the number of vertices |
| UnweightedGraphs.AbstractGraph.Contains | src/AbstractGraph.java:141-145 | true iff `x` is a vertex, whether or not it has an adjacency entry |
| UnweightedGraphs.AbstractGraph.Degree | src/AbstractGraph.java:123-130 | refused iff `x` is not a vertex; a vertex without an entry throws; otherwise the size of its entry |
| UnweightedGraphs.AbstractGraph.AddVertex | src/AbstractGraph.java:154-158 | only the vertex set grows; no adjacency entry is created |
| UnweightedGraphs.AbstractGraph.RemoveVertex | src/AbstractGraph.java:169-190 | an absent vertex is refused and nothing changes; otherwise the vertex leaves the set, its edges leave the list and its entry and mentions leave the adjacency |
| UnweightedGraphs.RemovalPurges | src/AbstractGraph.java:176-189 | after `removeVertex(x)` nothing refers to `x`, and every other successor and edge stays, the edges in their old order |
| UnweightedGraphs.AbstractGraph.ShortestPath | src/AbstractGraph.java:83-110 | -1 iff `v` is unreachable from `u`; otherwise the fewest edges of any walk from `u` to `v` (0 for `u == v`) |
| UnweightedGraphs.AbstractGraph.Round | src/AbstractGraph.java:94-107 | one round of the queue loop ends the search with the true distance or keeps every visited vertex at its true distance |
| UnweightedGraphs.AbstractGraph.Expand | src/AbstractGraph.java:100-106 | every unvisited successor is visited one level deeper and queued; every successor ends visited |
| UnweightedGraphs.NoShortcut | src/AbstractGraph.java:94-107 | a walk to an unvisited vertex is at least one edge longer than the level being expanded |
| UnweightedGraphs.Enclosed | src/AbstractGraph.java:109 | a search whose visited vertices are all finished has found every reachable vertex |
| WeightedGraphs.AbstractWeightedGraph.constructor | src/AbstractWeightedGraph.java:45-49 | no vertices, no edges, no adjacency entries |
| WeightedGraphs.AbstractWeightedGraph.VertexCount | src/AbstractWeightedGraph.java:62-64 | the number of vertices |
| WeightedGraphs.AbstractWeightedGraph.Contains | src/AbstractWeightedGraph.java:143-147 | true iff `x` is a vertex |
| WeightedGraphs.AbstractWeightedGraph.Degree | src/AbstractWeightedGraph.java:125-132 | refused iff `x` is not a vertex; a vertex without an entry throws; otherwise the number of its (successor, weight) pairs |
| WeightedGraphs.AbstractWeightedGraph.AddVertex | src/AbstractWeightedGraph.java:156-160 | only the vertex set grows |
| WeightedGraphs.AbstractWeightedGraph.RemoveVertex | src/AbstractWeightedGraph.java:171-192 | an absent vertex is refused; otherwise it leaves the vertex set, the edge list, the adjacency keys and every pair leading to it |
| WeightedGraphs.WRemovalPurges | src/AbstractWeightedGraph.java:176-191 | after removal nothing refers to `x`; every other pair and edge stays, the edges in their old order |
| WeightedGraphs.RemovalKeepsClosed | src/AbstractWeightedGraph.java:171-192 | removing a vertex keeps weights non-negative and every successor a vertex with an entry |
| WeightedGraphs.AbstractWeightedGraph.ShortestPath | src/AbstractWeightedGraph.java:78-112 | a source without an entry throws; on a closed graph with non-negative weights the answer is the least weight of a walk, or -1 when every walk weighs `INF` or more |
| WeightedGraphs.Distances | src/AbstractWeightedGraph.java:85-109 | the queue loop starts at `INF`, 0 for the source, and ends with every reached vertex settled and its distance the weight of a walk |
| WeightedGraphs.RelaxFrom | src/AbstractWeightedGraph.java:96-108 | relaxing one vertex's pairs keeps the queue set equal to the queue, never raises a distance, and queues only vertices whose distance fell |
| WeightedGraphs.Look | src/AbstractWeightedGraph.java:97-107 | one pair is relaxed only when it improves its successor; a successor without a distance throws |
| WeightedGraphs.LoweredTotal | src/AbstractWeightedGraph.java:100-106 | each round either lowers the sum of the distances or changes nothing, so the loop ends |
| WeightedGraphs.TotalMono | src/AbstractWeightedGraph.java:100-101 | distances that have not grown have no larger a sum, and a smaller one once any fell |
| WeightedGraphs.QueueGrownStep | src/AbstractWeightedGraph.java:102-105 | a vertex joins the back of the queue only after its distance falls |
| WeightedGraphs.NoShorterWalk | src/AbstractWeightedGraph.java:111 | once every reached vertex is settled, no walk weighs less than its end's distance, unless it weighs `INF` or more |
| WeightedGraphs.Answer | src/AbstractWeightedGraph.java:111 | a final distance of `INF` means no walk below `INF`; any other is the weight of a walk that no walk undercuts |
| WeightedGraphs.WeightNonNegative | src/AbstractWeightedGraph.java:100 | on non-negative weights no walk weighs less than nothing |
| GraphIterators.GraphIterator.constructor | src/GraphIterator.java:59-72 | the frontier and the marked set hold the source alone |
| GraphIterators.NewIterator | src/AbstractGraph.java:232-236 | a source that is not a vertex is refused; otherwise a fresh iterator over the graph starts at the source |
| GraphIterators.GraphIterator.HasNext | src/GraphIterator.java:80-82 | true iff the frontier is non-empty |
| GraphIterators.GraphIterator.Next | src/GraphIterator.java:92-109 | an empty frontier is refused and nothing changes; otherwise the front vertex leaves and is returned, or throws without an entry, and its unmarked successors are marked and pushed at the front (depth-first) or back (breadth-first) |
| GraphIterators.Spread | src/GraphIterator.java:98-106 | every successor ends marked; the newly marked ones, without duplicates, join the frontier reversed at the front or in order at the back |
| GraphIterators.StepKeepsWalk | src/GraphIterator.java:96-106 | the frontier keeps no duplicates, every marked vertex is in it or has left it, and all are reachable from the source |
| GraphIterators.Exhausted | src/GraphIterator.java:80-109 | once the frontier is empty, the vertices that left it are exactly those reachable from the source |
| GraphIterators.Bounded | src/GraphIterator.java:98-106 | the vertices taken off and still queued number at most the graph's nodes, so iteration ends |
| Traversals.PostOrder | src/DirectedGraph.java:103-112 | a post-order search from `u` appends `u` after everything it newly visits, all reachable from `u`, keeping the post-order state: a finished vertex that reaches an unfinished one shares a component with a vertex still on the search stack, and one that reaches a later-finished vertex without being reached back shares a component with a vertex finished later still or still on the stack |
| Traversals.PostLeave | src/DirectedGraph.java:259 | pushing `u` once its successors are visited keeps the post-order state with `u` finished |
| Traversals.StackGrows | src/DirectedGraph.java:251 | entering another vertex keeps every witness that a component is still under way |
| Traversals.ReachesUnderWay | src/DirectedGraph.java:251-259 | a vertex that has just finished and reaches an unfinished one shares a component with a vertex still under way |
| Traversals.LeaveEscapes | src/DirectedGraph.java:259 | finishing the innermost vertex keeps the first half of the post-order state |
| Traversals.LeaveFinishedLater | src/DirectedGraph.java:259 | finishing the innermost vertex keeps the second half of the post-order state |
| Traversals.PreOrder | src/Forest.java:121-134 | a pre-order search from `u` appends `u` first, then exactly the newly visited vertices, each once and reachable from `u` |
| DirectedGraphs.DirectedGraph.constructor | src/DirectedGraph.java:37-39 | an empty graph |
| DirectedGraphs.DirectedGraph.AddVertex | src/AbstractGraph.java:154-158 | the vertex set grows and the directed shape holds |
| DirectedGraphs.DirectedGraph.RemoveVertex | src/AbstractGraph.java:169-190 | the shared removal keeps the directed shape |
| DirectedGraphs.DirectedGraph.AddEdge | src/DirectedGraph.java:171-188 | an existing edge changes nothing; otherwise it is listed last, both ends become vertices and only `adj[u]` gains `v` |
| DirectedGraphs.DirectedGraph.RemoveEdge | src/DirectedGraph.java:199-205 | every copy of the edge leaves the list, the others keep their order; adjacency and vertices unchanged |
| DirectedGraphs.DirectedGraph.EdgeCount | src/DirectedGraph.java:149-151 | the length of the list, which counts every listed edge once |
| DirectedGraphs.BuiltIsDigraph | src/DirectedGraph.java:171-188 | a graph built by `addEdge` has the directed shape |
| DirectedGraphs.VertexOperationsKeepDigraph | src/AbstractGraph.java:154-190 | adding and removing vertices keep the directed shape |
| DirectedGraphs.DirectedGraph.IsCyclic | src/DirectedGraph.java:47-62 | true iff some walk with at least one edge returns to its start |
| DirectedGraphs.IsCyclicIn | src/DirectedGraph.java:47-62 | every white vertex is a search root; the answer is true iff the graph has a cycle |
| DirectedGraphs.CycleSearch | src/DirectedGraph.java:64-78 | a reported cycle exists; otherwise `u` ends black and the three-colour state holds |
| DirectedGraphs.BackEdgeCycle | src/DirectedGraph.java:72-73 | an edge back to a gray vertex closes a cycle |
| DirectedGraphs.RankedAcyclic | src/DirectedGraph.java:47-62 | finishing times that fall along every edge rule out a cycle |
| DirectedGraphs.DirectedGraph.TopologicalSort | src/DirectedGraph.java:87-101 | `null` iff the graph has a cycle; otherwise every vertex exactly once, each edge's start before its end |
| DirectedGraphs.FinishOrder | src/DirectedGraph.java:87-112 | post-order searches from every unvisited vertex list every vertex exactly once |
| DirectedGraphs.PostOrderRespectsEdges | src/DirectedGraph.java:103-112 | in an acyclic graph the post-order lists every successor before its predecessor |
| DirectedGraphs.DirectedGraph.Transpose | src/DirectedGraph.java:129-141 | a fresh graph built by `addEdge(v, u)` for each edge `u -> v` out of a vertex; its successors are exactly the predecessors here |
| DirectedGraphs.DirectedGraph.ReverseOut | src/DirectedGraph.java:134-138 | one round of the transpose adds exactly the reversed edges out of `u` |
| DirectedGraphs.BuiltTranspose | src/DirectedGraph.java:129-141 | a graph built from the reversed pairs is the transpose |
| DirectedGraphs.TransposedReach | src/DirectedGraph.java:262-270 | a walk in the transpose is a walk in the graph read backwards |
| DirectedGraphs.DirectedGraph.StronglyConnectedComponents | src/DirectedGraph.java:223-249 | the components list every vertex exactly once, none is empty, a vertex belongs to a component iff it reaches the component's first vertex and is reached from it, and whatever mutually reaches a member is in the same component |
| DirectedGraphs.Components | src/DirectedGraph.java:236-246 | popping a stack in finish order, each unvisited vertex roots one pre-order search of the transpose; together they list every stacked vertex once, and each search meets exactly the vertices that mutually reach its root |
| DirectedGraphs.PostOrderSccOrdered | src/DirectedGraph.java:226-229 | after the first pass, a vertex that reaches a later-finished vertex without being reached back has a vertex of its component finished later still |
| DirectedGraphs.Pop | src/DirectedGraph.java:237-245 | one pop keeps the second-pass state with one vertex fewer left on the stack |
| DirectedGraphs.SkipVisited | src/DirectedGraph.java:239 | popping a visited vertex keeps the second-pass state |
| DirectedGraphs.AddComponent | src/DirectedGraph.java:239-245 | a search of the transpose from an unvisited popped vertex adds one component and keeps the second-pass state |
| DirectedGraphs.ComponentIsScc | src/DirectedGraph.java:242 | the vertices a search from the popped root newly meets are exactly those that mutually reach it, and the visited set stays a union of components |
| DirectedGraphs.MetIsMutual | src/DirectedGraph.java:262-270 | a vertex met from the root in the transpose is also reached from the root, else an earlier search would have taken it |
| DirectedGraphs.MutualIsMet | src/DirectedGraph.java:262-270 | a vertex mutually reaching the root is met by the search, and was not visited before it |
| DirectedGraphs.MutualThrough | src/DirectedGraph.java:223-249 | mutual reachability is transitive |
| DirectedGraphs.PartitionGrows | src/DirectedGraph.java:244 | the new component's vertices are exactly those newly visited, so the components keep partitioning the visited set |
| DirectedGraphs.FoundGrows | src/DirectedGraph.java:244 | appending the root's component keeps every component found so far |
| DirectedGraphs.TransposeBack | src/DirectedGraph.java:129-141 | a walk in the graph is a walk in the transpose read backwards |
| Forests.Forest.constructor | src/Forest.java:39-43 | an empty forest with an empty union-find structure |
| Forests.Forest.AddVertex | src/AbstractGraph.java:154-158 | the vertex set grows and every forest invariant holds |
| Forests.Forest.RemoveVertex | src/AbstractGraph.java:169-190 | the shared removal keeps every forest invariant; the union-find structure is untouched |
| Forests.Forest.AddEdge | src/Forest.java:182-207 | an existing edge changes nothing; an edge whose ends are connected, a loop included, is refused with the graph unchanged; an accepted edge is listed both ways and adjacency stays symmetric |
| Forests.Forest.Join | src/Forest.java:188-189 | the union-find decides: accepted iff the corrected union succeeds, which never happens for connected ends |
| Forests.ConnectedExcluded | src/Forest.java:188-189 | the union accepts an edge only between different, unconnected vertices |
| Forests.UnionKeepsTracked | src/Forest.java:188-206 | after an accepted edge every edge, the new one both ways, has its ends in one set |
| Forests.UnionKeepsColouring | src/Forest.java:188-206 | joining two different sets keeps a proper two-colouring, after recolouring one side |
| Forests.AcceptedKeepsForest | src/Forest.java:182-207 | an accepted edge keeps the shape, the tracking and the two-colouring |
| Forests.NewEdgeKeepsShape | src/Forest.java:191-206 | a new edge between different vertices keeps the list duplicate-free and paired, and adjacency symmetric |
| Forests.Forest.RemoveEdge | src/Forest.java:218-225 | both directions leave the list, the rest keep their order; adjacency, vertices and union-find unchanged, so re-adding the edge is refused |
| Forests.RemovalKeepsShape | src/AbstractGraph.java:169-190 | removing a vertex keeps the forest shape |
| Forests.Forest.EdgeCount | src/Forest.java:142-160 | twice the count is the length of the list: each undirected edge counted once |
| Forests.CountOnce | src/Forest.java:147-157 | an edge is counted unless its reverse was counted before: twice the count is the list length plus the edges listed without reverse |
| Forests.Forest.IsBipartite | src/Forest.java:52-66 | the answer is always true, and the forest is two-colourable |
| Forests.Bipartite | src/Forest.java:52-66 | the searches colour every vertex and every edge gets ends of different colours |
| Forests.Bfs | src/Forest.java:68-95 | the search never meets a clash, visits everything reachable from `src` and colours it by side |
| Forests.ColourSuccessors | src/Forest.java:81-93 | every successor gets the colour opposite to the vertex taken off; the newly visited ones join the back of the queue without duplicates |
| Forests.PaintingColours | src/Forest.java:52-66 | a proper colouring of every vertex shows the graph two-colourable |
| Forests.Forest.GetConnectedComponents | src/Forest.java:102-119 | the components list every vertex exactly once, none is empty, and each is a whole class under reachability |
| Forests.ComponentsOf | src/Forest.java:102-119 | the loop over the vertex set: a partition into whole reachability classes |
| Forests.ComponentIsClass | src/Forest.java:121-134 | a closed search from `root` met exactly the vertices `root` reaches, and they reach one another |
| Networks.Network.constructor | src/Network.java:43-47 | no vertices, no edges, the given direction, ascending-weight order |
| Networks.Network.AddVertex | src/AbstractWeightedGraph.java:156-160 | the vertex set grows and the network's state holds |
| Networks.Network.RemoveVertex | src/AbstractWeightedGraph.java:171-192 | the shared removal keeps the network's state |
| Networks.Network.AddEdge | src/Network.java:116-145 | an existing edge changes nothing; otherwise it is listed, with its reverse when undirected, both ends get an entry and the pairs join the entries |
| Networks.Network.AddEdgeBetween | src/Network.java:199-203 | `addEdge` of the edge `(u, v, weight)` |
| Networks.Linked | src/Network.java:132-144 | the pairs after adding are the old ones plus `(v, w)` at `u` and, undirected, `(u, w)` at `v` |
| Networks.AddingKeepsState | src/Network.java:116-145 | a new edge keeps the network's state |
| Networks.Network.RemoveEdge | src/Network.java:214-221 | every copy of `(u, v, w)` and, undirected, `(v, u, w)` leaves the list, the others keep order; adjacency and vertices unchanged |
| Networks.RemovingKeepsState | src/Network.java:214-221 | removing an edge keeps the network's state and takes exactly those edges out |
| Networks.Network.EdgeCount | src/Network.java:153-176 | directed: the list length; undirected: one of each reverse pair, so twice the count is the listed edges plus the loops |
| Networks.Network.EdgeSum | src/Network.java:229-249 | the weights of the counted edges; directed, every listed weight |
| Networks.Tally | src/Network.java:161-173 | the loop counts and sums exactly the edges whose partner was not remembered before |
| Networks.KeptCovers | src/Network.java:161-173 | every edge is counted or has its reverse counted, and no non-loop is counted with its reverse |
| Networks.KeptCount | src/Network.java:153-176 | twice the undirected count is the listed edges, plus the loops, plus the edges listed without reverse |
| Networks.KeptEverything | src/Network.java:229-249 | with each edge its own partner, a duplicate-free list is summed whole |
| Networks.Network.SetComparator | src/Network.java:88-92 | the order the spanning tree sorts by becomes the given comparator |
| Networks.Sort | src/Network.java:64 | the sorted copy is a permutation, ascending whenever the comparator is antisymmetric in sign |
| Networks.Insert | src/Network.java:64 | one insertion adds exactly the element, which lands at the front or after the old front |
| Networks.InsertAscending | src/Network.java:64 | inserting into an ascending list keeps it ascending |
| Networks.ByWeightSorts | src/WeightedEdge.java:41-43 | the default comparator is consistent, and ascending by it means ascending weights |
| Networks.Network.SpanningTree | src/Network.java:54-80 | no tree iff there are no edges or the network is directed; otherwise a fresh undirected network holding, both ways, exactly the edges Kruskal's rule keeps from the scanned prefix of a sorted permutation of the edge list: a forest of at most `V - 1` edges, in list order; the scan ends at the end of the list or at `V - 1` edges, and when it reached the end the forest connects the ends of every edge; the tree's vertices are exactly the ends of the accepted edges and its adjacency is what adding them one by one leaves |
| Networks.Scan | src/Network.java:66-77 | the accepted edges are exactly those Kruskal's rule keeps from the scanned prefix of the sorted list, listed both ways in the tree and tracked by the union-find; the tree's vertices are the ends of the accepted edges and its adjacency links exactly them; the scan stops at the end of the list or at `limit` accepted edges |
| Networks.Take | src/Network.java:67-76 | one loop turn: the edge is accepted iff the union joins its ends, and then it is added to the tree; the scan's state is kept, including the tree's vertices and adjacency |
| Networks.BuildingStarts | src/Network.java:61-62 | a fresh union-find structure and an empty network start the scan |
| Networks.TreeAdjacency | src/Network.java:73 | the adjacency left by adding the accepted edges one by one has an entry for exactly their ends |
| Networks.TreeAdjacencyHas | src/Network.java:73 | a vertex's entry holds exactly the other end, with the weight, of every accepted edge at it |
| Networks.TreeGrows | src/Network.java:73 | accepting one more edge adds its two ends and links them both ways |
| Networks.GreedyPrefix | src/Network.java:72 | the union's answer on the next sorted edge decides whether Kruskal's rule keeps it |
| Networks.ScanStep | src/Network.java:72-76 | with the union's answer deciding, one more edge keeps the scan's state: the accepted edge was not yet in the tree |
| Networks.ScanStarts | src/Network.java:61-62 | a fresh union-find structure and an empty tree are the scan's state before the first edge |
| Networks.GreedyStep | src/Network.java:72 | the corrected union accepts the next edge iff the edges accepted so far do not connect its ends |
| Networks.RefusedConnected | src/Network.java:72 | a refused union means the accepted edges already connect the two ends |
| Networks.AcceptedConnected | src/Network.java:72-76 | after an accepted union the structure still joins only vertices the accepted edges connect |
| Networks.RegisteringKeepsConnected | src/DisjointSetUnion.java:81-86 | registering the two ends puts each new element alone in its set |
| Networks.GreedySubsequence | src/Network.java:66-77 | the kept edges are a subsequence of the scanned edges, in their order |
| Networks.GreedyAcyclic | src/Network.java:66-77 | no kept edge is a loop or joins two vertices the earlier kept edges connect |
| Networks.GreedySpans | src/Network.java:66-77 | the kept forest connects the ends of every scanned edge, and connects two vertices iff the scanned edges do |
| Networks.SortedSpans | src/Network.java:64-77 | run over a whole permutation of the edge list, the kept forest connects the ends of every edge of the list |
| Networks.KruskalStep | src/Network.java:72-76 | an accepted edge was not in the tree and keeps the accepted edges a forest |
| Networks.Network.MaxFlow | src/Network.java:104-108 | -1 iff the source is the sink; `MissingEntry` iff the source is not a vertex; otherwise a maximum flow on the residual graph built from the network, whose edges match the network's pairs one to one: one forward and one back edge per pair |
| MaxFlows.Build | src/Network.java:294-319 | succeeds iff every pair's ends are vertices; the residual graph is paired, idle, has a list per vertex, and every edge comes from a pair that has its forward edge; each pair of the adjacency has exactly one forward edge with its capacity and one back edge with none, and nothing else is listed |
| MaxFlows.AddRow | src/Network.java:305-317 | the pairs of one entry keep the residual graph paired, idle and explained, and cover each pair; the pairs traced so far, plus the entry's, each own exactly one forward and one back edge |
| MaxFlows.AddHop | src/Network.java:308-316 | one pair of the entry adds its two edges, traced to it, iff both ends are vertices |
| MaxFlows.AddedTraced | src/Network.java:312-316 | adding a new pair's forward and back edges keeps every edge traced to exactly one pair and side |
| MaxFlows.AddedPlaces | src/Network.java:315-316 | the traced places after adding the two edges are exactly the places of the grown lists |
| MaxFlows.AddedMatches | src/Network.java:312-316 | each traced place after the addition holds the edge its origin describes |
| MaxFlows.AddedOnce | src/Network.java:312-316 | no two places trace to the same pair and side after the addition |
| MaxFlows.AddedBoth | src/Network.java:312-316 | after the addition every pair, the new one included, has both its edges |
| MaxFlows.SinglePairFlow | src/Network.java:294-344 | the network with one edge 0 to 1 of capacity 5 builds a single forward edge out of 0 with that capacity, and any maximum flow on it is at most 5 |
| MaxFlows.AddedKeeps | src/Network.java:312-316 | one pair's forward and back edges point at each other and keep the pairing |
| MaxFlows.Search | src/Network.java:346-368 | a breadth-first search whose parent map is a tree of edges with room left, closed under such edges; true iff the sink has a parent |
| MaxFlows.Expand | src/Network.java:355-364 | every head reached by an edge with room and not yet in the tree gets that edge as parent and is queued |
| MaxFlows.SearchAnswers | src/Network.java:346-368 | for a sink other than the source, the search succeeds iff the sink is reachable by edges with room left |
| MaxFlows.TreeReaches | src/Network.java:360-362 | every discovered vertex is reachable from the source along edges with room left |
| MaxFlows.NoPath | src/Network.java:367 | a closed search that did not discover the sink leaves no augmenting path |
| MaxFlows.Bottleneck | src/Network.java:332-333 | the walk is exactly the parent walk from the sink back to the source; the least room on it, positive and at most `INF`, fits every parent edge on it and is `INF` or the room of one of them |
| MaxFlows.Augment | src/Network.java:335-338 | exactly the parent edges on the walk gain the bottleneck and exactly the edges paired with them lose it, every other flow unchanged: flows stay paired and within capacity, the source sends and the sink receives that much more, other balances stay, and the source's free capacity drops |
| MaxFlows.WalkingStep | src/Network.java:335-338 | one step of the walk back keeps the flows pushed so far and moves to the parent edge's tail |
| MaxFlows.PushedStep | src/Network.java:336-337 | pushing along the parent edge of a vertex not yet walked extends the pushed flows by that vertex |
| MaxFlows.PushedAdd | src/Network.java:336-337 | moving the flow at one parent edge and its pair, neither touched before, accounts for one more walked vertex |
| MaxFlows.WalkedApart | src/Network.java:335-337 | a vertex's parent edge and its pair are distinct and are neither parent edges nor pairs of the vertices walked before it |
| MaxFlows.PushFlows | src/Network.java:336-337 | a push moves `f` onto the edge and off its pair and leaves every other flow |
| MaxFlows.WalkOn | src/Network.java:335 | walking a vertex moves to its parent's tail, below it in the tree |
| MaxFlows.PushKeepsPaired | src/Network.java:336-337 | a push along a non-loop edge with room keeps every pair's flows opposite and within capacity |
| MaxFlows.PushChanges | src/Network.java:336-337 | a push changes only the two lists it touches, each at one place |
| MaxFlows.AugmentStep | src/Network.java:335-338 | one step of the walk back keeps its invariant and moves to the parent edge's tail |
| MaxFlows.MaxFlowOn | src/Network.java:321-344 | -1 iff source is sink; throws iff the source has no list; otherwise the flow is conserved, paired, worth the answer, and leaves no augmenting path |
| MaxFlows.WithinCapacity | src/Network.java:360 | no list carries more flow than its positive capacities |
| MaxFlows.FlowBound | src/Network.java:321-344 | a maximum flow never exceeds the positive capacities out of the source |
| Filters.Filter | src/DirectedGraph.java:204 | the stream filter keeps exactly the elements that pass, no more of them than before |
| Filters.FilterAppend | src/DirectedGraph.java:204 | the filter keeps the relative order of the kept elements |
| Filters.FilterCount | src/Network.java:220 | the filter keeps every copy of a kept element and none of another |

## Left out

- Networks.Network.SpanningTree: uses the corrected union, as `Networks.Scan` does. It proves that the tree holds exactly the edges Kruskal's rule keeps from the scanned prefix of the sorted list, that they form a forest, and that a complete scan connects the ends of every edge. Minimality of the total weight is not proved, nor that a scan stopped at `V - 1` edges has already connected every edge; both need exchange and counting arguments about trees that the model does not include.
- MaxFlows.MaxFlowOn: proves the standard optimality condition, that no augmenting path is left. It does not prove the max-flow/min-cut theorem; the value is bounded only by the source's capacities (`FlowBound`).
- Networks.Sort: the contract is a permutation that is ascending. Stability is not stated. Java's `Collections.sort` calls each edge's own comparator; the model sorts by the single order the network holds. Edges created after `setComparator`, and the reverse edges, would keep the default comparator in Java.
- Networks.Network.SetComparator: the comparator is not written into each edge. `WeightedEdge.setComparator` and its null check are not modelled.
- Networks.Network.MaxFlow: residual edges are values at (vertex, index) locations rather than shared objects. `maxFlow`'s reference `!=` on boxed vertices is modelled as value equality.
- Forests.Forest.AddEdge: uses the corrected union. With the as-written union, the forest would accept the cycle-closing edge shown in Findings.
- Forests.Forest.Join: decides with the corrected union `UnionByRoot`, not the as-written `DisjointSetUnion.Union`, for the same reason.
- Forests.Forest.IsBipartite: its proof that `true` is right rests on the corrected union. Under the as-written union the edges (0,1), (2,3), (0,2), (4,5), (0,4), (0,3) form the odd cycle 0-2-3 and the Java method still answers `true`; that wrong answer is a consequence of the first Findings row and is not modelled separately.
- Networks.Scan: uses the corrected union as well.
- WeightedGraphs.AbstractWeightedGraph.ShortestPath: requires non-negative weights. With negative weights or cycles Java's loop need not end.
- Java `int` overflow is not modelled: edge weights, path weights, flow totals and the subtracting default comparator use unbounded integers. The hash code keeps the 32-bit exclusive or.
- Null arguments: the `check(...)` and `requireNonNull` calls have no counterpart, because Dafny values are never null.
- `HashSet`/`HashMap` iteration order is unspecified, so the model chooses an arbitrary order. The contracts are stated so they hold for every order.
- `GraphIterator` works on a copy of the adjacency map taken when it is created. Java's iterator reads the live map, so later changes to the graph are not seen.
- `Edge.setU`/`setV` and `WeightedEdge.setWeight` mutate in Java. The model treats edges as immutable values and `SetWeight` returns a copy; the graphs never call these setters.
- `WeightedEdge.compareTo` has no member of its own: it only applies the receiver's comparator, and `Networks.Sort` applies the comparator directly.
- `toString`, the graph-level `equals`/`hashCode` and the getters are left out: they only format or read fields.
- `Debug.java` is not part of this model. It is a demo driver.
- `GraphBase.java`, `Graph.java`, `WeightedGraph.java` and `IterableGraph.java` are interfaces. Only `INF` is carried over.
- `Pair.java` becomes a Dafny tuple.
- The `Boolean bipartite` parameter of `Forest.BFS` is modelled as a local result that is never read back. This matches Java's pass-by-value of the reference.

## Findings

| source | as written | input that shows it | evidently intended | confidence | as-written member | corrected member |
|---|---|---|---|---|---|---|
| src/DisjointSetUnion.java:55-104 | `find` returns `parent[x]`, not the root, and `union` links that non-root under the other parent, so a subtree is detached from its set | unions (0,1), (2,3), (0,2), (4,5), (0,4) from empty: 0 and 2 end in different sets, and union(0,3) then returns true although 0, 2 and 3 were joined, so `Forest.addEdge(0, 3)` accepts a cycle | find the root and link root under root, so union succeeds iff the elements are in different sets | not executed | DisjointSets.UnionAsWrittenSeparates | DisjointSets.UnionOfRootsSucceedsIffApart |
| src/DisjointSetUnion.java:55-67 | the same linking can close a cycle of parent links, after which the recursion of `find` never ends | unions (0,1), (2,3), (0,2), (4,5), (4,0), (6,7), (6,4), (0,4) from empty: 1 and 5 are each other's parent, and `find(0)` overflows the stack | every parent chain ends at a root | not executed | DisjointSets.UnionAsWrittenMakesCycle | DisjointSets.RankOrderedReachesRoot |
