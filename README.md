# graph_library in Dafny

A verified model of the graph engine of the C++ header library
graph_library. It covers five parts:

- the node registry and counters of `Base`, i.e. `add_node` (both
  overloads), `count_node` and `count_edge`;
- the two depth-bounded traversals `bfs` and `dfs`;
- the directed analyses `is_dag` and `topo_sort`, a three-colour recursive
  depth-first search with entry and exit time stamps;
- the `disjoint_set_union` structure, with path compression and union by size;
- Kruskal's minimum spanning forest, `krushkal_mst`, with integer weights.

The model keeps the source's imperative form:

- **Graph.** The graph is a class whose methods update its registry
  (`idx`, `node`, `n`, `e`, `adj`, `get_edge`).
- **Labels.** `gmap` is keyed by the address of the label object, so labels
  are objects compared by identity. Five labels that all hold `-1` are five
  nodes.
- **Traversals.** `bfs` and `dfs` are loops over a queue or a stack. They
  update `vis` and `dis` arrays.
- **Directed analyses.** The search is a recursive method that colours an
  array and stamps two time arrays. The index sort is done in place on an
  array.
- **Union-find.** The union-find is a class over two arrays. Its ghost rank
  proves that `find_parent` terminates.
- **Kruskal.** The priority queue is a sequence kept in ascending order.
  The draining loop drives the union-find object.

Each operation is proved against a reference definition:

- **Registry.** `Register` and `RegisterAll` give the registry after
  `add_node`. Over the registered label objects, `idx` and `node` stay
  inverse bijections onto `[0, n)`, and `adj` has one list per node. The
  source stores and returns copies of labels, which this does not capture
  (see "Left out").
- **Traversals.** `IsTraversal` says what a traversal's records promise:
  - the source's own record comes first, at distance 0;
  - no node is recorded twice;
  - parents come first, one step closer, along a stored edge;
  - every distance is inside the bound;
  - no neighbour is missed.

  From this, the records of a traversal are exactly the reachable nodes when
  the bound is large. BFS also records in distance order, and it is layered:
  an edge out of a record below the bound leads to a record at most one step
  further. So every BFS distance is a shortest walk length from the source,
  and under any bound BFS records exactly the nodes whose shortest walk is
  shorter than the bound.
- **Topological sort.** The search either reports a cycle that really
  exists, or finishes every node with exit times falling along every edge.
  The sorted order is then a permutation of the nodes with every edge
  pointing forward.
- **Union-find.** The union-find stands for the partition given by the root
  of every slot. `find_parent` keeps that partition. `do_union` merges two
  classes, the smaller under the larger, and adds their sizes.
- **Kruskal.** The accepted edges are those of `Accept`, a reference run of
  the same rule over component labels. They form a forest of at most
  `n - 1` edges that connects the two ends of every queue entry, and the
  total is their weight sum.

`is_dag` and `topo_sort` are offered on the directed configuration only, and
`krushkal_mst` on the undirected one, as in the source's class hierarchy.

Files:
- wrappers.dfy: `Option`.
- adjacency.dfy: edges, walks, paths, cycles, and a rank argument for
  acyclicity.
- traversal.dfy: `bfs` and `dfs` on indices.
- directed.dfy: `is_dag` and `topo_sort` on indices.
- union_find.dfy: `disjoint_set_union`.
- kruskal.dfy: `krushkal_mst` on indices.
- graph.dfy: labels, the registry and the graph class.
- kruskal_example.dfy: the reference rule run on the undirected test's graph.
- examples.dfy: the assertions of the repository's tests.

The depth check keeps every distance strictly below the bound, so a bound of 1
yields the source alone (`Traversal.ShallowIsSourceOnly`) and a bound of 2 the
source and its neighbours (`Traversal.DepthTwoIsNeighbours`).

## Model

| member | source | states |
|---|---|---|
| Graphs.Graph.constructor | graph_library.h:65-70 | a new graph has no labels, no adjacency lists, no stored edge values and both counters at 0 |
| Graphs.Graph.CountNode | graph_library.h:200-204 | the node count is the number of registered labels and of adjacency lists; nothing changes |
| Graphs.Graph.CountEdge | graph_library.h:206-210 | the edge count is the number of `add_edge` calls made; nothing changes |
| Graphs.Graph.AddNode | graph_library.h:212-222 | an unregistered label gets index `n` both ways, one empty adjacency list and `n + 1`; a registered label changes nothing; the registry stays a bijection |
| Graphs.Graph.AddNodes | graph_library.h:224-231 | the vector overload is `add_node` applied to each element in order; the registered labels gain exactly the vector's labels, and `n` grows by the number of distinct new label objects |
| Graphs.RegisterKeeps | graph_library.h:215-220 | registering a label keeps `idx`/`node` mutually inverse on `[0, n)` with one list per node; a new label gets index `n` |
| Graphs.RegisterAllKeeps | graph_library.h:224-231 | registering a whole vector keeps the bijection |
| Graphs.RegisterAllKeys | graph_library.h:224-231 | after the vector overload the registered labels are the old ones plus the vector's, and every old label keeps its index |
| Graphs.RegisterAllCounts | graph_library.h:224-231 | after the vector overload the count grows by the number of distinct labels of the vector not registered before, so repeated or known objects add nothing |
| Graphs.Graph.AddEdge | graph_library.h:116-133 | one edge `u -> v` is appended to `u`'s list, and `v -> u` as well for an undirected graph; the value is stored under the index pair; the edge count grows by one and the node count is unchanged |
| Graphs.Graph.IndexOf | graph_library.h:167-171 | a label has an index iff it was registered, and that index maps back to the label |
| Graphs.Graph.LookupAsWritten | graph_library.h:162-165 | `idx[label]` on a missing label inserts it with index 0, which breaks the bijection once the graph has a node; a present label just yields its index |
| Graphs.Graph.NodesRegistered | graph_library.h:241-257 | every node and parent of a traversal is a registered index |
| Graphs.Graph.Bfs | graph_library.h:233-261 | `None` exactly for a label never added; otherwise the label records are a traversal from the label's node, in non-decreasing distance and layered, so each distance is a shortest one |
| Graphs.Graph.Dfs | graph_library.h:263-291 | `None` exactly for a label never added; otherwise the label records are a traversal from the label's node |
| Graphs.Graph.IsDag | graph_library.h:295-341 | on a directed graph, the answer is true exactly when the graph has no cycle |
| Graphs.Graph.TopoSort | graph_library.h:352-413 | on a directed graph: empty on a cyclic graph; otherwise every index once, each edge's tail before its head, mapped to the labels |
| Graphs.Graph.KruskalMst | source/graph_library.h:219-275 | on an undirected graph, the total and the label edges are those of the reference rule over the ascending queue; `get_edge` gains a 0 for each accepted pair it lacked; the registry is unchanged |
| Traversal.Discover | graph_library.h:249-257 | a neighbour is recorded iff it is unvisited and one more step stays below the bound; its record follows its parent at the parent's distance + 1, and the `vis`/`dis` arrays stay the marks and distances of the records |
| Traversal.Relax | graph_library.h:249-258 | one inner-loop pass of `bfs`: the records stay a valid prefix, a recorded neighbour joins the back of the queue, and neighbours `0..k` are accounted for |
| Traversal.Bfs | graph_library.h:233-261 | the output starts at `(src, src, 0)`, records each node once, each parent earlier and one step closer along a stored edge, all distances inside the bound, misses no neighbour, never decreases in distance, and is layered: an edge out of a record whose next step stays below the bound leads to a record at most one step further |
| Traversal.Expand | graph_library.h:279-288 | one inner-loop pass of `dfs`: a recorded neighbour is pushed on the stack, and neighbours `0..k` are accounted for |
| Traversal.Dfs | graph_library.h:263-291 | the same traversal promises as `bfs`, from a LIFO stack |
| Traversal.StepsUpNonDecreasing | graph_library.h:245-259 | distances that never drop between neighbours in the output never drop at all, which is the FIFO order |
| Traversal.DistanceBelowPosition | graph_library.h:254-255 | a record's distance is at most its position in the output |
| Traversal.RecordedIsReachable | graph_library.h:249-257 | every recorded node is reachable from the source along stored edges |
| Traversal.ReachableIsRecorded | graph_library.h:249-257 | with a bound above the node count every node on a walk from the source is recorded |
| Traversal.RecordsExactlyReachable | graph_library.h:234 | with the default bound (above any node count) a node is recorded iff it is reachable from the source |
| Traversal.WalkIsLayered | graph_library.h:245-259 | in a layered traversal, the `i`-th node of a walk from the source (with `i` below the bound) is recorded at distance at most `i` |
| Traversal.BfsShortest | graph_library.h:233-261 | every BFS distance is the number of steps of some walk from the source to the recorded node, and no walk there has fewer steps: it is the shortest distance |
| Traversal.BfsRecordsWithinDepth | graph_library.h:233-261 | under any bound, BFS records a node iff it is the source or has a walk from the source shorter than the bound |
| Traversal.ShallowIsSourceOnly | graph_library.h:251 | with a bound of 1 or less the output is the source's record alone |
| Traversal.DepthTwoIsNeighbours | graph_library.h:251 | with a bound of 2 a node is recorded iff it is the source or a neighbour of it |
| Directed.Visit | graph_library.h:360-382 | a failed search implies a real cycle; a successful one finishes `src` black, keeps every earlier finish time, and keeps exit times distinct and falling along every edge out of a finished node |
| Directed.Follow | graph_library.h:367-377 | a white successor is searched while no failure was seen; a gray one means a cycle; a black one is passed |
| Directed.ExploreAll | graph_library.h:386-395 | the outer loop reports a cycle only when one exists, and otherwise finishes every node |
| Directed.FinishedIsAcyclic | graph_library.h:378-380 | once every node is finished with exit times falling along every edge, there is no cycle |
| Directed.SortByKey | graph_library.h:401-404 | the index vector is rearranged, as a permutation, into non-increasing exit time |
| Directed.EdgesGoForward | graph_library.h:396-404 | listing finished nodes by non-increasing exit time puts every edge's tail before its head |
| Directed.TopoSort | graph_library.h:352-413 | empty exactly on a cyclic graph; otherwise a permutation of the nodes with each edge's tail before its head |
| Directed.IsDag | graph_library.h:295-341 | true iff the graph has no cycle (the meaning the test relies on) |
| Directed.IsDagAsWritten | graph_library.h:332-340 | the result as written is true iff the graph HAS a cycle |
| Directed.VisitAsWritten | graph_library.h:360-382 | with a `bool` colour array every edge out of a searched node must lead to a node unvisited when the search began, or the search fails |
| Directed.TopoSortAsWritten | graph_library.h:352-395 | as written, any edge into node 0 makes the result empty |
| UnionFind.Root | graph_library.h:429-433 | following parents from `x` ends at a slot that is its own parent |
| UnionFind.CompressKeepsRoots | graph_library.h:433 | pointing `x` straight at its root changes no slot's root |
| UnionFind.DisjointSetUnion.constructor | graph_library.h:418-427 | `n + 1` slots; each `i < n` is its own parent with size 1; slot `n` holds parent 0 and size 0 |
| UnionFind.DisjointSetUnion.FindParent | graph_library.h:429-435 | returns the root of `x`, and compression leaves every slot's root and the sizes valid |
| UnionFind.DisjointSetUnion.IsSame | source/graph_library.h:112 | true iff `x` and `y` have the same root; the partition is unchanged |
| UnionFind.DisjointSetUnion.DoUnion | graph_library.h:437-449 | no change when the roots coincide; otherwise the root of smaller size goes under the other (on a tie `y`'s root under `x`'s), sizes add, and every size still counts its class |
| UnionFind.DisjointSetUnion.Link | graph_library.h:447-448 | root `l` goes under root `w`: the classes of `l` and `w` merge and `w`'s size becomes the sum |
| Kruskal.Insert | source/graph_library.h:248-250 | pushing keeps the queue ascending in `(weight, x, i)` order and adds exactly one entry |
| Kruskal.InsertAll | source/graph_library.h:248-258 | pushing a sequence keeps the queue ascending and adds exactly those entries |
| Kruskal.AscendingUnique | source/graph_library.h:263-266 | two ascending queues with the same entries are equal, so the pop order is determined by the entries alone |
| Kruskal.Queue | source/graph_library.h:252-258 | the filled queue is ascending and holds exactly one entry per adjacency entry, all with ends below `n` |
| Kruskal.FillQueue | source/graph_library.h:252-258 | the nested loops leave exactly the queue `Queue` describes |
| Kruskal.PushRow | source/graph_library.h:254-257 | the inner loop adds exactly row `i`'s entries and keeps the queue ascending |
| Kruskal.Consider | source/graph_library.h:267-269 | an entry is accepted iff its ends are in different sets, and accepting it unites them, as the reference labelling does |
| Kruskal.UnionCorresponds | source/graph_library.h:267-269 | after `do_union` the union-find splits the nodes as the relabelled reference labelling does |
| Kruskal.Pop | source/graph_library.h:263-273 | one pass takes the smallest entry, accepts it iff its ends are apart, and keeps total, edges and `get_edge` in line with the reference rule |
| Kruskal.KruskalMst | source/graph_library.h:219-275 | the total is the sum of the accepted weights, the edges are the accepted ones in acceptance order with their `get_edge` values, and the accepted ones are the reference rule run over the ascending queue |
| Kruskal.DrainEnd | source/graph_library.h:263-274 | once the queue is empty, the accepted entries are the whole reference run |
| Kruskal.AcceptForest | source/graph_library.h:267-272 | no accepted entry connects two nodes already connected by earlier accepted edges |
| Kruskal.AcceptShrinks | source/graph_library.h:267-272 | fewer entries are accepted than there are components |
| Kruskal.AcceptedForest | source/graph_library.h:259-273 | the accepted edges form a forest: none closes a cycle, and at most `n - 1` are accepted |
| Kruskal.AcceptSpans | source/graph_library.h:259-273 | the two ends of every queue entry are connected by the accepted edges, so the forest spans every component of the graph |
| KruskalExample.CormenQueue | source/graph_library.h:248-258 | on the undirected test's graph with the identity weight, the filled queue is the 28 adjacency entries in ascending `(weight, x, i)` order |
| KruskalExample.CormenAccept | Tester_Codes/test_Undirected_Graph.cpp:28-72 | on that queue the reference rule accepts g-h 1, c-i 2, f-g 2, a-b 4, c-f 4, c-d 7, a-h 8, d-e 9, whose weights sum to 37 |
| Examples.MinusOnes | Tester_Codes/test_graph.cpp:9 | five new label objects with value `-1` are five distinct labels |
| Examples.Star | Tester_Codes/test_graph.cpp:19-28 | each `add_edge` from the hub raises the edge count by one and leaves the node count alone |
| Examples.FiveEqualLabels | Tester_Codes/test_graph.cpp:6-31 | five equal `-1` labels make 5 nodes, and four edges make an edge count of 4 |
| Examples.GabowIsCyclic | Tester_Codes/test_Directed_Graph.cpp:39-77 | the test's directed graph has the cycle `2 -> 4 -> 5 -> 2` (indices `1, 3, 4`) |
| Examples.GabowAnswers | Tester_Codes/test_Directed_Graph.cpp:22-83 | built through `add_node` on the labels 1..6 and the ten `add_edge` calls, the graph has 6 nodes and 10 edges, `is_dag` answers false and `topo_sort` is empty, while `is_dag` as written answers true |
| Examples.CormenAnswers | Tester_Codes/test_Undirected_Graph.cpp:11-92 | built through `add_node` on the labels `'a'..'i'` and the fourteen `add_edge` calls, the graph has 9 nodes and 14 edges, and `krushkal_mst` with the identity weight returns 37 and the edges g-h 1, c-i 2, f-g 2, a-b 4, c-f 4, c-d 7, a-h 8, d-e 9 |
| Examples.IntoZeroAnswers | graph_library.h:355-376 | on the acyclic graph `1 -> 0`, `topo_sort` as written is empty while the corrected one is `[1, 0]` |

## Left out

- `scc`: its body in the header is an empty stub and the real one is not part of this model, so the test's `scc` assertions are not restated.
- `add_edge`, `prims_mst`, Dijkstra, Bellman-Ford, both shortest-path variants, `is_neg_cycle`, `remove_node`, `remove_edge` and the `graph` constructors: only their declarations are part of this model. `add_edge` is modelled by its observable effect (`Graphs.Graph.AddEdge`), the `graph(int)` constructor by the empty graph.
- UnionFind.DisjointSetUnion.IsSame: its body is not part of this model; it is modelled as the comparison of the two roots found by `find_parent`, the meaning its use in `krushkal_mst` needs.
- The weight-type dispatch of `krushkal_mst` (`is_integral`/`is_floating_point`, the `long double` accumulator, the message and `abort()`): weights are fixed to `int` and `get_weight` is a total function `int -> int`. The `type` alias is out of scope where it is used, so the code as written does not compile; the model reads it as the 64-bit integer of the integral branch.
- Kruskal.KruskalMst: does not model 64-bit overflow of `total_weight`; the total is an unbounded integer.
- Kruskal.KruskalMst: the `n` of the union-find is the number of adjacency lists, equal to the node count under the registry invariant.
- Kruskal.KruskalMst: minimality (least total weight among spanning forests) is not proved; the model proves the accepted edges form a forest (`Kruskal.AcceptedForest`) that connects the ends of every entry (`Kruskal.AcceptSpans`), and the total of the undirected test (`Examples.CormenAnswers`).
- Examples.CormenAnswers: the test calls `krushkal_mst` three times with three identity `get_weight` variants (a function, a `std::function` and a lambda); these are one identity function here.
- Traversal.Bfs, Traversal.Dfs: the depth check as written reads `dis[x]` before anything was stored in it, which has no defined value; the model uses the evidently intended check, parent distance + 1 below the bound.
- Traversal.Bfs, Traversal.Dfs: the 32-bit `int` of distances and of the default bound `INT32_MAX` is an unbounded integer; no distance can come near it because a distance never exceeds the node count.
- Graphs.Graph.AddNode, Graphs.Graph.Bfs, Graphs.Graph.Dfs, Graphs.Graph.TopoSort, Graphs.Graph.KruskalMst: stored and returned labels are copies with the same value but a new identity in the source (`node[n] = temp` at graph_library.h:218; `traversal` and `full_edge` hold labels by value, graph_library.h:28-31 and source/graph_library.h:202-206; the records of graph_library.h:241, 255, 271, 285, the order of graph_library.h:409 and the edges of source/graph_library.h:271). The model stores and returns the registered object itself, so it does not capture that a returned label is not a registered key and cannot be passed back as one.
- Graphs.Graph.Bfs, Graphs.Graph.Dfs: a label never added yields `None`; the code as written inserts it (see `Graphs.Graph.LookupAsWritten` and Findings).
- The recursive lambdas of `is_dag` and `topo_sort` call `lambda(src, lambda)` where only `y` is in scope; the model starts the search at `y`, the node the outer loop passes.
- `is_dag` keeps no time stamps; `Directed.IsDag` runs the same search as `topo_sort` with time stamps it does not use, which affects no answer.
- The `std::sort` call is modelled by an insertion sort on an array with the same comparator; which of the many sorting algorithms runs is not observable here, because exit times are distinct.
- Printing (`traversal::print`, `std::cout`), the `INF` and `2e9` floating constants, the virtual and `std::conditional` inheritance (one directed and one undirected configuration are modelled through the `directed` flag), and the machine addresses behind `gmap` (modelled as object identity).
- A negative count given to the union-find constructor is excluded: `resize` with a negative size does not produce a structure.

## Findings

| source | as written | input that shows it | evidently intended | confidence | as-written member | corrected member |
|---|---|---|---|---|---|---|
| graph_library.h:332-340 | `is_dag` returns true as soon as a search fails on a gray node, and false when every search succeeds | the test's directed graph, which has the cycle `2 -> 4 -> 5 -> 2`: the code answers true | true exactly when there is no cycle, as Tester_Codes/test_Directed_Graph.cpp:79 expects | high, not executed | Directed.IsDagAsWritten, Examples.GabowAnswers | Directed.IsDag |
| graph_library.h:355-376 | `topo_sort` keeps colours in a `bool` array, so black is stored as true and then compares equal to gray (1) | the acyclic graph with two nodes and the single edge `1 -> 0`: the code returns an empty order | colours 0, 1 and 2 as in `is_dag`, giving the order `[1, 0]` | high, not executed | Directed.TopoSortAsWritten, Examples.IntoZeroAnswers | Directed.TopoSort |
| graph_library.h:236 | `bfs` (and `dfs` at line 266) looks the source up with `gmap::operator[]`, which inserts a missing label with index 0 | a graph with one node and a label object never added: the label is mapped onto node 0's index and `idx` stops being injective | an unknown source yields no traversal and leaves the registry alone | medium, not executed | Graphs.Graph.LookupAsWritten | Graphs.Graph.IndexOf, Graphs.Graph.Bfs |
