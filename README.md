# Urban transit graph engine — a Dafny model

This project models the core of the urban transport system's routing engine.

- **The graph.** A `Graph` is an adjacency map from integer stop ids to the ordered list of their outgoing weighted edges. Parallel edges are allowed.
- **Three algorithms over it:**
  - Dijkstra's shortest path with a lazily pruned priority queue;
  - a breadth-first search bounded by hop depth;
  - the scan for the routes that pass through a stop.
- **The graph builder.** `initialize_graph` adds every stop as a node. It then joins the consecutive stops of every route by a forward and a backward edge, each weighted by the distance between the two stops.

Modules:

- `Graphs` (graph.dfy):
  - the pure transition functions `WithNode`, `WithEdge` and `WithoutEdgesTo`, which say what each mutator does to the map;
  - the class `Graph`, whose methods update its `adjacency` field in place and are proved against those functions;
  - the class invariant `Valid` (every edge target is a node), which every mutator keeps.
- `Walks` (walks.dfy): the vocabulary the results are specified in.
  - A walk is a sequence of edges, each leaving the node the previous one entered. It is a sequence of edges, not of nodes, because parallel edges may differ in weight.
  - It also defines the cost, end and node trace of a walk, reachability, "within k hops", shortest walks and hop distance.
- `BreadthFirst` (breadth_first.dfy): the ghost bookkeeping of the search and the lemmas that carry its loop invariants.
  - The bookkeeping is the discovery order, each node's depth, and a witness walk of that length.
- `Algorithms` (algorithms.dfy): `DijkstraShortestPath`, `BfsReachableNodes` and `FindRoutesThroughStop`, as methods with the same loops as the source.
- `Transport` (transport.dfy): `InitializeGraph` on a `Graph`, proved equal to the pure `Build`. The lemmas about `Build` give the nodes and every edge list of the result.
- `Scenarios` (scenarios.dfy): the unit-test scenarios, on concrete graphs, proved from the contracts of the algorithms.

Main results:

- **Dijkstra.**
  - A non-empty result is the node trace of a lightest walk from start to end.
  - An empty result means start or end is not a node, or end is unreachable.
- **BFS.**
  - The result lists each node once.
  - A node is in it exactly when it is the start or lies within `maxDepth` hops.
  - It comes in non-decreasing hop distance, with the recorded depth being the true hop distance.
  - Each expansion queues exactly the targets of the node's edges that were not visited yet, each once, in the order of their first edge.
- **Route scan.** A route id is in the result iff its stop list contains the stop; no id appears twice.
- **Graph builder.**
  - The nodes are the old nodes, the stops, and the stops of every route with at least two stops.
  - Each list gets, in route order, exactly the edges of the legs leaving that node.
  - A leg used twice becomes two parallel edges.

## Model

| member | source | states |
|---|---|---|
| Graphs.WithNode | src/core/graph.cpp:6-10 | add_node adds id with an empty list only if absent; other lists are untouched; edge targets stay nodes |
| Graphs.WithEdge | src/core/graph.cpp:12-16 | add_edge makes both endpoints nodes and appends Edge(to, weight) to the end of from's list; every other list is unchanged |
| Graphs.DropTarget | src/core/graph.cpp:22 | the erase/remove_if keeps exactly the edges whose target differs from `to`, each with its multiplicity |
| Graphs.WithoutEdgesTo | src/core/graph.cpp:18-23 | remove_edge is a no-op for an absent `from`; otherwise no edge from `from` to `to` remains and other nodes are untouched |
| Graphs.WithNodeIdempotent | src/core/graph.cpp:6-10 | a second add_node of the same id changes nothing, and add_node of an existing node is a no-op |
| Graphs.WithEdgeTwiceIsParallel | src/core/graph.cpp:12-16 | add_edge does not deduplicate: the same call twice leaves two parallel edges |
| Graphs.WithEdgeNodeCount | src/core/graph.cpp:12-16 | node_count grows by the number of endpoints that were not yet nodes |
| Graphs.WithEdgeBetweenNodes | src/core/graph.cpp:12-16 | between two existing nodes, add_edge only appends to from's list |
| Graphs.DropTargetAppend | src/core/graph.cpp:22 | remove_edge keeps the relative order of the remaining edges |
| Graphs.DropTargetAbsent | src/core/graph.cpp:18-23 | removing a target with no edge leaves the list unchanged |
| Graphs.Graph.constructor | include/core/graph.h:19 | a new graph has no nodes and satisfies the invariant |
| Graphs.Graph.AddNode | src/core/graph.cpp:6-10 | the map becomes WithNode of the old map; the invariant is kept |
| Graphs.Graph.AddEdge | src/core/graph.cpp:12-16 | the map becomes WithEdge of the old map; the invariant is kept |
| Graphs.Graph.RemoveEdge | src/core/graph.cpp:18-23 | the map becomes WithoutEdgesTo of the old map; the invariant is kept |
| Graphs.Graph.GetEdges | src/core/graph.cpp:25-30 | the stored list of a node, the empty list for an absent node; its targets are nodes |
| Graphs.Graph.HasNode | src/core/graph.cpp:32-34 | true exactly for nodes; an absent node has no edges |
| Graphs.Graph.NodeCount | src/core/graph.cpp:36-38 | the number of nodes |
| Graphs.Graph.GetAllNodes | src/core/graph.cpp:40-47 | every node exactly once, node_count of them, in no promised order |
| Walks.Reverse | src/app/algorithms.cpp:54 | std::reverse: same length, element i is element n-1-i of the input |
| Walks.TraceOfWalk | src/app/algorithms.cpp:47-55 | the node trace of a walk starts at its start, ends at its end and joins consecutive nodes by edges |
| Walks.WalkSnoc | src/app/algorithms.cpp:58-63 | extending a walk by an edge out of its end gives a walk one edge longer, ending at that edge's target, heavier by its weight |
| Walks.WalkStaysInGraph | src/core/graph.cpp:12-16 | in a graph whose edge targets are nodes, every walk from a node ends at a node |
| Algorithms.MinEntry | src/app/algorithms.cpp:35-39 | pq.top() of the min-priority queue of pairs: an entry of the queue no later than any other in (distance, node) order |
| Algorithms.RemoveOne | src/app/algorithms.cpp:40 | pq.pop() removes one copy of the top entry and nothing else (multiset difference) |
| Algorithms.FrontierBound | src/app/algorithms.cpp:38-66 | any walk from a node with a known distance ends at a settled node, or the queue holds an entry no heavier than that distance plus the walk's cost |
| Algorithms.RelaxStep | src/app/algorithms.cpp:60-64 | a successful relaxation keeps the queue and predecessor-link invariants and never touches a settled node |
| Algorithms.RelaxedKept | src/app/algorithms.cpp:58-65 | lowering unsettled distances keeps every settled node's edges relaxed |
| Algorithms.LoweredImprove | src/app/algorithms.cpp:60-62 | improving an unsettled node's distance keeps settled distances and links and only lowers others |
| Algorithms.EdgesRelaxedImprove | src/app/algorithms.cpp:58-64 | after an improving relaxation, every edge handled so far is relaxed |
| Algorithms.EdgesRelaxedKeep | src/app/algorithms.cpp:58-60 | an edge that does not improve its target is already relaxed |
| Algorithms.RelaxingImprove | src/app/algorithms.cpp:58-64 | the inner-loop state after an improving edge |
| Algorithms.RelaxingKeep | src/app/algorithms.cpp:58-60 | the inner-loop state after an edge that does not improve |
| Algorithms.RelaxEdges | src/app/algorithms.cpp:58-65 | the inner loop: settled distances and links unchanged, others only lower, both invariants kept, and every edge of the settled node relaxed |
| Algorithms.StalePop | src/app/algorithms.cpp:42 | popping an entry of an already visited node (the `continue`) keeps the queue invariant |
| Algorithms.SettlePop | src/app/algorithms.cpp:39-43 | the least entry of an unvisited node carries its known distance; no visited node is farther, and visiting it keeps both invariants |
| Algorithms.SettledShrinks | src/app/algorithms.cpp:43 | visiting a new node leaves fewer nodes to visit (termination of the outer loop) |
| Algorithms.KeysStayNodes | src/app/algorithms.cpp:60-61 | distances are only ever recorded for graph nodes |
| Algorithms.SettleOrderSettle | src/app/algorithms.cpp:43 | visiting a node whose predecessor is visited extends the order in which predecessors come first |
| Algorithms.SettleOrderRelax | src/app/algorithms.cpp:62 | relaxation does not change the predecessor of a visited node |
| Algorithms.ReconstructPath | src/app/algorithms.cpp:47-55 | following `previous` back from end_node terminates at start_node; the reversed node list traces a walk no heavier than end_node's distance |
| Algorithms.DijkstraShortestPath | src/app/algorithms.cpp:14-69 | [] when either endpoint is not a node or end is unreachable; [start] when start == end; otherwise the trace of a lightest walk from start to end |
| Algorithms.DiscoverNeighbours | src/app/algorithms.cpp:90-95 | the queue grows by exactly `NewTargets(edges, visited)` at depth+1: the targets not yet visited, each once, at its first edge, in edge order; visited grows by exactly those nodes; the search bookkeeping is kept and every successor ends up visited |
| Algorithms.ExpandFront | src/app/algorithms.cpp:89-96 | expanding the front node keeps the search invariant; a node that is not in the graph adds nothing |
| Algorithms.VisitFront | src/app/algorithms.cpp:84-96 | one outer round reports the front node and keeps the search invariant; a node at max_depth adds nothing |
| Algorithms.BfsReachableNodes | src/app/algorithms.cpp:71-100 | start first; each node once; exactly the start and the nodes within max_depth hops; in non-decreasing hop distance; [start] when max_depth <= 0 or start is absent |
| Algorithms.FindRoutesThroughStop | src/app/algorithms.cpp:102-116 | exactly the route ids whose stop list contains the stop, each once |
| BreadthFirst.ExpansionCovers | src/app/algorithms.cpp:89-95 | if every visited node shallower than max_depth has its successors visited, every walk of the remaining length from a visited node stays among visited nodes |
| BreadthFirst.Nodes | src/app/algorithms.cpp:78 | the node ids of the queue's (node, depth) pairs, one per entry |
| BreadthFirst.NodesAppend | src/app/algorithms.cpp:93 | the node ids of two queues joined are the ids of each, joined |
| BreadthFirst.NodesPop | src/app/algorithms.cpp:84-87 | popping the front moves its node from the queue to the reported list without changing their concatenation |
| BreadthFirst.FewerLeft | src/app/algorithms.cpp:92 | visiting new nodes leaves fewer to visit (termination) |
| BreadthFirst.NewTargetsExact | src/app/algorithms.cpp:90-93 | the nodes the inner loop queues hold no repeats and are exactly the edge targets that were not visited before it |
| BreadthFirst.NewTargetsSnoc | src/app/algorithms.cpp:91-93 | one more edge queues its target exactly when that target is neither visited before the loop nor queued by an earlier edge |
| BreadthFirst.VisitsSnoc | src/app/algorithms.cpp:93 | queueing one more node appends one (node, depth) entry at the back |
| BreadthFirst.EdgeTo | src/app/algorithms.cpp:90-92 | when some edge leads to v, the edge picked is one of the list and leads to v |
| BreadthFirst.Extend | src/app/algorithms.cpp:91-93 | the bookkeeping after an expansion: the new nodes follow in the discovery order, at the new depth, reached through their edge |
| BreadthFirst.ExtendDiscovered | src/app/algorithms.cpp:90-95 | expanding a node shallower than max_depth keeps every visited node once, each with a walk from start as long as its depth |
| BreadthFirst.ExtendExpanding | src/app/algorithms.cpp:90-95 | after the inner loop every edge target is visited, and the queue and visited set grew by the same new nodes, one level deeper |
| BreadthFirst.ExtendSearch | src/app/algorithms.cpp:90-95 | the two facts above together, for the inner loop's new targets |
| BreadthFirst.SearchStart | src/app/algorithms.cpp:80-81 | the initial queue [(start, 0)] with visited {start} satisfies the search invariant |
| BreadthFirst.SearchFront | src/app/algorithms.cpp:84 | the front of the queue is visited at its depth, and nothing visited is deeper than one level below it |
| BreadthFirst.SearchLeaf | src/app/algorithms.cpp:87-89 | reporting a node at max_depth without expanding it keeps the search invariant |
| BreadthFirst.SearchExpand | src/app/algorithms.cpp:87-96 | reporting and expanding a node shallower than max_depth keeps the search invariant |
| BreadthFirst.ExpandReported | src/app/algorithms.cpp:87 | the reported list stays visited and in non-decreasing depth |
| BreadthFirst.ExpandQueue | src/app/algorithms.cpp:93 | the queue stays in non-decreasing depth, within one level of the last reported node |
| BreadthFirst.ExpandClosed | src/app/algorithms.cpp:89-95 | every successor of an expanded node is visited, at most one level deeper |
| BreadthFirst.SearchDone | src/app/algorithms.cpp:83-99 | once the queue is empty, the reported list has no repeats, holds exactly the start and the nodes within max_depth hops, and records hop distances |
| Transport.WithStops | src/app/transport.cpp:157-158 | add_node for each stop: the nodes are the old nodes plus the stops; old lists kept, new lists empty |
| Transport.EdgesFrom | src/app/transport.cpp:173-174 | a node gets at most one edge per add_edge call |
| Transport.LegArcs | src/app/transport.cpp:162-175 | a route of fewer than two stops adds no edges; a route of n >= 2 stops adds 2(n-1) |
| Transport.LegArcsAt | src/app/transport.cpp:163-174 | leg i contributes the forward edge at 2i and the backward edge at 2i+1, both weighted by the distance between stop i and stop i+1 |
| Transport.ApplyArcsNodes | src/app/transport.cpp:173-174 | add_edge calls add their endpoints as nodes and keep every edge target a node |
| Transport.ApplyArcsOut | src/app/transport.cpp:173-174 | add_edge calls append to each node's list exactly the edges leaving it, in call order |
| Transport.ApplyArcsAppend | src/app/transport.cpp:160-176 | two batches of add_edge calls equal all of them in order |
| Transport.EdgesFromCount | src/app/transport.cpp:173-174 | the list of n holds Edge(t, w) once per add_edge(n, t, w) call: repeated legs become parallel edges |
| Transport.RoutesArcsCount | src/app/transport.cpp:160-176 | the routes add 2(n-1) edges for each route of n >= 2 stops and none for the others |
| Transport.LegArcsEnds | src/app/transport.cpp:162-175 | the endpoints of a route's edges are its stops when it has at least two, none otherwise |
| Transport.RoutesArcsEnds | src/app/transport.cpp:160-176 | the endpoints of all edges added are the stops of the routes with at least two stops |
| Transport.BuildNodes | src/app/transport.cpp:156-177 | after initialize_graph the nodes are the old nodes, every stop, and every stop of a route of at least two stops |
| Transport.BuildEdges | src/app/transport.cpp:156-177 | after initialize_graph each list is the old list followed by the edges of the legs leaving that node, in route order |
| Transport.RoutesStep | src/app/transport.cpp:161 | one more route appends its edges after those of the earlier routes |
| Transport.LegStep | src/app/transport.cpp:163-175 | one more leg is the add_edge pair (from, to) then (to, from) with the same weight |
| Transport.InitializeGraph | src/app/transport.cpp:156-177 | the graph becomes Build of the old graph, and the invariant is kept |
| Scenarios.Fixture | tests/test_algorithms.cpp:9-20 | the fixture's add_node and add_edge calls build the four-node graph |
| Scenarios.FixtureBuilt | tests/test_algorithms.cpp:11-19 | the fixture's calls, applied to the empty map, give exactly the four lists of the fixture |
| Scenarios.FixtureStep | tests/test_algorithms.cpp:16-19 | one fixture add_edge appends to the list of its source only |
| Scenarios.LightWalksAreDetour | tests/test_algorithms.cpp:25-34 | on the fixture, the only walk from 1 to 4 of weight at most 9 is 1->2->3->4 |
| Scenarios.DetourIsShortest | tests/test_algorithms.cpp:25-34 | dijkstra_shortest_path(1, 4) on the fixture is [1, 2, 3, 4] |
| Scenarios.NothingEnters | tests/test_algorithms.cpp:36-41 | a node no edge enters cannot end a node path of two or more nodes |
| Scenarios.IsolatedNodeHasNoPath | tests/test_algorithms.cpp:36-41 | after add_node(5), dijkstra_shortest_path(1, 5) is empty |
| Scenarios.AllWithinTwoHops | tests/test_algorithms.cpp:43-48 | bfs_reachable_nodes(1, 2) on the fixture returns exactly nodes 1 to 4, each once (the test asks for at least 3) |
| Scenarios.InnerLoopQueuesNewTargets | src/app/algorithms.cpp:90-95 | from node 1 with edges to 3 and 2, with 0, 1 and 2 visited, only 3 is queued; a list naming 4 twice queues 4 once, before 3 |
| Scenarios.RoutesThroughSharedStop | tests/test_algorithms.cpp:62-73 | of three routes, exactly routes 1 and 2 pass through stop 102, so two ids come back |

## Left out

- calculate_distance (src/app/algorithms.cpp:118-139), the haversine formula in floating point, is not modelled. initialize_graph's call to it is replaced by an input function `distance` of the two stop ids.
- get_stop's coordinate lookup for a leg is also abstracted into `distance`. Its fallback for a missing stop is therefore not modelled.
- Edge weights are `double` in the source and `nat` here. The negative and non-integral weights, the rounding of `current_dist + edge.weight` and the INF constant are not modelled. The scenarios scale the test weights 1.0, 2.0, 1.5 and 5.0 by two.
- Algorithms.DijkstraShortestPath: the source first sets every node's distance to INF. The model keeps only the finite distances, and a node absent from `distances` stands for INF.
- Algorithms.DijkstraShortestPath requires `g.Valid()`, the invariant that every edge target is a node. Every Graph mutator keeps it. Without it, `distances[edge.target]` in the source would default-insert 0.0 for a target outside the node set.
- Algorithms.BfsReachableNodes requires `g.Valid()` only for its termination argument. That argument counts the nodes left to visit among the graph's nodes and the start. bfs_reachable_nodes itself never default-inserts into a map.
- Algorithms.DijkstraShortestPath promises only that the walk returned is a lightest one. When several walks are equally light, the source's choice is deterministic. Three things fix it: the priority queue pops the least (distance, node) pair, each edge list is walked in order, and a distance is replaced only when strictly smaller (`<` at src/app/algorithms.cpp:60). The loop at lines 27-30 only writes INF and does not affect the choice. The model's body follows all three (MinEntry, and RelaxEdges walking the edges in order), but its contract does not state which lightest walk comes back.
- Algorithms.MinEntry: the std::priority_queue heap layout is not modelled. The queue is the sequence of pushed and not-yet-popped entries, and pq.top() is its least (distance, node) pair.
- Graphs.Graph.GetAllNodes and Algorithms.FindRoutesThroughStop return their elements in an order the contracts leave open. std::unordered_map does not promise an iteration order.
- Graphs.Graph.GetEdges returns the list by value. The source returns a reference into the map, or to a static empty vector, so aliasing is not modelled.
- Integer widths are not modelled. Node ids and depths are unbounded integers, so the `depth + 1` overflow and size_t sizes are not modelled.
- Algorithms.BfsReachableNodes returns a ghost `depths` sequence beside the result. This is proof bookkeeping for the hop-distance property; the source has no such output.
- Transport.InitializeGraph's contract is stated with `old`. The properties of the resulting graph are proved as lemmas about `Build` (BuildNodes, BuildEdges, RoutesArcsCount, EdgesFromCount).
- The database, the SQLite wrapper, the connection pool, the logger, the services, the CLI in main.cpp and the Python scripts are not part of this model. initialize_graph's `get_all_stops` and `get_all_routes` results are inputs: the stop ids, and each route's stop ids in sequence order.
- Concurrency is not modelled: the Graph has no synchronization.
