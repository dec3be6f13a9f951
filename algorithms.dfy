/**
 * The path-finding and lookup algorithms over a Graph: Dijkstra's shortest
 * path with a lazily pruned priority queue, a breadth-first search bounded by
 * hop depth, and the scan for the routes that pass through a stop.
 */
module Algorithms {
  import opened Graphs
  import opened Walks
  import opened BreadthFirst

  // ---------------------------------------------------------------------------
  // The priority queue of (tentative distance, node) pairs.
  //
  // std::priority_queue with std::greater pops the least pair; pairs compare
  // by distance first and by node id second. The heap layout is not modelled:
  // the queue is the sequence of pushed and not yet popped entries.
  // ---------------------------------------------------------------------------

  datatype Entry = Entry(dist: nat, node: int)

  /** The pair order of std::pair<double, int>: x pops no later than y. */
  predicate NotAfter(x: Entry, y: Entry)
  {
    x.dist < y.dist || (x.dist == y.dist && x.node <= y.node)
  }

  /** pq.top(): the least entry. */
  function MinEntry(pq: seq<Entry>): (m: Entry)
    requires pq != []
    ensures m in pq
    ensures forall e :: e in pq ==> NotAfter(m, e)
    decreases |pq|
  {
    if |pq| == 1 then pq[0]
    else
      var m := MinEntry(pq[1..]);
      assert forall e :: e in pq ==> e == pq[0] || e in pq[1..];
      if NotAfter(pq[0], m) then pq[0] else m
  }

  /** pq.pop() after top() returned m: one copy of m leaves the queue. */
  function RemoveOne(pq: seq<Entry>, m: Entry): (r: seq<Entry>)
    requires m in pq
    ensures |r| == |pq| - 1
    ensures multiset(r) == multiset(pq) - multiset{m}
    ensures forall e :: e in r ==> e in pq
    ensures forall e :: e in pq && e != m ==> e in r
    decreases |pq|
  {
    assert pq == [pq[0]] + pq[1..];
    if pq[0] == m then pq[1..] else [pq[0]] + RemoveOne(pq[1..], m)
  }

  // ---------------------------------------------------------------------------
  // dijkstra_shortest_path
  // ---------------------------------------------------------------------------

  /**
   * The queue half of the loop invariant: every queued entry names a node
   * whose known distance is no larger than the entry's, every known but
   * unsettled node has its current distance queued, and no settled node is
   * farther than any queued entry.
   */
  ghost predicate QueueInvariant(distances: map<int, nat>, visited: set<int>, pq: seq<Entry>)
  {
    && visited <= distances.Keys
    && (forall e :: e in pq ==> e.node in distances && distances[e.node] <= e.dist)
    && (forall v :: v in distances && v !in visited ==> Entry(distances[v], v) in pq)
    && (forall y, e :: y in visited && e in pq ==> distances[y] <= e.dist)
  }

  /** Every edge out of y has been relaxed. */
  ghost predicate RelaxedAt(a: Adjacency, distances: map<int, nat>, y: int)
  {
    && y in distances
    && forall e :: e in Out(a, y) ==> e.target in distances && distances[e.target] <= distances[y] + e.weight
  }

  /**
   * Every predecessor link leads back along an edge (`via`) to a settled node,
   * and the distance through that edge is no more than the recorded one.
   */
  ghost predicate LinksInvariant(a: Adjacency, distances: map<int, nat>, previous: map<int, int>,
                                 via: map<int, Edge>, visited: set<int>)
  {
    forall v :: v in previous ==>
      && v in distances && v in via && previous[v] in visited && previous[v] in distances
      && via[v] in Out(a, previous[v]) && via[v].target == v
      && distances[previous[v]] + via[v].weight <= distances[v]
  }

  /**
   * The key fact behind Dijkstra's algorithm: while the queue invariant holds
   * and every settled node is relaxed, a walk from a node y with a known
   * distance either ends at a settled node or the queue holds an entry no
   * heavier than dist[y] plus the walk's cost.
   */
  lemma {:induction false} FrontierBound(a: Adjacency, distances: map<int, nat>, visited: set<int>,
                                         pq: seq<Entry>, y: int, ws: seq<Edge>)
    requires QueueInvariant(distances, visited, pq)
    requires forall x :: x in visited ==> RelaxedAt(a, distances, x)
    requires y in distances
    requires IsWalk(a, y, ws)
    ensures End(y, ws) in visited || exists e :: e in pq && e.dist <= distances[y] + Cost(ws)
    decreases |ws|
  {
    if y !in visited {
      assert Entry(distances[y], y) in pq;
    } else if ws != [] {
      assert RelaxedAt(a, distances, y);
      FrontierBound(a, distances, visited, pq, ws[0].target, ws[1..]);
    }
  }

  /**
   * One successful relaxation of an edge out of the node just settled (the
   * body of the inner `if` of dijkstra_shortest_path) keeps both invariants;
   * the improved node is never a settled one.
   */
  lemma RelaxStep(a: Adjacency, distances: map<int, nat>, previous: map<int, int>, via: map<int, Edge>,
                  visited: set<int>, pq: seq<Entry>, current: int, edge: Edge, newDist: nat)
    requires QueueInvariant(distances, visited, pq)
    requires LinksInvariant(a, distances, previous, via, visited)
    requires Closed(a) && current in visited && edge in Out(a, current)
    requires newDist == distances[current] + edge.weight
    requires forall y :: y in visited ==> distances[y] <= distances[current]
    requires edge.target !in distances || newDist < distances[edge.target]
    ensures edge.target !in visited && edge.target in a
    ensures QueueInvariant(distances[edge.target := newDist], visited, pq + [Entry(newDist, edge.target)])
    ensures LinksInvariant(a, distances[edge.target := newDist], previous[edge.target := current],
                           via[edge.target := edge], visited)
  {
    forall v | v in previous && v != edge.target
      ensures via[v] in Out(a, previous[v])
    {
    }
  }

  /**
   * Relaxing edges out of the node just settled only lowers known distances
   * and never those of settled nodes, so settled nodes stay relaxed.
   */
  lemma RelaxedKept(a: Adjacency, before: map<int, nat>, after: map<int, nat>, visited: set<int>)
    requires forall y :: y in visited ==> RelaxedAt(a, before, y)
    requires visited <= before.Keys <= after.Keys
    requires forall v :: v in before ==> after[v] <= before[v]
    requires forall y :: y in visited ==> after[y] == before[y]
    ensures forall y :: y in visited ==> RelaxedAt(a, after, y)
  {
  }

  /**
   * What relaxation does to the maps: settled nodes keep their distance and
   * their predecessor, other known distances only go down, and every newly
   * known node is a graph node with a predecessor.
   */
  ghost predicate Lowered(a: Adjacency, distances0: map<int, nat>, previous0: map<int, int>, visited: set<int>,
                          distances: map<int, nat>, previous: map<int, int>)
  {
    && visited <= distances0.Keys
    && distances0.Keys <= distances.Keys && previous0.Keys <= previous.Keys
    && (forall v :: v in distances && v !in distances0 ==> v in a && v in previous)
    && (forall v :: v in distances0 ==> distances[v] <= distances0[v])
    && (forall y :: y in visited ==> distances[y] == distances0[y])
    && (forall y :: y in visited && y in previous ==> y in previous0 && previous[y] == previous0[y])
  }

  /** Every edge of es is relaxed from a node at distance d. */
  ghost predicate EdgesRelaxed(es: seq<Edge>, d: nat, distances: map<int, nat>)
  {
    forall e :: e in es ==> e.target in distances && distances[e.target] <= d + e.weight
  }

  /**
   * The state of the inner loop of dijkstra_shortest_path after the first i
   * edges out of the node just settled were relaxed.
   */
  ghost predicate Relaxing(a: Adjacency, edges: seq<Edge>, currentDist: nat, distances0: map<int, nat>,
                           previous0: map<int, int>, visited: set<int>, i: nat,
                           distances: map<int, nat>, previous: map<int, int>, pq: seq<Entry>, via: map<int, Edge>)
  {
    && i <= |edges|
    && Lowered(a, distances0, previous0, visited, distances, previous)
    && QueueInvariant(distances, visited, pq)
    && LinksInvariant(a, distances, previous, via, visited)
    && EdgesRelaxed(edges[..i], currentDist, distances)
  }

  /** Improving the distance of an unsettled node keeps the maps lowered. */
  lemma LoweredImprove(a: Adjacency, distances0: map<int, nat>, previous0: map<int, int>, visited: set<int>,
                       distances: map<int, nat>, previous: map<int, int>, target: int, newDist: nat, from: int)
    requires Lowered(a, distances0, previous0, visited, distances, previous)
    requires target in a && target !in visited
    requires target !in distances || newDist < distances[target]
    ensures Lowered(a, distances0, previous0, visited, distances[target := newDist], previous[target := from])
  {
  }

  /** Relaxing one more edge extends the relaxed prefix. */
  lemma EdgesRelaxedImprove(edges: seq<Edge>, i: nat, d: nat, distances: map<int, nat>)
    requires i < |edges|
    requires EdgesRelaxed(edges[..i], d, distances)
    requires edges[i].target !in distances || d + edges[i].weight < distances[edges[i].target]
    ensures EdgesRelaxed(edges[..i + 1], d, distances[edges[i].target := d + edges[i].weight])
  {
    var edge := edges[i];
    var distances' := distances[edge.target := d + edge.weight];
    PrefixSnoc(edges, i);
    forall e | e in edges[..i + 1]
      ensures e.target in distances' && distances'[e.target] <= d + e.weight
    {
      if e != edge {
        assert e in edges[..i];
      }
    }
  }

  /** An edge already relaxed extends the relaxed prefix without a change. */
  lemma EdgesRelaxedKeep(edges: seq<Edge>, i: nat, d: nat, distances: map<int, nat>)
    requires i < |edges|
    requires EdgesRelaxed(edges[..i], d, distances)
    requires edges[i].target in distances && distances[edges[i].target] <= d + edges[i].weight
    ensures EdgesRelaxed(edges[..i + 1], d, distances)
  {
    PrefixSnoc(edges, i);
  }

  /** An edge that improves its target's distance: the loop state after the update. */
  lemma RelaxingImprove(a: Adjacency, edges: seq<Edge>, current: int, currentDist: nat, distances0: map<int, nat>,
                        previous0: map<int, int>, visited: set<int>, i: nat,
                        distances: map<int, nat>, previous: map<int, int>, pq: seq<Entry>, via: map<int, Edge>,
                        distances': map<int, nat>, previous': map<int, int>, pq': seq<Entry>, via': map<int, Edge>)
    requires Relaxing(a, edges, currentDist, distances0, previous0, visited, i, distances, previous, pq, via)
    requires Closed(a) && edges == Out(a, current) && i < |edges|
    requires current in visited && distances0[current] == currentDist
    requires forall y :: y in visited ==> distances0[y] <= currentDist
    requires edges[i].target !in distances || currentDist + edges[i].weight < distances[edges[i].target]
    requires distances' == distances[edges[i].target := currentDist + edges[i].weight]
    requires previous' == previous[edges[i].target := current]
    requires pq' == pq + [Entry(currentDist + edges[i].weight, edges[i].target)]
    requires via' == via[edges[i].target := edges[i]]
    ensures Relaxing(a, edges, currentDist, distances0, previous0, visited, i + 1, distances', previous', pq', via')
  {
    var edge := edges[i];
    var newDist := currentDist + edge.weight;
    RelaxStep(a, distances, previous, via, visited, pq, current, edge, newDist);
    LoweredImprove(a, distances0, previous0, visited, distances, previous, edge.target, newDist, current);
    EdgesRelaxedImprove(edges, i, currentDist, distances);
  }

  /** An edge that does not improve its target's distance: only the relaxed prefix grows. */
  lemma RelaxingKeep(a: Adjacency, edges: seq<Edge>, currentDist: nat, distances0: map<int, nat>,
                     previous0: map<int, int>, visited: set<int>, i: nat,
                     distances: map<int, nat>, previous: map<int, int>, pq: seq<Entry>, via: map<int, Edge>)
    requires Relaxing(a, edges, currentDist, distances0, previous0, visited, i, distances, previous, pq, via)
    requires i < |edges|
    requires edges[i].target in distances && distances[edges[i].target] <= currentDist + edges[i].weight
    ensures Relaxing(a, edges, currentDist, distances0, previous0, visited, i + 1, distances, previous, pq, via)
  {
    EdgesRelaxedKeep(edges, i, currentDist, distances);
  }

  /**
   * The inner loop of dijkstra_shortest_path: relaxes the edges out of the
   * node just settled, in list order. Settled nodes keep their distance and
   * their predecessor; other known distances can only go down.
   */
  method RelaxEdges(ghost a: Adjacency, edges: seq<Edge>, current: int, currentDist: nat,
                    distances0: map<int, nat>, previous0: map<int, int>, pq0: seq<Entry>,
                    ghost via0: map<int, Edge>, ghost visited: set<int>)
    returns (distances: map<int, nat>, previous: map<int, int>, pq: seq<Entry>, ghost via: map<int, Edge>)
    requires Closed(a) && edges == Out(a, current)
    requires current in visited && visited <= distances0.Keys && distances0[current] == currentDist
    requires forall y :: y in visited ==> distances0[y] <= currentDist
    requires QueueInvariant(distances0, visited, pq0)
    requires LinksInvariant(a, distances0, previous0, via0, visited)
    ensures distances0.Keys <= distances.Keys && previous0.Keys <= previous.Keys
    ensures forall v :: v in distances && v !in distances0 ==> v in a && v in previous
    ensures forall v :: v in distances0 ==> distances[v] <= distances0[v]
    ensures forall y :: y in visited ==> distances[y] == distances0[y]
    ensures forall y :: y in visited && y in previous ==> y in previous0 && previous[y] == previous0[y]
    ensures QueueInvariant(distances, visited, pq)
    ensures LinksInvariant(a, distances, previous, via, visited)
    ensures RelaxedAt(a, distances, current)
  {
    distances, previous, pq, via := distances0, previous0, pq0, via0;
    for i := 0 to |edges|
      invariant Relaxing(a, edges, currentDist, distances0, previous0, visited, i, distances, previous, pq, via)
    {
      var edge := edges[i];
      var newDist := currentDist + edge.weight;
      if edge.target !in distances || newDist < distances[edge.target] {
        var distances', previous', pq' := distances[edge.target := newDist], previous[edge.target := current],
                                          pq + [Entry(newDist, edge.target)];
        ghost var via' := via[edge.target := edge];
        RelaxingImprove(a, edges, current, currentDist, distances0, previous0, visited, i,
                        distances, previous, pq, via, distances', previous', pq', via');
        distances, previous, pq, via := distances', previous', pq', via';
      } else {
        RelaxingKeep(a, edges, currentDist, distances0, previous0, visited, i, distances, previous, pq, via);
      }
    }
    assert edges[..|edges|] == edges;
  }

  /**
   * Popping an entry whose node is already settled (the `continue` of
   * dijkstra_shortest_path) keeps the queue invariant: the entry was stale.
   */
  lemma StalePop(distances: map<int, nat>, visited: set<int>, queued: seq<Entry>, top: Entry)
    requires QueueInvariant(distances, visited, queued)
    requires top in queued && top.node in visited
    ensures QueueInvariant(distances, visited, RemoveOne(queued, top))
  {
  }

  /**
   * Popping the least entry of a node that is not settled yet settles it:
   * the entry carries the node's known distance, no settled node is farther,
   * and both invariants hold with the node added to the settled set.
   */
  lemma SettlePop(a: Adjacency, distances: map<int, nat>, previous: map<int, int>, via: map<int, Edge>,
                  visited: set<int>, queued: seq<Entry>, top: Entry)
    requires QueueInvariant(distances, visited, queued)
    requires LinksInvariant(a, distances, previous, via, visited)
    requires queued != [] && top == MinEntry(queued) && top.node !in visited
    ensures top.node in distances && distances[top.node] == top.dist
    ensures forall y :: y in visited + {top.node} ==> distances[y] <= top.dist
    ensures QueueInvariant(distances, visited + {top.node}, RemoveOne(queued, top))
    ensures LinksInvariant(a, distances, previous, via, visited + {top.node})
  {
    assert Entry(distances[top.node], top.node) in queued;
  }

  /** Settling one more node of a finite set leaves fewer to settle. */
  lemma SettledShrinks(nodes: set<int>, visited: set<int>, x: int)
    requires x in nodes && x !in visited
    ensures |nodes - (visited + {x})| < |nodes - visited|
  {
    assert nodes - (visited + {x}) == (nodes - visited) - {x};
  }

  /** Keys added by relaxation are graph nodes, so the known distances stay within the graph. */
  lemma KeysStayNodes(a: Adjacency, before: map<int, nat>, after: map<int, nat>)
    requires before.Keys <= a.Keys
    requires forall v :: v in after && v !in before ==> v in a
    ensures after.Keys <= a.Keys
  {
    forall v | v in after
      ensures v in a
    {
      if v in before {
        assert v in before.Keys;
      }
    }
  }

  /**
   * Nodes are numbered in the order they were settled (`rank`, below
   * `count`), and every settled node with a predecessor was settled after
   * that predecessor: following the links from a settled node terminates.
   */
  ghost predicate SettleOrder(previous: map<int, int>, visited: set<int>, rank: map<int, nat>, count: nat)
  {
    && rank.Keys == visited
    && (forall y :: y in visited ==> rank[y] < count)
    && forall v {:trigger previous[v]} :: v in previous && v in visited ==>
         previous[v] in visited && rank[previous[v]] < rank[v]
  }

  /** Settling a node whose predecessor (if any) is settled extends the order. */
  lemma SettleOrderSettle(previous: map<int, int>, visited: set<int>, rank: map<int, nat>, count: nat, current: int)
    requires SettleOrder(previous, visited, rank, count)
    requires current !in visited
    requires current in previous ==> previous[current] in visited
    ensures SettleOrder(previous, visited + {current}, rank[current := count], count + 1)
  {
    var rank' := rank[current := count];
    forall v | v in previous && v in visited + {current}
      ensures previous[v] in visited + {current} && rank'[previous[v]] < rank'[v]
    {
      if v != current {
        assert previous[v] in visited && rank[previous[v]] < rank[v];
      } else {
        var p := previous[current];
        assert p in visited;
        assert rank[p] < count;
      }
    }
  }

  /** Relaxation leaves the links of settled nodes alone, so the order stands. */
  lemma SettleOrderRelax(previous0: map<int, int>, previous: map<int, int>, visited: set<int>,
                         rank: map<int, nat>, count: nat)
    requires SettleOrder(previous0, visited, rank, count)
    requires forall y :: y in visited && y in previous ==> y in previous0 && previous[y] == previous0[y]
    ensures SettleOrder(previous, visited, rank, count)
  {
    forall v | v in previous && v in visited
      ensures previous[v] in visited && rank[previous[v]] < rank[v]
    {
      assert previous0[v] == previous[v];
    }
  }

  /**
   * The path reconstruction of dijkstra_shortest_path: follows the
   * predecessor links back from endNode to startNode, then reverses. The
   * links lead along a walk no heavier than the distance of endNode.
   */
  method ReconstructPath(ghost a: Adjacency, previous: map<int, int>, startNode: int, endNode: int,
                         ghost distances: map<int, nat>, ghost via: map<int, Edge>,
                         ghost visited: set<int>, ghost rank: map<int, nat>, ghost count: nat)
    returns (path: seq<int>, ghost walk: seq<Edge>)
    requires endNode in visited && visited <= distances.Keys
    requires LinksInvariant(a, distances, previous, via, visited)
    requires forall v :: v in visited && v != startNode ==> v in previous
    requires SettleOrder(previous, visited, rank, count)
    ensures IsWalk(a, startNode, walk) && End(startNode, walk) == endNode
    ensures Cost(walk) <= distances[endNode]
    ensures path == Trace(startNode, walk)
    ensures startNode == endNode ==> path == [startNode]
  {
    var node := endNode;
    var reversed: seq<int> := [];
    walk := [];
    while node != startNode
      invariant node in visited
      invariant startNode == endNode ==> node == startNode && reversed == []
      invariant IsWalk(a, node, walk) && End(node, walk) == endNode
      invariant distances[node] + Cost(walk) <= distances[endNode]
      invariant Trace(node, walk) == [node] + Reverse(reversed)
      decreases rank[node]
    {
      ReverseSnoc(reversed, node);
      var edge := via[node];
      assert ([edge] + walk)[0] == edge && ([edge] + walk)[1..] == walk;
      reversed := reversed + [node];
      walk := [edge] + walk;
      node := previous[node];
    }
    ReverseSnoc(reversed, startNode);
    reversed := reversed + [startNode];
    path := Reverse(reversed);
    assert Reverse([]) == [];
  }

  /**
   * dijkstra_shortest_path: the node sequence of a lightest walk from startNode
   * to endNode, or [] when either is not a node or endNode cannot be reached.
   * A distance that is absent from `distances` stands for INF.
   */
  method DijkstraShortestPath(g: Graph, startNode: int, endNode: int) returns (path: seq<int>)
    requires g.Valid()
    ensures !g.HasNode(startNode) || !g.HasNode(endNode) ==> path == []
    ensures g.HasNode(startNode) && startNode == endNode ==> path == [startNode]
    ensures path != [] ==> path[0] == startNode && path[|path| - 1] == endNode
    ensures path != [] ==> IsNodePath(g.adjacency, path)
    ensures path != [] ==>
              exists ws :: IsShortestWalk(g.adjacency, startNode, endNode, ws) && Trace(startNode, ws) == path
    ensures path == [] && g.HasNode(startNode) && g.HasNode(endNode) ==>
              !Reachable(g.adjacency, startNode, endNode)
  {
    if !g.HasNode(startNode) || !g.HasNode(endNode) {
      return [];
    }
    ghost var a := g.adjacency;
    var distances: map<int, nat> := map[startNode := 0];
    var previous: map<int, int> := map[];
    var visited: set<int> := {};
    var pq: seq<Entry> := [Entry(0, startNode)];
    // The edge each predecessor link was relaxed along, and the order in
    // which nodes were settled.
    ghost var via: map<int, Edge> := map[];
    ghost var rank: map<int, nat> := map[];
    ghost var settledCount: nat := 0;

    while pq != []
      invariant startNode in distances && distances[startNode] == 0
      invariant distances.Keys <= a.Keys
      invariant endNode !in visited
      invariant QueueInvariant(distances, visited, pq)
      invariant forall y :: y in visited ==> RelaxedAt(a, distances, y)
      invariant forall v :: v in distances && v != startNode ==> v in previous
      invariant LinksInvariant(a, distances, previous, via, visited)
      invariant SettleOrder(previous, visited, rank, settledCount)
      decreases |a.Keys - visited|, |pq|
    {
      ghost var queued := pq;
      var top := MinEntry(pq);
      pq := RemoveOne(pq, top);
      var currentDist, current := top.dist, top.node;

      if current in visited {
        StalePop(distances, visited, queued, top);
        continue;
      }
      SettlePop(a, distances, previous, via, visited, queued, top);
      SettledShrinks(a.Keys, visited, current);
      SettleOrderSettle(previous, visited, rank, settledCount, current);
      ghost var settledBefore := visited;
      visited := visited + {current};
      rank := rank[current := settledCount];
      settledCount := settledCount + 1;

      if current == endNode {
        // No walk to endNode is lighter than the distance it was popped with.
        forall ws | IsWalk(a, startNode, ws) && End(startNode, ws) == endNode
          ensures currentDist <= Cost(ws)
        {
          FrontierBound(a, distances, settledBefore, queued, startNode, ws);
          var e :| e in queued && e.dist <= distances[startNode] + Cost(ws);
          assert NotAfter(top, e);
        }
        ghost var walk;
        path, walk := ReconstructPath(a, previous, startNode, endNode, distances, via, visited, rank, settledCount);
        TraceOfWalk(a, startNode, walk);
        assert IsShortestWalk(a, startNode, endNode, walk);
        return;
      }

      var edges := g.GetEdges(current);
      ghost var distancesBefore, previousBefore := distances, previous;
      distances, previous, pq, via := RelaxEdges(a, edges, current, currentDist, distances, previous, pq, via, visited);
      SettleOrderRelax(previousBefore, previous, visited, rank, settledCount);
      RelaxedKept(a, distancesBefore, distances, settledBefore);
      KeysStayNodes(a, distancesBefore, distances);
    }

    // The queue ran dry before endNode was settled: no walk reaches it.
    assert IsWalk(a, startNode, []) && End(startNode, []) == startNode;
    forall ws | IsWalk(a, startNode, ws)
      ensures End(startNode, ws) != endNode
    {
      FrontierBound(a, distances, visited, pq, startNode, ws);
    }
    return [];
  }

  // ---------------------------------------------------------------------------
  // bfs_reachable_nodes
  // ---------------------------------------------------------------------------

  /**
   * The inner loop of bfs_reachable_nodes over the edges out of a node
   * discovered at `depth`: each target not visited yet is visited and queued
   * one level deeper, at its first edge, in edge order. The ghost outputs `d`
   * and `added` are the search bookkeeping after the loop and the entries it
   * queued.
   */
  method DiscoverNeighbours(ghost a: Adjacency, startNode: int, maxDepth: int, edges: seq<Edge>,
                            current: int, depth: nat, visited0: set<int>, queue0: seq<Visit>,
                            ghost d0: Discovery)
    returns (visited: set<int>, queue: seq<Visit>, ghost d: Discovery, ghost added: seq<Visit>)
    requires Discovered(a, startNode, maxDepth, visited0, d0)
    requires current in visited0 && d0.dep[current] == depth < maxDepth && edges == Out(a, current)
    requires Closed(a) && visited0 <= Universe(a, startNode)
    requires forall v :: v in visited0 ==> d0.dep[v] <= depth + 1
    ensures queue == queue0 + Visits(NewTargets(edges, visited0), depth + 1)
    ensures forall v :: v in visited <==> v in visited0 || v in NewTargets(edges, visited0)
    ensures Discovered(a, startNode, maxDepth, visited, d)
    ensures Expanding(a, startNode, maxDepth, edges, depth, visited0, queue0, d0, |edges|, visited, queue, d, added)
  {
    visited, queue := visited0, queue0;
    for i := 0 to |edges|
      invariant queue == queue0 + Visits(NewTargets(edges[..i], visited0), depth + 1)
      invariant forall v :: v in visited <==> v in visited0 || v in NewTargets(edges[..i], visited0)
    {
      NewTargetsSnoc(edges, i, visited0);
      var target := edges[i].target;
      if target !in visited {
        VisitsSnoc(NewTargets(edges[..i], visited0), target, depth + 1);
        visited := visited + {target};
        queue := queue + [Visit(target, depth + 1)];
      }
    }
    assert edges[..|edges|] == edges;
    added := Visits(NewTargets(edges, visited0), depth + 1);
    d := Extend(d0, current, edges, NewTargets(edges, visited0), depth + 1);
    ExtendSearch(a, startNode, maxDepth, edges, current, depth, visited0, queue0, d0, visited);
  }

  /**
   * The `if (depth < max_depth)` block of bfs_reachable_nodes: the front of
   * the queue, already reported, is expanded, which moves the search one
   * node on.
   */
  method ExpandFront(g: Graph, startNode: int, maxDepth: int, current: Visit, visited0: set<int>, rest: seq<Visit>,
                     ghost d0: Discovery, ghost reachable0: seq<int>, ghost depths0: seq<nat>,
                     ghost queue0: seq<Visit>, ghost level0: nat)
    returns (visited: set<int>, queue: seq<Visit>, ghost d: Discovery)
    requires g.Valid()
    requires Discovered(g.adjacency, startNode, maxDepth, visited0, d0)
    requires Searching(g.adjacency, startNode, maxDepth, visited0, d0, reachable0, depths0, queue0, level0)
    requires queue0 != [] && current == queue0[0] && rest == queue0[1..] && current.depth < maxDepth
    ensures Discovered(g.adjacency, startNode, maxDepth, visited, d)
    ensures Searching(g.adjacency, startNode, maxDepth, visited, d, reachable0 + [current.node],
                      depths0 + [current.depth], queue, current.depth)
    ensures |Universe(g.adjacency, startNode) - visited| < |Universe(g.adjacency, startNode) - visited0|
            || (visited == visited0 && |queue| < |queue0|)
    ensures current.node !in g.adjacency ==> queue == rest
  {
    ghost var a := g.adjacency;
    var edges := g.GetEdges(current.node);
    ghost var added;
    SearchFront(a, startNode, maxDepth, visited0, d0, reachable0, depths0, queue0, level0);
    visited, queue, d, added :=
      DiscoverNeighbours(a, startNode, maxDepth, edges, current.node, current.depth, visited0, rest, d0);
    SearchExpand(a, startNode, maxDepth, visited0, d0, reachable0, depths0, queue0, level0, visited, queue, d, added);
    if added != [] {
      FewerLeft(Universe(a, startNode), visited0, visited);
    }
  }

  /**
   * One round of the outer loop of bfs_reachable_nodes: the front of the
   * queue is popped and reported and, when shallower than maxDepth, expanded.
   */
  method VisitFront(g: Graph, startNode: int, maxDepth: int, visited0: set<int>, queue0: seq<Visit>,
                    reachable0: seq<int>, ghost depths0: seq<nat>, ghost d0: Discovery, ghost level0: nat)
    returns (visited: set<int>, queue: seq<Visit>, reachable: seq<int>, ghost depths: seq<nat>,
             ghost d: Discovery, ghost level: nat)
    requires g.Valid()
    requires Discovered(g.adjacency, startNode, maxDepth, visited0, d0)
    requires Searching(g.adjacency, startNode, maxDepth, visited0, d0, reachable0, depths0, queue0, level0)
    requires queue0 != []
    ensures Discovered(g.adjacency, startNode, maxDepth, visited, d)
    ensures Searching(g.adjacency, startNode, maxDepth, visited, d, reachable, depths, queue, level)
    ensures reachable == reachable0 + [queue0[0].node]
    ensures |Universe(g.adjacency, startNode) - visited| < |Universe(g.adjacency, startNode) - visited0|
            || (visited == visited0 && |queue| < |queue0|)
    ensures queue0[0].depth >= maxDepth || queue0[0].node !in g.adjacency ==> queue == queue0[1..]
  {
    var current := queue0[0];
    queue := queue0[1..];
    reachable := reachable0 + [current.node];
    depths := depths0 + [current.depth];
    level := current.depth;
    if current.depth < maxDepth {
      visited, queue, d :=
        ExpandFront(g, startNode, maxDepth, current, visited0, queue, d0, reachable0, depths0, queue0, level0);
    } else {
      SearchLeaf(g.adjacency, startNode, maxDepth, visited0, d0, reachable0, depths0, queue0, level0);
      visited, d := visited0, d0;
    }
  }

  /**
   * bfs_reachable_nodes: every node within maxDepth hops of startNode, each
   * once, in breadth-first order. `depths` is the hop distance of each.
   */
  method BfsReachableNodes(g: Graph, startNode: int, maxDepth: int)
    returns (reachable: seq<int>, ghost depths: seq<nat>)
    requires g.Valid()
    ensures |reachable| >= 1 && reachable[0] == startNode
    ensures NoDuplicates(reachable)
    ensures maxDepth <= 0 || !g.HasNode(startNode) ==> reachable == [startNode]
    ensures forall v :: v in reachable <==> v == startNode || WithinHops(g.adjacency, startNode, v, maxDepth)
    ensures |depths| == |reachable|
    ensures forall i :: 0 <= i < |reachable| ==> IsHopDistance(g.adjacency, startNode, reachable[i], depths[i])
    ensures forall i, j :: 0 <= i <= j < |depths| ==> depths[i] <= depths[j]
  {
    ghost var a := g.adjacency;
    reachable := [];
    depths := [];
    var visited: set<int> := {startNode};
    var queue: seq<Visit> := [Visit(startNode, 0)];
    ghost var d := Discovery([startNode], map[startNode := 0], map[startNode := []]);
    // The depth of the node reported last.
    ghost var level: nat := 0;
    SearchStart(a, startNode, maxDepth);

    while queue != []
      invariant Discovered(a, startNode, maxDepth, visited, d)
      invariant Searching(a, startNode, maxDepth, visited, d, reachable, depths, queue, level)
      invariant maxDepth <= 0 || startNode !in a ==>
                  (reachable == [] && queue == [Visit(startNode, 0)]) || (reachable == [startNode] && queue == [])
      decreases |Universe(a, startNode) - visited|, |queue|
    {
      visited, queue, reachable, depths, d, level :=
        VisitFront(g, startNode, maxDepth, visited, queue, reachable, depths, d, level);
    }
    SearchDone(a, startNode, maxDepth, visited, d, reachable, depths, level);
  }

  // ---------------------------------------------------------------------------
  // find_routes_through_stop
  // ---------------------------------------------------------------------------

  /**
   * find_routes_through_stop: the ids of the routes whose stop list contains
   * stopId, each once, in the map's (unspecified) iteration order.
   */
  method FindRoutesThroughStop(routeStops: map<int, seq<int>>, stopId: int) returns (routes: seq<int>)
    ensures forall r :: r in routes <==> r in routeStops && stopId in routeStops[r]
    ensures NoDuplicates(routes)
    ensures |routes| <= |routeStops|
  {
    routes := [];
    var pending := routeStops.Keys;
    while pending != {}
      invariant pending <= routeStops.Keys
      invariant forall r :: r in routes <==> r in routeStops && r !in pending && stopId in routeStops[r]
      invariant NoDuplicates(routes)
      invariant |routes| + |pending| <= |routeStops.Keys|
      decreases pending
    {
      HasElement(pending);
      var routeId :| routeId in pending;
      var stops := routeStops[routeId];
      var i := 0;
      while i < |stops|
        invariant 0 <= i <= |stops|
        invariant stopId !in stops[..i]
      {
        if stops[i] == stopId {
          routes := routes + [routeId];
          break;
        }
        i := i + 1;
      }
      pending := pending - {routeId};
    }
  }
}
