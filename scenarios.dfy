/**
 * The scenarios of the algorithm unit tests, on concrete graphs. The test
 * weights 1.0, 2.0, 1.5 and 5.0 are doubled to the whole numbers 2, 4, 3 and
 * 10, which keeps their order and their sums in the same order.
 */
module Scenarios {
  import opened Graphs
  import opened Walks
  import opened BreadthFirst
  import opened Algorithms

  /** The adjacency of the test fixture: 1->2->3->4 weighs 9, the direct edge 1->4 weighs 10. */
  ghost predicate IsFixture(a: Adjacency)
  {
    && a.Keys == {1, 2, 3, 4}
    && a[1] == [Edge(2, 2), Edge(4, 10)] && a[2] == [Edge(3, 4)] && a[3] == [Edge(4, 3)] && a[4] == []
  }

  /** The test fixture, built with add_node and add_edge as the test's SetUp does. */
  method Fixture() returns (g: Graph)
    ensures fresh(g) && g.Valid()
    ensures IsFixture(g.adjacency)
  {
    g := new Graph();
    g.AddNode(1);
    g.AddNode(2);
    g.AddNode(3);
    g.AddNode(4);
    g.AddEdge(1, 2, 2);
    g.AddEdge(2, 3, 4);
    g.AddEdge(3, 4, 3);
    g.AddEdge(1, 4, 10);
    FixtureBuilt();
  }

  /** The fixture's add_node and add_edge calls, applied to the empty graph, build the fixture. */
  lemma FixtureBuilt()
    ensures IsFixture(WithEdge(WithEdge(WithEdge(WithEdge(
              WithNode(WithNode(WithNode(WithNode(map[], 1), 2), 3), 4),
              1, 2, 2), 2, 3, 4), 3, 4, 3), 1, 4, 10))
  {
    var e12, e23, e34, e14 := [Edge(2, 2)], [Edge(3, 4)], [Edge(4, 3)], [Edge(4, 10)];
    assert [] + e12 + e14 == [Edge(2, 2), Edge(4, 10)];
    assert [] + e23 == e23 && [] + e34 == e34;
    var m0 := WithNode(WithNode(WithNode(WithNode(map[], 1), 2), 3), 4);
    assert m0 == map[1 := [], 2 := [], 3 := [], 4 := []];
    var m1 := WithEdge(m0, 1, 2, 2);
    FixtureStep(m0, [], [], [], [], 1, 2, 2);
    var m2 := WithEdge(m1, 2, 3, 4);
    FixtureStep(m1, [] + e12, [], [], [], 2, 3, 4);
    var m3 := WithEdge(m2, 3, 4, 3);
    FixtureStep(m2, [] + e12, [] + e23, [], [], 3, 4, 3);
    FixtureStep(m3, [] + e12, [] + e23, [] + e34, [], 1, 4, 10);
  }

  /** The four lists of a graph on the nodes 1 to 4. */
  ghost predicate FourLists(a: Adjacency, l1: seq<Edge>, l2: seq<Edge>, l3: seq<Edge>, l4: seq<Edge>)
  {
    a.Keys == {1, 2, 3, 4} && a[1] == l1 && a[2] == l2 && a[3] == l3 && a[4] == l4
  }

  /** One add_edge call of the fixture: the edge goes to the end of the list of `from`. */
  lemma FixtureStep(a: Adjacency, l1: seq<Edge>, l2: seq<Edge>, l3: seq<Edge>, l4: seq<Edge>,
                    from: int, to: int, weight: nat)
    requires FourLists(a, l1, l2, l3, l4)
    requires 1 <= from <= 4 && 1 <= to <= 4
    ensures FourLists(WithEdge(a, from, to, weight),
                      if from == 1 then l1 + [Edge(to, weight)] else l1,
                      if from == 2 then l2 + [Edge(to, weight)] else l2,
                      if from == 3 then l3 + [Edge(to, weight)] else l3,
                      if from == 4 then l4 + [Edge(to, weight)] else l4)
  {
    WithEdgeBetweenNodes(a, from, to, weight);
  }

  /** The walk 1->2->3->4 of the fixture. */
  function Detour(): seq<Edge>
  {
    [Edge(2, 2), Edge(3, 4), Edge(4, 3)]
  }

  /** The only walk of the fixture from 1 to 4 that weighs at most 9 is the detour. */
  lemma LightWalksAreDetour(a: Adjacency, ws: seq<Edge>)
    requires IsFixture(a)
    requires IsWalk(a, 1, ws) && End(1, ws) == 4 && Cost(ws) <= 9
    ensures ws == Detour()
  {
    assert ws != [];
    if ws[0] == Edge(4, 10) {
      assert Cost(ws) >= 10;
    } else {
      assert ws[0] == Edge(2, 2);
      var r1 := ws[1..];
      assert IsWalk(a, 2, r1) && End(2, r1) == 4;
      assert r1 != [] && r1[0] == Edge(3, 4);
      var r2 := r1[1..];
      assert IsWalk(a, 3, r2) && End(3, r2) == 4;
      assert r2 != [] && r2[0] == Edge(4, 3);
      var r3 := r2[1..];
      assert IsWalk(a, 4, r3);
      assert r3 == [];
      assert ws == [ws[0]] + ([r1[0]] + ([r2[0]] + r3));
    }
  }

  /** DijkstraShortestPath on the fixture takes the lighter detour 1, 2, 3, 4. */
  method DetourIsShortest() returns (path: seq<int>)
    ensures path == [1, 2, 3, 4]
  {
    var g := Fixture();
    ghost var a := g.adjacency;
    assert IsWalk(a, 4, []) && IsWalk(a, 3, [Edge(4, 3)]) && IsWalk(a, 2, Detour()[1..]);
    assert IsWalk(a, 1, Detour()) && End(1, Detour()) == 4;
    path := DijkstraShortestPath(g, 1, 4);
    ghost var ws :| IsShortestWalk(a, 1, 4, ws) && Trace(1, ws) == path;
    assert Cost(Detour()) == 9;
    LightWalksAreDetour(a, ws);
  }

  /** A node no edge enters can only be the last node of a node path of one node. */
  lemma NothingEnters(a: Adjacency, p: seq<int>, t: int)
    requires forall x, e :: x in a && e in a[x] ==> e.target != t
    requires IsNodePath(a, p) && |p| >= 2
    ensures p[|p| - 1] != t
  {
    var x := p[|p| - 2];
    assert HasEdge(a, x, p[|p| - 1]);
  }

  /** An isolated node added to the fixture cannot be reached: the path is empty. */
  method IsolatedNodeHasNoPath() returns (path: seq<int>)
    ensures path == []
  {
    var g := Fixture();
    g.AddNode(5);
    forall x, e | x in g.adjacency && e in g.adjacency[x]
      ensures e.target != 5
    {
      assert x in {1, 2, 3, 4, 5};
    }
    path := DijkstraShortestPath(g, 1, 5);
    if |path| >= 2 {
      NothingEnters(g.adjacency, path, 5);
    }
  }

  /** BfsReachableNodes from 1 within two hops reaches every node of the fixture, each once. */
  method AllWithinTwoHops() returns (reachable: seq<int>)
    ensures forall v :: v in reachable <==> v in {1, 2, 3, 4}
    ensures |reachable| == 4
  {
    assert |{1, 2, 3, 4}| == 4;
    var g := Fixture();
    ghost var a := g.adjacency;
    assert IsWalk(a, 1, [Edge(2, 2)]) && End(1, [Edge(2, 2)]) == 2;
    assert IsWalk(a, 1, [Edge(4, 10)]) && End(1, [Edge(4, 10)]) == 4;
    assert IsWalk(a, 3, []) && IsWalk(a, 2, [Edge(3, 4)]);
    assert IsWalk(a, 1, [Edge(2, 2), Edge(3, 4)]) && End(1, [Edge(2, 2), Edge(3, 4)]) == 3;
    ghost var depths;
    reachable, depths := BfsReachableNodes(g, 1, 2);
    forall v | v in reachable
      ensures v in {1, 2, 3, 4}
    {
      if v != 1 {
        ghost var ws :| IsWalk(a, 1, ws) && End(1, ws) == v && |ws| <= 2;
        WalkStaysInGraph(a, 1, ws);
      }
    }
    DistinctElements(reachable, {1, 2, 3, 4});
  }

  /** Three routes of which the first two share stop 102: exactly those two are found. */
  method RoutesThroughSharedStop() returns (routes: seq<int>)
    ensures forall r :: r in routes <==> r in {1, 2}
    ensures |routes| == 2
  {
    assert |{1, 2}| == 2;
    var routeStops := map[1 := [101, 102, 103], 2 := [102, 104, 105], 3 := [106, 107, 108]];
    routes := FindRoutesThroughStop(routeStops, 102);
    assert 102 in routeStops[1] && 102 in routeStops[2] && 102 !in routeStops[3];
    DistinctElements(routes, {1, 2});
  }

  /**
   * The inner loop of bfs_reachable_nodes on node 1 of the graph
   * 0 -> [1, 2], 1 -> [3, 2], 2 -> [4], with 0, 1 and 2 visited, queues 3
   * alone; and a list that names 4 twice queues it once, before 3.
   */
  lemma InnerLoopQueuesNewTargets()
    ensures NewTargets([Edge(3, 1), Edge(2, 1)], {0, 1, 2}) == [3]
    ensures NewTargets([Edge(4, 1), Edge(3, 1), Edge(4, 1)], {}) == [4, 3]
  {
    var es := [Edge(3, 1), Edge(2, 1)];
    assert es[..1] == [Edge(3, 1)] && es[..1][..0] == [];
    var fs := [Edge(4, 1), Edge(3, 1), Edge(4, 1)];
    assert fs[..2] == [Edge(4, 1), Edge(3, 1)] && fs[..2][..1] == [Edge(4, 1)] && fs[..2][..1][..0] == [];
  }
}
