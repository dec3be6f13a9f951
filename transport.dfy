/**
 * The graph builder of the transport system (TransportSystem::Impl::
 * initialize_graph): every stop becomes a node, then each route joins its
 * consecutive stops by a pair of opposite edges of equal weight.
 *
 * The database reads are inputs: `stops` is the ids that get_all_stops
 * returns, `routes` the stop lists (in sequence order) of get_all_routes.
 * The weight of a leg, which the source computes with the haversine
 * formula from the coordinates get_stop looks up, is the input function
 * `distance` of the two stop ids.
 *
 * What the builder does is specified as a list of directed arcs applied in
 * order with add_edge (ApplyArcs), so that the effect on every adjacency
 * list can be stated exactly.
 */
module Transport {
  import opened Graphs

  /** One add_edge call: from, to and the weight. */
  datatype Arc = Arc(from: int, to: int, weight: nat)

  /** The adjacency after add_node for each stop in turn. */
  function WithStops(a: Adjacency, stops: seq<int>): (r: Adjacency)
    ensures r.Keys == a.Keys + set s | s in stops
    ensures forall n :: n in a ==> r[n] == a[n]
    ensures forall n :: n in r && n !in a ==> r[n] == []
    decreases |stops|
  {
    if stops == [] then a
    else WithNode(WithStops(a, stops[..|stops| - 1]), stops[|stops| - 1])
  }

  /** The adjacency after add_edge for each arc in turn. */
  function ApplyArcs(a: Adjacency, arcs: seq<Arc>): Adjacency
    decreases |arcs|
  {
    if arcs == [] then a
    else
      var last := arcs[|arcs| - 1];
      WithEdge(ApplyArcs(a, arcs[..|arcs| - 1]), last.from, last.to, last.weight)
  }

  /** The edges the arcs append to the list of n, in order. */
  function EdgesFrom(arcs: seq<Arc>, n: int): (r: seq<Edge>)
    ensures |r| <= |arcs|
    decreases |arcs|
  {
    if arcs == [] then []
    else
      var last := arcs[|arcs| - 1];
      EdgesFrom(arcs[..|arcs| - 1], n) + (if last.from == n then [Edge(last.to, last.weight)] else [])
  }

  /** The endpoints of the arcs. */
  function ArcEnds(arcs: seq<Arc>): set<int>
    decreases |arcs|
  {
    if arcs == [] then {}
    else
      var last := arcs[|arcs| - 1];
      ArcEnds(arcs[..|arcs| - 1]) + {last.from, last.to}
  }

  /**
   * The arcs one route contributes: for each consecutive pair of its stops,
   * the forward and then the backward edge, both weighted by the distance
   * between the two stops. A route of fewer than two stops contributes none.
   */
  function LegArcs(stops: seq<int>, distance: (int, int) -> nat): (r: seq<Arc>)
    ensures |stops| < 2 ==> r == []
    ensures |stops| >= 2 ==> |r| == 2 * (|stops| - 1)
    decreases |stops|
  {
    if |stops| < 2 then []
    else
      var n := |stops|;
      var w := distance(stops[n - 2], stops[n - 1]);
      LegArcs(stops[..n - 1], distance) + [Arc(stops[n - 2], stops[n - 1], w), Arc(stops[n - 1], stops[n - 2], w)]
  }

  /**
   * The i-th consecutive pair of a route gives the arcs at 2i and 2i+1: the
   * forward edge and the backward edge, with the same weight.
   */
  lemma {:induction false} LegArcsAt(stops: seq<int>, distance: (int, int) -> nat, i: nat)
    requires i + 1 < |stops|
    ensures LegArcs(stops, distance)[2 * i] == Arc(stops[i], stops[i + 1], distance(stops[i], stops[i + 1]))
    ensures LegArcs(stops, distance)[2 * i + 1] == Arc(stops[i + 1], stops[i], distance(stops[i], stops[i + 1]))
    decreases |stops|
  {
    var n := |stops|;
    var front := stops[..n - 1];
    if i + 2 < n {
      LegArcsAt(front, distance, i);
      assert front[i] == stops[i] && front[i + 1] == stops[i + 1];
    }
  }

  /** The arcs of all the routes, route after route. */
  function RoutesArcs(routes: seq<seq<int>>, distance: (int, int) -> nat): seq<Arc>
    decreases |routes|
  {
    if routes == [] then []
    else RoutesArcs(routes[..|routes| - 1], distance) + LegArcs(routes[|routes| - 1], distance)
  }

  /** The number of edges the routes add: 2*(n-1) for each route of n >= 2 stops. */
  function LegCount(routes: seq<seq<int>>): nat
    decreases |routes|
  {
    if routes == [] then 0
    else
      var last := routes[|routes| - 1];
      LegCount(routes[..|routes| - 1]) + (if |last| < 2 then 0 else 2 * (|last| - 1))
  }

  /** The stops of the routes that have two or more stops. */
  function RouteStops(routes: seq<seq<int>>): (r: set<int>)
    decreases |routes|
  {
    if routes == [] then {}
    else
      var last := routes[|routes| - 1];
      RouteStops(routes[..|routes| - 1]) + (if |last| < 2 then {} else set s | s in last)
  }

  /** The graph initialize_graph leaves, starting from adjacency a. */
  function Build(a: Adjacency, stops: seq<int>, routes: seq<seq<int>>, distance: (int, int) -> nat): Adjacency
  {
    ApplyArcs(WithStops(a, stops), RoutesArcs(routes, distance))
  }

  /** Applying arcs adds their endpoints as nodes and keeps edge targets nodes. */
  lemma {:induction false} ApplyArcsNodes(a: Adjacency, arcs: seq<Arc>)
    ensures ApplyArcs(a, arcs).Keys == a.Keys + ArcEnds(arcs)
    ensures Closed(a) ==> Closed(ApplyArcs(a, arcs))
    decreases |arcs|
  {
    if arcs != [] {
      ApplyArcsNodes(a, arcs[..|arcs| - 1]);
    }
  }

  /**
   * Applying arcs appends to each list exactly the edges of the arcs leaving
   * that node, in order, after the edges it already had.
   */
  lemma {:induction false} ApplyArcsOut(a: Adjacency, arcs: seq<Arc>, n: int)
    ensures Out(ApplyArcs(a, arcs), n) == Out(a, n) + EdgesFrom(arcs, n)
    decreases |arcs|
  {
    if arcs != [] {
      var init := arcs[..|arcs| - 1];
      var last := arcs[|arcs| - 1];
      ApplyArcsOut(a, init, n);
      var b := ApplyArcs(a, init);
      if n == last.from {
        assert EdgesFrom(arcs, n) == EdgesFrom(init, n) + [Edge(last.to, last.weight)];
        assert Out(ApplyArcs(a, arcs), n) == Out(b, n) + [Edge(last.to, last.weight)];
        assert Out(a, n) + EdgesFrom(arcs, n) == (Out(a, n) + EdgesFrom(init, n)) + [Edge(last.to, last.weight)];
      } else {
        assert EdgesFrom(arcs, n) == EdgesFrom(init, n);
        if n in ApplyArcs(a, arcs) {
          assert Out(ApplyArcs(a, arcs), n) == Out(b, n);
        } else {
          assert n !in b;
        }
      }
    }
  }

  /** Applying arcs in two batches is applying them all. */
  lemma {:induction false} ApplyArcsAppend(a: Adjacency, xs: seq<Arc>, ys: seq<Arc>)
    ensures ApplyArcs(a, xs + ys) == ApplyArcs(ApplyArcs(a, xs), ys)
    decreases |ys|
  {
    if ys == [] {
      assert xs + ys == xs;
    } else {
      assert (xs + ys)[..|xs + ys| - 1] == xs + ys[..|ys| - 1];
      ApplyArcsAppend(a, xs, ys[..|ys| - 1]);
    }
  }

  /**
   * add_edge does not deduplicate: the list of n gets one copy of
   * Edge(t, w) for every occurrence of the arc n -> t of weight w, so a
   * repeated leg, within a route or across routes, becomes parallel edges.
   */
  lemma {:induction false} EdgesFromCount(arcs: seq<Arc>, n: int, e: Edge)
    ensures multiset(EdgesFrom(arcs, n))[e] == multiset(arcs)[Arc(n, e.target, e.weight)]
    decreases |arcs|
  {
    if arcs != [] {
      var init := arcs[..|arcs| - 1];
      assert arcs == init + [arcs[|arcs| - 1]];
      EdgesFromCount(init, n, e);
    }
  }

  /** The routes add 2*(n-1) edges for each route of n >= 2 stops and none for the others. */
  lemma {:induction false} RoutesArcsCount(routes: seq<seq<int>>, distance: (int, int) -> nat)
    ensures |RoutesArcs(routes, distance)| == LegCount(routes)
    decreases |routes|
  {
    if routes != [] {
      RoutesArcsCount(routes[..|routes| - 1], distance);
    }
  }

  /** The endpoints of a route's arcs are its stops, when it has two or more. */
  lemma {:induction false} LegArcsEnds(stops: seq<int>, distance: (int, int) -> nat)
    ensures |stops| >= 2 ==> ArcEnds(LegArcs(stops, distance)) == set s | s in stops
    ensures |stops| < 2 ==> ArcEnds(LegArcs(stops, distance)) == {}
    decreases |stops|
  {
    if |stops| >= 2 {
      var n := |stops|;
      var front := stops[..n - 1];
      var w := distance(stops[n - 2], stops[n - 1]);
      var pair := [Arc(stops[n - 2], stops[n - 1], w), Arc(stops[n - 1], stops[n - 2], w)];
      LegArcsEnds(front, distance);
      ArcEndsAppend(LegArcs(front, distance), pair);
      ArcEndsPair(pair[0], pair[1]);
      assert pair == [pair[0], pair[1]];
      assert stops == front + [stops[n - 1]];
      assert stops[n - 2] == front[n - 2];
    }
  }

  /**
   * The nodes after initialize_graph: the nodes there were, every stop, and
   * every stop of a route of two or more stops.
   */
  lemma {:induction false} BuildNodes(a: Adjacency, stops: seq<int>, routes: seq<seq<int>>, distance: (int, int) -> nat)
    ensures Build(a, stops, routes, distance).Keys
         == a.Keys + (set s | s in stops) + RouteStops(routes)
    decreases |routes|
  {
    ApplyArcsNodes(WithStops(a, stops), RoutesArcs(routes, distance));
    RoutesArcsEnds(routes, distance);
  }

  /** The endpoints of all the routes' arcs are the stops of the routes of two or more stops. */
  lemma {:induction false} RoutesArcsEnds(routes: seq<seq<int>>, distance: (int, int) -> nat)
    ensures ArcEnds(RoutesArcs(routes, distance)) == RouteStops(routes)
    decreases |routes|
  {
    if routes != [] {
      var init := routes[..|routes| - 1];
      var last := routes[|routes| - 1];
      RoutesArcsEnds(init, distance);
      LegArcsEnds(last, distance);
      ArcEndsAppend(RoutesArcs(init, distance), LegArcs(last, distance));
    }
  }

  /**
   * The edges after initialize_graph: each list is the list the node had
   * (empty for a node the builder added), followed by the edges of the
   * routes' arcs leaving it, in route order.
   */
  lemma BuildEdges(a: Adjacency, stops: seq<int>, routes: seq<seq<int>>, distance: (int, int) -> nat, n: int)
    ensures Out(Build(a, stops, routes, distance), n) == Out(a, n) + EdgesFrom(RoutesArcs(routes, distance), n)
  {
    var b := WithStops(a, stops);
    ApplyArcsOut(b, RoutesArcs(routes, distance), n);
    assert Out(b, n) == Out(a, n);
  }

  /** The endpoints of two arcs. */
  lemma ArcEndsPair(p: Arc, q: Arc)
    ensures ArcEnds([p, q]) == {p.from, p.to, q.from, q.to}
  {
    assert [p, q][..1] == [p];
    assert [p][..0] == [];
    assert ArcEnds([p]) == {p.from, p.to};
  }

  /** The endpoints of two lists of arcs together. */
  lemma {:induction false} ArcEndsAppend(xs: seq<Arc>, ys: seq<Arc>)
    ensures ArcEnds(xs + ys) == ArcEnds(xs) + ArcEnds(ys)
    decreases |ys|
  {
    if ys == [] {
      assert xs + ys == xs;
    } else {
      assert (xs + ys)[..|xs + ys| - 1] == xs + ys[..|ys| - 1];
      ArcEndsAppend(xs, ys[..|ys| - 1]);
    }
  }

  /**
   * initialize_graph on the graph: adds every stop as a node, then, route by
   * route, the forward and the backward edge of each consecutive pair of
   * stops.
   */
  method InitializeGraph(graph: Graph, stops: seq<int>, routes: seq<seq<int>>, distance: (int, int) -> nat)
    modifies graph
    ensures graph.adjacency == Build(old(graph.adjacency), stops, routes, distance)
    ensures old(graph.Valid()) ==> graph.Valid()
  {
    ghost var a0 := graph.adjacency;
    for i := 0 to |stops|
      invariant graph.adjacency == WithStops(a0, stops[..i])
      invariant Closed(a0) ==> Closed(graph.adjacency)
    {
      graph.AddNode(stops[i]);
      assert stops[..i + 1][..i] == stops[..i];
    }
    assert stops[..|stops|] == stops;

    ghost var a1 := graph.adjacency;
    for k := 0 to |routes|
      invariant graph.adjacency == ApplyArcs(a1, RoutesArcs(routes[..k], distance))
      invariant Closed(a0) ==> Closed(graph.adjacency)
    {
      var route := routes[k];
      ghost var before := RoutesArcs(routes[..k], distance);
      RoutesStep(routes, k, distance);
      if |route| < 2 {
        assert before + LegArcs(route, distance) == before;
        continue;
      }
      assert before + LegArcs(route[..1], distance) == before;
      var i := 0;
      while i + 1 < |route|
        invariant 0 <= i < |route|
        invariant graph.adjacency == ApplyArcs(a1, before + LegArcs(route[..i + 1], distance))
        invariant Closed(a0) ==> Closed(graph.adjacency)
      {
        var from := route[i];
        var to := route[i + 1];
        var weight := distance(from, to);
        graph.AddEdge(from, to, weight);
        graph.AddEdge(to, from, weight);
        LegStep(a1, before, route, i, distance);
        i := i + 1;
      }
      assert i + 1 == |route| && route[..|route|] == route;
    }
    assert routes[..|routes|] == routes;
  }

  /** One more route: its arcs follow those of the earlier routes. */
  lemma RoutesStep(routes: seq<seq<int>>, k: nat, distance: (int, int) -> nat)
    requires k < |routes|
    ensures RoutesArcs(routes[..k + 1], distance) == RoutesArcs(routes[..k], distance) + LegArcs(routes[k], distance)
  {
    assert routes[..k + 1][..k] == routes[..k];
  }

  /** One more consecutive pair of a route: its two arcs follow the earlier ones. */
  lemma LegStep(a: Adjacency, before: seq<Arc>, route: seq<int>, i: nat, distance: (int, int) -> nat)
    requires i + 1 < |route|
    ensures ApplyArcs(a, before + LegArcs(route[..i + 2], distance))
         == WithEdge(WithEdge(ApplyArcs(a, before + LegArcs(route[..i + 1], distance)),
                              route[i], route[i + 1], distance(route[i], route[i + 1])),
                     route[i + 1], route[i], distance(route[i], route[i + 1]))
  {
    var w := distance(route[i], route[i + 1]);
    var p, q := Arc(route[i], route[i + 1], w), Arc(route[i + 1], route[i], w);
    var xs := before + LegArcs(route[..i + 1], distance);
    assert route[..i + 2][..i + 1] == route[..i + 1];
    assert before + LegArcs(route[..i + 2], distance) == xs + [p, q];
    assert (xs + [p, q])[..|xs| + 1] == xs + [p];
    assert (xs + [p])[..|xs|] == xs;
  }
}
