/**
 * The bookkeeping behind the proof of bfs_reachable_nodes: the queue
 * entries, the discovery record a search keeps in ghost state, and the
 * invariants of its two loops with the lemmas that carry them from one
 * iteration to the next.
 */
module BreadthFirst {
  import opened Graphs
  import opened Walks

  /** A queue element: a node and the hop depth it was discovered at. */
  datatype Visit = Visit(node: int, depth: nat)

  /** Every node a search from s can discover in a closed graph: s and the nodes. */
  ghost function Universe(a: Adjacency, s: int): set<int>
  {
    a.Keys + {s}
  }

  /**
   * When every discovered node shallower than maxDepth has all its successors
   * discovered, at most one level deeper, a walk that fits in the depth budget
   * from a discovered node y ends at a discovered node no deeper than
   * dep[y] plus its length.
   */
  lemma {:induction false} ExpansionCovers(a: Adjacency, visited: set<int>, dep: map<int, nat>,
                                           maxDepth: int, y: int, ws: seq<Edge>)
    requires visited <= dep.Keys
    requires forall x, e :: x in visited && dep[x] < maxDepth && e in Out(a, x) ==>
               e.target in visited && dep[e.target] <= dep[x] + 1
    requires y in visited && IsWalk(a, y, ws) && dep[y] + |ws| <= maxDepth
    ensures End(y, ws) in visited && dep[End(y, ws)] <= dep[y] + |ws|
    decreases |ws|
  {
    if ws != [] {
      ExpansionCovers(a, visited, dep, maxDepth, ws[0].target, ws[1..]);
    }
  }

  /** The nodes of the queue, front first. */
  function Nodes(q: seq<Visit>): (r: seq<int>)
    ensures |r| == |q|
    decreases |q|
  {
    if q == [] then [] else [q[0].node] + Nodes(q[1..])
  }

  lemma {:induction false} NodesAppend(p: seq<Visit>, q: seq<Visit>)
    ensures Nodes(p + q) == Nodes(p) + Nodes(q)
    decreases |p|
  {
    if p == [] {
      assert p + q == q;
    } else {
      assert (p + q)[1..] == p[1..] + q;
      NodesAppend(p[1..], q);
    }
  }

  /** Popping the front of the queue moves its node to the reported sequence. */
  lemma NodesPop(reported: seq<int>, q: seq<Visit>)
    requires q != []
    ensures reported + Nodes(q) == (reported + [q[0].node]) + Nodes(q[1..])
  {
  }

  /** The search's ghost bookkeeping: the discovery order, and the hop depth of each discovered node with a walk that long reaching it. */
  datatype Discovery = Discovery(order: seq<int>, dep: map<int, nat>, walk: map<int, seq<Edge>>)

  /**
   * The bookkeeping fits the visited set of a search from startNode: it lists
   * each visited node exactly once, startNode first at depth 0, and every
   * other node at a depth between 1 and maxDepth, reached by a walk of exactly
   * that many edges.
   */
  ghost predicate Discovered(a: Adjacency, startNode: int, maxDepth: int, visited: set<int>, d: Discovery)
  {
    && startNode in visited
    && |d.order| > 0 && d.order[0] == startNode
    && NoDuplicates(d.order)
    && (forall v :: v in visited <==> v in d.order)
    && d.dep.Keys == visited && d.walk.Keys == visited
    && d.dep[startNode] == 0
    && (forall v :: v in visited ==>
          IsWalk(a, startNode, d.walk[v]) && End(startNode, d.walk[v]) == v && |d.walk[v]| == d.dep[v])
    && (forall v :: v in visited ==> d.dep[v] == 0 || d.dep[v] <= maxDepth)
  }

  /** A subset is no larger than its superset. */
  lemma {:induction false} SubsetSize(small: set<int>, big: set<int>)
    requires small <= big
    ensures |small| <= |big|
    decreases big
  {
    if small != {} {
      HasElement(small);
      var x :| x in small;
      SubsetSize(small - {x}, big - {x});
    }
  }

  /** A proper superset of the visited nodes leaves fewer to visit. */
  lemma FewerLeft(u: set<int>, before: set<int>, after: set<int>)
    requires before < after <= u
    ensures |u - after| < |u - before|
  {
    assert after - before != {};
    HasElement(after - before);
    var x :| x in after - before;
    assert x in u - before;
    SubsetSize(u - after, (u - before) - {x});
  }

  /**
   * The targets of es that are not in seen, each at its first edge, in edge
   * order: walking the edges, a target is appended unless it is in seen or
   * was appended already.
   */
  function NewTargets(es: seq<Edge>, seen: set<int>): (r: seq<int>)
    ensures |r| <= |es|
    decreases |es|
  {
    if es == [] then []
    else
      var front := NewTargets(es[..|es| - 1], seen);
      var t := es[|es| - 1].target;
      if t in seen || t in front then front else front + [t]
  }

  /** NewTargets holds each target of es outside seen exactly once, and nothing else. */
  lemma {:induction false} NewTargetsExact(es: seq<Edge>, seen: set<int>)
    ensures NoDuplicates(NewTargets(es, seen))
    ensures forall v :: v in NewTargets(es, seen) <==> v !in seen && exists e :: e in es && e.target == v
    decreases |es|
  {
    if es != [] {
      var init := es[..|es| - 1];
      NewTargetsExact(init, seen);
      assert forall e :: e in es <==> e in init || e == es[|es| - 1] by {
        assert es == init + [es[|es| - 1]];
      }
    }
  }

  /** One more edge: its target is appended exactly when it is neither seen nor appended already. */
  lemma NewTargetsSnoc(es: seq<Edge>, i: nat, seen: set<int>)
    requires i < |es|
    ensures NewTargets(es[..i + 1], seen)
         == if es[i].target in seen || es[i].target in NewTargets(es[..i], seen) then NewTargets(es[..i], seen)
            else NewTargets(es[..i], seen) + [es[i].target]
  {
    assert es[..i + 1][..i] == es[..i];
  }

  /** The queue entries for nodes ns, all at the given depth. */
  function Visits(ns: seq<int>, depth: nat): (r: seq<Visit>)
    ensures |r| == |ns|
    decreases |ns|
  {
    if ns == [] then [] else [Visit(ns[0], depth)] + Visits(ns[1..], depth)
  }

  /** Entry j of Visits(ns, depth) is node ns[j] at that depth. */
  lemma {:induction false} VisitsAt(ns: seq<int>, depth: nat)
    ensures forall j :: 0 <= j < |ns| ==> Visits(ns, depth)[j] == Visit(ns[j], depth)
    decreases |ns|
  {
    if ns != [] {
      VisitsAt(ns[1..], depth);
    }
  }

  /** The nodes of Visits(ns, depth) are ns. */
  lemma {:induction false} NodesOfVisits(ns: seq<int>, depth: nat)
    ensures Nodes(Visits(ns, depth)) == ns
    decreases |ns|
  {
    if ns != [] {
      NodesOfVisits(ns[1..], depth);
      assert Visits(ns, depth)[1..] == Visits(ns[1..], depth);
    }
  }

  /** Queueing one more node at the same depth appends one entry. */
  lemma {:induction false} VisitsSnoc(ns: seq<int>, v: int, depth: nat)
    ensures Visits(ns + [v], depth) == Visits(ns, depth) + [Visit(v, depth)]
    decreases |ns|
  {
    if ns == [] {
      assert ns + [v] == [v];
    } else {
      assert (ns + [v])[1..] == ns[1..] + [v];
      VisitsSnoc(ns[1..], v, depth);
    }
  }

  /** The first edge of es into v, or a stand-in edge when there is none. */
  function EdgeTo(es: seq<Edge>, v: int): (e: Edge)
    ensures (exists f :: f in es && f.target == v) ==> e in es && e.target == v
    decreases |es|
  {
    if es == [] then Edge(v, 0)
    else if es[0].target == v then es[0]
    else
      assert forall f :: f in es && f.target == v ==> f in es[1..];
      EdgeTo(es[1..], v)
  }

  /**
   * The bookkeeping after expanding `current` by its edges: the nodes ns
   * follow in the discovery order, each at the given depth and reached by
   * the walk to `current` extended by its first edge into it.
   */
  ghost function Extend(d: Discovery, current: int, edges: seq<Edge>, ns: seq<int>, depth: nat): (r: Discovery)
    requires current in d.walk
    ensures r.order == d.order + ns
    ensures forall v :: v in r.dep <==> v in d.dep || v in ns
    ensures forall v :: v in r.walk <==> v in d.walk || v in ns
    ensures forall v :: v in ns ==> r.dep[v] == depth && r.walk[v] == d.walk[current] + [EdgeTo(edges, v)]
    ensures forall v :: v in d.dep && v !in ns ==> r.dep[v] == d.dep[v]
    ensures forall v :: v in d.walk && v !in ns ==> r.walk[v] == d.walk[v]
  {
    Discovery(d.order + ns, d.dep + map v | v in ns :: depth,
              d.walk + map v | v in ns :: d.walk[current] + [EdgeTo(edges, v)])
  }

  /**
   * Extending the bookkeeping of visited0 by new nodes ns gives the
   * bookkeeping of visited0 and ns together, old depths kept.
   */
  lemma ExtendKeys(d0: Discovery, current: int, edges: seq<Edge>, ns: seq<int>, depth: nat,
                   visited0: set<int>, visited: set<int>)
    requires current in visited0 && d0.dep.Keys == visited0 && d0.walk.Keys == visited0
    requires forall v :: v in ns ==> v !in visited0
    requires forall v :: v in visited <==> v in visited0 || v in ns
    ensures Extend(d0, current, edges, ns, depth).dep.Keys == visited
    ensures Extend(d0, current, edges, ns, depth).walk.Keys == visited
    ensures forall v :: v in visited0 ==> Extend(d0, current, edges, ns, depth).dep[v] == d0.dep[v]
    ensures forall v :: v in visited0 ==> Extend(d0, current, edges, ns, depth).walk[v] == d0.walk[v]
    ensures forall v :: v in visited && v !in visited0 ==> Extend(d0, current, edges, ns, depth).dep[v] == depth
  {
    var d := Extend(d0, current, edges, ns, depth);
    assert forall v :: v in d.dep <==> v in visited;
    assert forall v :: v in d.walk <==> v in visited;
  }

  /** Two id sequences without duplicates and without common ids join without duplicates. */
  lemma NoDuplicatesJoin(s: seq<int>, t: seq<int>)
    requires NoDuplicates(s) && NoDuplicates(t)
    requires forall x :: x in s ==> x !in t
    ensures NoDuplicates(s + t)
  {
    forall i, j | 0 <= i < j < |s + t|
      ensures (s + t)[i] != (s + t)[j]
    {
      if i < |s| <= j {
        assert (s + t)[i] in s && (s + t)[j] == t[j - |s|];
      }
    }
  }

  /** ExtendDiscovered, for the walks: each new node is reached through its first edge from `current`. */
  lemma ExtendWalks(a: Adjacency, startNode: int, maxDepth: int, visited0: set<int>, d0: Discovery,
                    current: int, depth: nat, edges: seq<Edge>, ns: seq<int>, visited: set<int>)
    requires Discovered(a, startNode, maxDepth, visited0, d0)
    requires current in visited0 && d0.dep[current] == depth && edges == Out(a, current)
    requires forall v :: v in ns ==> v !in visited0 && exists e :: e in edges && e.target == v
    requires forall v :: v in visited <==> v in visited0 || v in ns
    requires Extend(d0, current, edges, ns, depth + 1).walk.Keys == visited
    requires forall v :: v in visited && v !in visited0 ==> Extend(d0, current, edges, ns, depth + 1).dep[v] == depth + 1
    requires forall v :: v in visited0 ==> Extend(d0, current, edges, ns, depth + 1).dep[v] == d0.dep[v]
    ensures forall v :: v in visited ==>
              var w := Extend(d0, current, edges, ns, depth + 1).walk[v];
              IsWalk(a, startNode, w) && End(startNode, w) == v && |w| == Extend(d0, current, edges, ns, depth + 1).dep[v]
  {
    var d := Extend(d0, current, edges, ns, depth + 1);
    forall v | v in visited
      ensures IsWalk(a, startNode, d.walk[v]) && End(startNode, d.walk[v]) == v && |d.walk[v]| == d.dep[v]
    {
      if v !in visited0 {
        WalkSnoc(a, startNode, d0.walk[current], EdgeTo(edges, v));
      }
    }
  }

  /**
   * Expanding a node shallower than maxDepth keeps the discovery bookkeeping
   * right: its new successors are discovered one level deeper, each through
   * its first edge.
   */
  lemma ExtendDiscovered(a: Adjacency, startNode: int, maxDepth: int, visited0: set<int>, d0: Discovery,
                         current: int, depth: nat, edges: seq<Edge>, visited: set<int>)
    requires Discovered(a, startNode, maxDepth, visited0, d0)
    requires current in visited0 && d0.dep[current] == depth < maxDepth && edges == Out(a, current)
    requires forall v :: v in visited <==> v in visited0 || v in NewTargets(edges, visited0)
    ensures Discovered(a, startNode, maxDepth, visited,
                       Extend(d0, current, edges, NewTargets(edges, visited0), depth + 1))
  {
    var ns := NewTargets(edges, visited0);
    NewTargetsExact(edges, visited0);
    ExtendKeys(d0, current, edges, ns, depth + 1, visited0, visited);
    NoDuplicatesJoin(d0.order, ns);
    ExtendWalks(a, startNode, maxDepth, visited0, d0, current, depth, edges, ns, visited);
  }

  /**
   * The state of the inner loop of bfs_reachable_nodes after the first i
   * edges out of `current` (discovered at `depth`): the targets of those
   * edges are visited, and `added`, the entries queued so far, are exactly
   * the newly visited nodes, one level deeper, in discovery order.
   */
  ghost predicate Expanding(a: Adjacency, startNode: int, maxDepth: int, edges: seq<Edge>, depth: nat,
                            visited0: set<int>, queue0: seq<Visit>, d0: Discovery, i: nat,
                            visited: set<int>, queue: seq<Visit>, d: Discovery, added: seq<Visit>)
  {
    && i <= |edges|
    && d0.dep.Keys == visited0 && d.dep.Keys == visited && d.walk.Keys == visited
    && queue == queue0 + added && d.order == d0.order + Nodes(added) && |added| <= i
    && (forall j :: 0 <= j < |added| ==>
          added[j].node in visited && added[j].node !in visited0 && added[j].depth == depth + 1)
    && visited0 <= visited <= Universe(a, startNode)
    && (forall v :: v in visited0 ==> d.dep[v] == d0.dep[v])
    && (forall v :: v in visited && v !in visited0 ==> d.dep[v] == depth + 1)
    && (forall v :: v in visited ==> d.dep[v] <= depth + 1)
    && (added == [] <==> visited == visited0)
    && (forall e :: e in edges[..i] ==> e.target in visited)
  }

  /**
   * In a closed graph the new targets of the edges out of a node are nodes
   * outside seen, and every target of those edges is in seen or among them.
   */
  lemma NewTargetsOut(a: Adjacency, current: int, seen: set<int>)
    requires Closed(a)
    ensures forall v :: v in NewTargets(Out(a, current), seen) ==> v !in seen && v in a
    ensures forall e :: e in Out(a, current) ==> e.target in seen || e.target in NewTargets(Out(a, current), seen)
  {
    NewTargetsExact(Out(a, current), seen);
  }

  /** ExtendExpanding, for the queue and the discovery order. */
  lemma ExtendQueued(ns: seq<int>, depth: nat, visited0: set<int>, d0: Discovery, d: Discovery, visited: set<int>)
    requires d.order == d0.order + ns
    requires forall v :: v in ns ==> v !in visited0
    requires forall v :: v in visited <==> v in visited0 || v in ns
    ensures d.order == d0.order + Nodes(Visits(ns, depth))
    ensures forall j :: 0 <= j < |ns| ==>
              Visits(ns, depth)[j].node in visited && Visits(ns, depth)[j].node !in visited0
              && Visits(ns, depth)[j].depth == depth
    ensures Visits(ns, depth) == [] <==> visited == visited0
  {
    NodesOfVisits(ns, depth);
    VisitsAt(ns, depth);
    if ns != [] {
      assert ns[0] in visited && ns[0] !in visited0;
    } else {
      forall v
        ensures v in visited <==> v in visited0
      {
        assert v !in ns;
      }
    }
  }

  /**
   * After the inner loop over the edges out of `current`, the search state
   * is the expansion of `current`: every edge's target is visited and the
   * queue grew by the new targets ns, one level deeper.
   */
  lemma ExtendExpanding(a: Adjacency, startNode: int, maxDepth: int, edges: seq<Edge>, current: int, depth: nat,
                        visited0: set<int>, queue0: seq<Visit>, d0: Discovery, ns: seq<int>, visited: set<int>)
    requires visited0 <= Universe(a, startNode)
    requires current in visited0 && d0.dep.Keys == visited0 && d0.walk.Keys == visited0
    requires forall v :: v in visited0 ==> d0.dep[v] <= depth + 1
    requires |ns| <= |edges|
    requires forall v :: v in ns ==> v !in visited0 && v in a
    requires forall e :: e in edges ==> e.target in visited0 || e.target in ns
    requires forall v :: v in visited <==> v in visited0 || v in ns
    ensures Expanding(a, startNode, maxDepth, edges, depth, visited0, queue0, d0, |edges|, visited,
                      queue0 + Visits(ns, depth + 1),
                      Extend(d0, current, edges, ns, depth + 1), Visits(ns, depth + 1))
  {
    ExtendKeys(d0, current, edges, ns, depth + 1, visited0, visited);
    ExtendQueued(ns, depth + 1, visited0, d0, Extend(d0, current, edges, ns, depth + 1), visited);
    assert edges[..|edges|] == edges;
  }

  /**
   * Expanding `current` by the new targets of its edges: the bookkeeping
   * stays right and the inner loop ends in the state Expanding describes.
   */
  lemma ExtendSearch(a: Adjacency, startNode: int, maxDepth: int, edges: seq<Edge>, current: int, depth: nat,
                     visited0: set<int>, queue0: seq<Visit>, d0: Discovery, visited: set<int>)
    requires Discovered(a, startNode, maxDepth, visited0, d0)
    requires current in visited0 && d0.dep[current] == depth < maxDepth && edges == Out(a, current)
    requires Closed(a) && visited0 <= Universe(a, startNode)
    requires forall v :: v in visited0 ==> d0.dep[v] <= depth + 1
    requires forall v :: v in visited <==> v in visited0 || v in NewTargets(edges, visited0)
    ensures Discovered(a, startNode, maxDepth, visited,
                       Extend(d0, current, edges, NewTargets(edges, visited0), depth + 1))
    ensures Expanding(a, startNode, maxDepth, edges, depth, visited0, queue0, d0, |edges|, visited,
                      queue0 + Visits(NewTargets(edges, visited0), depth + 1),
                      Extend(d0, current, edges, NewTargets(edges, visited0), depth + 1),
                      Visits(NewTargets(edges, visited0), depth + 1))
  {
    ExtendDiscovered(a, startNode, maxDepth, visited0, d0, current, depth, edges, visited);
    NewTargetsOut(a, current, visited0);
    ExtendExpanding(a, startNode, maxDepth, edges, current, depth, visited0, queue0, d0,
                    NewTargets(edges, visited0), visited);
  }

  /**
   * The state of the outer loop of bfs_reachable_nodes: the discovery order
   * is the reported nodes followed by the queue; the queue holds visited
   * nodes with their depths, in non-decreasing depth from `level` (the depth
   * of the node reported last) on; and every reported node shallower than
   * maxDepth has had all its successors visited, one level deeper at most.
   */
  ghost predicate Searching(a: Adjacency, startNode: int, maxDepth: int, visited: set<int>, d: Discovery,
                            reachable: seq<int>, depths: seq<nat>, queue: seq<Visit>, level: nat)
  {
    && d.dep.Keys == visited
    && d.order == reachable + Nodes(queue)
    && (forall v :: v in visited ==> d.dep[v] <= level + 1)
    && |depths| == |reachable|
    && (forall i :: 0 <= i < |reachable| ==>
          reachable[i] in visited && depths[i] == d.dep[reachable[i]] && depths[i] <= level)
    && (forall i, j :: 0 <= i <= j < |depths| ==> depths[i] <= depths[j])
    && (forall j :: 0 <= j < |queue| ==>
          queue[j].node in visited && queue[j].depth == d.dep[queue[j].node] && level <= queue[j].depth)
    && (forall j, k :: 0 <= j <= k < |queue| ==> queue[j].depth <= queue[k].depth)
    && (forall x, e :: x in reachable && e in Out(a, x) ==>
          x in visited && (d.dep[x] < maxDepth ==> e.target in visited && d.dep[e.target] <= d.dep[x] + 1))
    && visited <= Universe(a, startNode)
  }

  /** The front of the queue is a visited node at its depth, and nothing visited is two levels below it. */
  lemma SearchFront(a: Adjacency, startNode: int, maxDepth: int, visited: set<int>, d: Discovery,
                    reachable: seq<int>, depths: seq<nat>, queue: seq<Visit>, level: nat)
    requires Searching(a, startNode, maxDepth, visited, d, reachable, depths, queue, level)
    requires queue != []
    ensures queue[0].node in visited && d.dep[queue[0].node] == queue[0].depth
    ensures forall v :: v in visited ==> d.dep[v] <= queue[0].depth + 1
  {
  }

  /** Reporting a node at maxDepth or deeper, without expanding it. */
  lemma SearchLeaf(a: Adjacency, startNode: int, maxDepth: int, visited: set<int>, d: Discovery,
                   reachable: seq<int>, depths: seq<nat>, queue: seq<Visit>, level: nat)
    requires Searching(a, startNode, maxDepth, visited, d, reachable, depths, queue, level)
    requires queue != [] && !(queue[0].depth < maxDepth)
    ensures Searching(a, startNode, maxDepth, visited, d, reachable + [queue[0].node], depths + [queue[0].depth],
                      queue[1..], queue[0].depth)
  {
    NodesPop(reachable, queue);
  }

  /** Reporting a node shallower than maxDepth and expanding it. */
  lemma SearchExpand(a: Adjacency, startNode: int, maxDepth: int, visited: set<int>, d: Discovery,
                     reachable: seq<int>, depths: seq<nat>, queue: seq<Visit>, level: nat,
                     visited': set<int>, queue': seq<Visit>, d': Discovery, added: seq<Visit>)
    requires Searching(a, startNode, maxDepth, visited, d, reachable, depths, queue, level)
    requires queue != [] && queue[0].depth < maxDepth
    requires Expanding(a, startNode, maxDepth, Out(a, queue[0].node), queue[0].depth, visited, queue[1..], d,
                       |Out(a, queue[0].node)|, visited', queue', d', added)
    ensures Searching(a, startNode, maxDepth, visited', d', reachable + [queue[0].node], depths + [queue[0].depth],
                      queue', queue[0].depth)
  {
    NodesPop(reachable, queue);
    NodesAppend(queue[1..], added);
    ExpandReported(a, startNode, maxDepth, visited, d, reachable, depths, queue, level, visited', queue', d', added);
    ExpandQueue(a, startNode, maxDepth, visited, d, reachable, depths, queue, level, visited', queue', d', added);
    ExpandClosed(a, startNode, maxDepth, visited, d, reachable, depths, queue, level, visited', queue', d', added);
  }

  /** SearchExpand, for the reported nodes and their depths. */
  lemma ExpandReported(a: Adjacency, startNode: int, maxDepth: int, visited: set<int>, d: Discovery,
                       reachable: seq<int>, depths: seq<nat>, queue: seq<Visit>, level: nat,
                       visited': set<int>, queue': seq<Visit>, d': Discovery, added: seq<Visit>)
    requires Searching(a, startNode, maxDepth, visited, d, reachable, depths, queue, level)
    requires queue != [] && queue[0].depth < maxDepth
    requires Expanding(a, startNode, maxDepth, Out(a, queue[0].node), queue[0].depth, visited, queue[1..], d,
                       |Out(a, queue[0].node)|, visited', queue', d', added)
    ensures forall i :: 0 <= i < |reachable| + 1 ==>
              (reachable + [queue[0].node])[i] in visited'
              && (depths + [queue[0].depth])[i] == d'.dep[(reachable + [queue[0].node])[i]]
              && (depths + [queue[0].depth])[i] <= queue[0].depth
    ensures forall i, j :: 0 <= i <= j < |depths| + 1 ==>
              (depths + [queue[0].depth])[i] <= (depths + [queue[0].depth])[j]
  {
    var reachable', depths' := reachable + [queue[0].node], depths + [queue[0].depth];
    forall i | 0 <= i < |reachable'|
      ensures reachable'[i] in visited' && depths'[i] == d'.dep[reachable'[i]] && depths'[i] <= queue[0].depth
    {
      if i < |reachable| {
        assert reachable'[i] == reachable[i] && depths'[i] == depths[i];
      }
    }
  }

  /** SearchExpand, for the queue. */
  lemma ExpandQueue(a: Adjacency, startNode: int, maxDepth: int, visited: set<int>, d: Discovery,
                    reachable: seq<int>, depths: seq<nat>, queue: seq<Visit>, level: nat,
                    visited': set<int>, queue': seq<Visit>, d': Discovery, added: seq<Visit>)
    requires Searching(a, startNode, maxDepth, visited, d, reachable, depths, queue, level)
    requires queue != [] && queue[0].depth < maxDepth
    requires Expanding(a, startNode, maxDepth, Out(a, queue[0].node), queue[0].depth, visited, queue[1..], d,
                       |Out(a, queue[0].node)|, visited', queue', d', added)
    ensures forall j :: 0 <= j < |queue'| ==>
              queue'[j].node in visited' && queue'[j].depth == d'.dep[queue'[j].node] && queue[0].depth <= queue'[j].depth
    ensures forall j, k :: 0 <= j <= k < |queue'| ==> queue'[j].depth <= queue'[k].depth
  {
  }

  /** SearchExpand, for the successors of the reported nodes. */
  lemma ExpandClosed(a: Adjacency, startNode: int, maxDepth: int, visited: set<int>, d: Discovery,
                     reachable: seq<int>, depths: seq<nat>, queue: seq<Visit>, level: nat,
                     visited': set<int>, queue': seq<Visit>, d': Discovery, added: seq<Visit>)
    requires Searching(a, startNode, maxDepth, visited, d, reachable, depths, queue, level)
    requires queue != [] && queue[0].depth < maxDepth
    requires Expanding(a, startNode, maxDepth, Out(a, queue[0].node), queue[0].depth, visited, queue[1..], d,
                       |Out(a, queue[0].node)|, visited', queue', d', added)
    ensures forall x, e :: x in reachable + [queue[0].node] && e in Out(a, x) ==>
              x in visited' && (d'.dep[x] < maxDepth ==> e.target in visited' && d'.dep[e.target] <= d'.dep[x] + 1)
  {
    var edges := Out(a, queue[0].node);
    assert edges[..|edges|] == edges;
  }

  /**
   * Once the queue is empty, the reported nodes are exactly those within
   * maxDepth hops, each once, at its hop distance, shallowest first.
   */
  lemma SearchDone(a: Adjacency, startNode: int, maxDepth: int, visited: set<int>, d: Discovery,
                   reachable: seq<int>, depths: seq<nat>, level: nat)
    requires Discovered(a, startNode, maxDepth, visited, d)
    requires Searching(a, startNode, maxDepth, visited, d, reachable, depths, [], level)
    ensures NoDuplicates(reachable)
    ensures forall v :: v in reachable <==> v == startNode || WithinHops(a, startNode, v, maxDepth)
    ensures forall i :: 0 <= i < |reachable| ==> IsHopDistance(a, startNode, reachable[i], depths[i])
  {
    assert d.order == reachable;
    forall x, e | x in visited && d.dep[x] < maxDepth && e in Out(a, x)
      ensures e.target in visited && d.dep[e.target] <= d.dep[x] + 1
    {
      assert x in d.order;
    }
    forall v | WithinHops(a, startNode, v, maxDepth)
      ensures v in reachable
    {
      var ws :| IsWalk(a, startNode, ws) && End(startNode, ws) == v && |ws| <= maxDepth;
      ExpansionCovers(a, visited, d.dep, maxDepth, startNode, ws);
    }
    forall v | v in reachable
      ensures v == startNode || WithinHops(a, startNode, v, maxDepth)
    {
      assert IsWalk(a, startNode, d.walk[v]) && End(startNode, d.walk[v]) == v;
    }
    forall i | 0 <= i < |reachable|
      ensures IsHopDistance(a, startNode, reachable[i], depths[i])
    {
      var v := reachable[i];
      assert IsWalk(a, startNode, d.walk[v]) && End(startNode, d.walk[v]) == v && |d.walk[v]| == depths[i];
      forall ws | IsWalk(a, startNode, ws) && End(startNode, ws) == v
        ensures depths[i] <= |ws|
      {
        if |ws| <= maxDepth {
          ExpansionCovers(a, visited, d.dep, maxDepth, startNode, ws);
        }
      }
    }
  }

  /** The search starts with startNode visited at depth 0 and queued, nothing reported. */
  lemma SearchStart(a: Adjacency, startNode: int, maxDepth: int)
    ensures Discovered(a, startNode, maxDepth, {startNode}, Discovery([startNode], map[startNode := 0], map[startNode := []]))
    ensures Searching(a, startNode, maxDepth, {startNode}, Discovery([startNode], map[startNode := 0], map[startNode := []]),
                      [], [], [Visit(startNode, 0)], 0)
  {
    assert Nodes([Visit(startNode, 0)]) == [startNode];
  }
}
