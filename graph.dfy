/**
 * The transit graph container: a map from an integer node id to the ordered
 * list of its outgoing edges.
 *
 * The pure functions WithNode, WithEdge and WithoutEdgesTo say what each
 * mutator does to the adjacency map; the class Graph holds the map as a field
 * and its methods update it in place.
 */
module Graphs {

  /** A directed edge; weights are distances, never negative. */
  datatype Edge = Edge(target: int, weight: nat)

  /** The adjacency list: node id to its outgoing edges, in insertion order. */
  type Adjacency = map<int, seq<Edge>>

  /** The outgoing edges of n, empty when n is not a node. */
  function Out(a: Adjacency, n: int): seq<Edge>
  {
    if n in a then a[n] else []
  }

  /** The graph invariant: every edge target is itself a node. */
  ghost predicate Closed(a: Adjacency)
  {
    forall n, e :: n in a && e in a[n] ==> e.target in a
  }

  /** No id occurs twice in s. */
  predicate NoDuplicates(s: seq<int>)
  {
    forall i, j :: 0 <= i < j < |s| ==> s[i] != s[j]
  }

  /** The adjacency map after add_node(id). */
  function WithNode(a: Adjacency, id: int): (r: Adjacency)
    ensures r.Keys == a.Keys + {id}
    ensures forall n :: n in a ==> r[n] == a[n]
    ensures id !in a ==> r[id] == []
    ensures Closed(a) ==> Closed(r)
  {
    if id in a then a else a[id := []]
  }

  /** The adjacency map after add_edge(from, to, weight). */
  function WithEdge(a: Adjacency, from: int, to: int, weight: nat): (r: Adjacency)
    ensures r.Keys == a.Keys + {from, to}
    ensures r[from] == Out(a, from) + [Edge(to, weight)]
    ensures forall n :: n in r && n != from ==> r[n] == Out(a, n)
    ensures Closed(a) ==> Closed(r)
  {
    var b := WithNode(WithNode(a, from), to);
    b[from := b[from] + [Edge(to, weight)]]
  }

  /** The edges of es whose target is not `to`, in their original order. */
  function DropTarget(es: seq<Edge>, to: int): (r: seq<Edge>)
    ensures |r| <= |es|
    ensures forall e :: e in r ==> e in es && e.target != to
    ensures forall e: Edge :: e.target != to ==> multiset(r)[e] == multiset(es)[e]
  {
    if es == [] then []
    else
      assert es == [es[0]] + es[1..];
      if es[0].target == to then DropTarget(es[1..], to)
      else [es[0]] + DropTarget(es[1..], to)
  }

  /** The adjacency map after remove_edge(from, to). */
  function WithoutEdgesTo(a: Adjacency, from: int, to: int): (r: Adjacency)
    ensures r.Keys == a.Keys
    ensures forall n :: n in a && n != from ==> r[n] == a[n]
    ensures from in a ==> r[from] == DropTarget(a[from], to)
    ensures forall e :: e in Out(r, from) ==> e.target != to
    ensures Closed(a) ==> Closed(r)
  {
    if from !in a then a else a[from := DropTarget(a[from], to)]
  }

  /** add_node is idempotent: a second call changes nothing. */
  lemma WithNodeIdempotent(a: Adjacency, id: int)
    ensures WithNode(WithNode(a, id), id) == WithNode(a, id)
    ensures id in a ==> WithNode(a, id) == a
  {
  }

  /** add_edge does not deduplicate: the same call twice leaves two parallel edges. */
  lemma WithEdgeTwiceIsParallel(a: Adjacency, from: int, to: int, weight: nat)
    ensures Out(WithEdge(WithEdge(a, from, to, weight), from, to, weight), from)
         == Out(a, from) + [Edge(to, weight), Edge(to, weight)]
    ensures multiset(Out(WithEdge(WithEdge(a, from, to, weight), from, to, weight), from))[Edge(to, weight)]
         == multiset(Out(a, from))[Edge(to, weight)] + 2
  {
    var b := WithEdge(a, from, to, weight);
    assert Out(b, from) == Out(a, from) + [Edge(to, weight)];
    assert Out(a, from) + [Edge(to, weight)] + [Edge(to, weight)]
        == Out(a, from) + [Edge(to, weight), Edge(to, weight)];
  }

  /** add_edge between two existing nodes only appends to the list of `from`. */
  lemma WithEdgeBetweenNodes(a: Adjacency, from: int, to: int, weight: nat)
    requires from in a && to in a
    ensures WithEdge(a, from, to, weight) == a[from := a[from] + [Edge(to, weight)]]
  {
  }

  /** The node count grows by the number of endpoints that were not nodes yet. */
  lemma WithEdgeNodeCount(a: Adjacency, from: int, to: int, weight: nat)
    ensures |WithEdge(a, from, to, weight).Keys| == |a.Keys| + |{from, to} - a.Keys|
  {
    var added := {from, to} - a.Keys;
    assert WithEdge(a, from, to, weight).Keys == a.Keys + added;
    assert a.Keys !! added;
  }

  /** remove_edge keeps the relative order of the remaining edges. */
  lemma {:induction false} DropTargetAppend(xs: seq<Edge>, ys: seq<Edge>, to: int)
    ensures DropTarget(xs + ys, to) == DropTarget(xs, to) + DropTarget(ys, to)
  {
    if xs == [] {
      assert xs + ys == ys;
    } else {
      assert (xs + ys)[1..] == xs[1..] + ys;
      DropTargetAppend(xs[1..], ys, to);
    }
  }

  /** remove_edge of a target with no edge leaves the list unchanged. */
  lemma {:induction false} DropTargetAbsent(es: seq<Edge>, to: int)
    requires forall e :: e in es ==> e.target != to
    ensures DropTarget(es, to) == es
  {
    if es != [] {
      assert es[0] in es && es[0].target != to;
      DropTargetAbsent(es[1..], to);
      assert DropTarget(es, to) == [es[0]] + DropTarget(es[1..], to);
      assert es == [es[0]] + es[1..];
    }
  }

  /** A non-empty set of ids has a member (lets `:|` pick the next key). */
  lemma HasElement(s: set<int>)
    requires s != {}
    ensures exists k :: k in s
  {
    if forall k :: k !in s {
      assert false;
    }
  }

  /** The graph: the C++ class over its unordered_map adjacency_list. */
  class Graph {
    var adjacency: Adjacency

    ghost predicate Valid()
      reads this
    {
      Closed(adjacency)
    }

    constructor ()
      ensures Valid()
      ensures adjacency == map[]
    {
      adjacency := map[];
    }

    /** add_node: registers id with an empty edge list unless it is a node already. */
    method AddNode(id: int)
      modifies this
      ensures adjacency == WithNode(old(adjacency), id)
      ensures old(Valid()) ==> Valid()
    {
      if id !in adjacency {
        adjacency := adjacency[id := []];
      }
    }

    /** add_edge: registers both endpoints, then appends Edge(to, weight) to from's list. */
    method AddEdge(from: int, to: int, weight: nat)
      modifies this
      ensures adjacency == WithEdge(old(adjacency), from, to, weight)
      ensures old(Valid()) ==> Valid()
    {
      AddNode(from);
      AddNode(to);
      adjacency := adjacency[from := adjacency[from] + [Edge(to, weight)]];
    }

    /** remove_edge: drops every edge from `from` to `to`; a no-op when from is absent. */
    method RemoveEdge(from: int, to: int)
      modifies this
      ensures adjacency == WithoutEdgesTo(old(adjacency), from, to)
      ensures old(Valid()) ==> Valid()
    {
      if from !in adjacency {
        return;
      }
      var edges := adjacency[from];
      adjacency := adjacency[from := DropTarget(edges, to)];
    }

    /** get_edges: the stored list, or the empty list for an absent node. */
    function GetEdges(n: int): (r: seq<Edge>)
      reads this
      ensures n in adjacency ==> r == adjacency[n]
      ensures n !in adjacency ==> r == []
      ensures Valid() ==> forall e :: e in r ==> e.target in adjacency
    {
      Out(adjacency, n)
    }

    /** has_node */
    function HasNode(n: int): (b: bool)
      reads this
      ensures b <==> n in adjacency
      ensures !b ==> GetEdges(n) == []
    {
      n in adjacency
    }

    /** node_count */
    function NodeCount(): (c: nat)
      reads this
      ensures c == |adjacency.Keys|
    {
      |adjacency|
    }

    /** get_all_nodes: every node once, in an order the hash map does not promise. */
    method GetAllNodes() returns (nodes: seq<int>)
      ensures forall n :: n in nodes <==> n in adjacency
      ensures NoDuplicates(nodes)
      ensures |nodes| == NodeCount()
    {
      nodes := [];
      var rest := adjacency.Keys;
      while rest != {}
        invariant rest <= adjacency.Keys
        invariant forall n :: n in nodes <==> n in adjacency && n !in rest
        invariant NoDuplicates(nodes)
        invariant |nodes| + |rest| == |adjacency.Keys|
        decreases rest
      {
        HasElement(rest);
        var node :| node in rest;
        nodes := nodes + [node];
        rest := rest - {node};
      }
    }
  }
}
