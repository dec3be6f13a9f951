/**
 * Walks through the transit graph, the vocabulary the path-finding results
 * are specified in.
 *
 * A walk from s is a sequence of edges, each leaving the node the previous one
 * entered (the first leaves s). It is a sequence of edges rather than of nodes
 * because the graph may hold parallel edges with different weights.
 */
module Walks {
  import opened Graphs

  ghost predicate IsWalk(a: Adjacency, s: int, ws: seq<Edge>)
    decreases |ws|
  {
    ws == [] || (ws[0] in Out(a, s) && IsWalk(a, ws[0].target, ws[1..]))
  }

  /** The node a walk from s arrives at. */
  function End(s: int, ws: seq<Edge>): int
    decreases |ws|
  {
    if ws == [] then s else End(ws[0].target, ws[1..])
  }

  /** The total weight of a walk. */
  function Cost(ws: seq<Edge>): nat
    decreases |ws|
  {
    if ws == [] then 0 else ws[0].weight + Cost(ws[1..])
  }

  /** The nodes a walk from s passes through, s and End(s, ws) included. */
  function Trace(s: int, ws: seq<Edge>): seq<int>
    decreases |ws|
  {
    if ws == [] then [s] else [s] + Trace(ws[0].target, ws[1..])
  }

  ghost predicate HasEdge(a: Adjacency, x: int, y: int)
  {
    exists e :: e in Out(a, x) && e.target == y
  }

  /** Consecutive nodes of p are joined by an edge. */
  ghost predicate IsNodePath(a: Adjacency, p: seq<int>)
  {
    forall i :: 0 <= i < |p| - 1 ==> HasEdge(a, p[i], p[i + 1])
  }

  ghost predicate Reachable(a: Adjacency, s: int, t: int)
  {
    exists ws :: IsWalk(a, s, ws) && End(s, ws) == t
  }

  /** t is reached from s by a walk of at most k edges. */
  ghost predicate WithinHops(a: Adjacency, s: int, t: int, k: int)
  {
    exists ws :: IsWalk(a, s, ws) && End(s, ws) == t && |ws| <= k
  }

  /** ws goes from s to t and no walk from s to t weighs less. */
  ghost predicate IsShortestWalk(a: Adjacency, s: int, t: int, ws: seq<Edge>)
  {
    && IsWalk(a, s, ws) && End(s, ws) == t
    && forall vs :: IsWalk(a, s, vs) && End(s, vs) == t ==> Cost(ws) <= Cost(vs)
  }

  /** The fewest edges of any walk from s to t is k. */
  ghost predicate IsHopDistance(a: Adjacency, s: int, t: int, k: nat)
  {
    && (exists ws :: IsWalk(a, s, ws) && End(s, ws) == t && |ws| == k)
    && forall ws :: IsWalk(a, s, ws) && End(s, ws) == t ==> k <= |ws|
  }

  /** std::reverse */
  function Reverse(s: seq<int>): (r: seq<int>)
    ensures |r| == |s|
    ensures forall i :: 0 <= i < |s| ==> r[i] == s[|s| - 1 - i]
    decreases |s|
  {
    if s == [] then [] else [s[|s| - 1]] + Reverse(s[..|s| - 1])
  }

  /** The node trace of a walk starts at s, ends at its end and follows edges. */
  lemma {:induction false} TraceOfWalk(a: Adjacency, s: int, ws: seq<Edge>)
    requires IsWalk(a, s, ws)
    ensures |Trace(s, ws)| == |ws| + 1
    ensures Trace(s, ws)[0] == s
    ensures Trace(s, ws)[|ws|] == End(s, ws)
    ensures IsNodePath(a, Trace(s, ws))
    decreases |ws|
  {
    if ws != [] {
      var rest := Trace(ws[0].target, ws[1..]);
      TraceOfWalk(a, ws[0].target, ws[1..]);
      assert Trace(s, ws) == [s] + rest;
      assert HasEdge(a, s, ws[0].target);
      forall i | 0 <= i < |ws|
        ensures HasEdge(a, Trace(s, ws)[i], Trace(s, ws)[i + 1])
      {
        if i > 0 {
          assert Trace(s, ws)[i] == rest[i - 1] && Trace(s, ws)[i + 1] == rest[i];
        }
      }
    }
  }

  /** In a graph whose edge targets are nodes, a walk from a node ends at a node. */
  lemma {:induction false} WalkStaysInGraph(a: Adjacency, s: int, ws: seq<Edge>)
    requires Closed(a) && s in a && IsWalk(a, s, ws)
    ensures End(s, ws) in a
    decreases |ws|
  {
    if ws != [] {
      WalkStaysInGraph(a, ws[0].target, ws[1..]);
    }
  }

  /** Extending a walk by an edge out of its end gives a walk one edge longer. */
  lemma {:induction false} WalkSnoc(a: Adjacency, s: int, ws: seq<Edge>, e: Edge)
    requires IsWalk(a, s, ws)
    requires e in Out(a, End(s, ws))
    ensures IsWalk(a, s, ws + [e])
    ensures End(s, ws + [e]) == e.target
    ensures Cost(ws + [e]) == Cost(ws) + e.weight
    decreases |ws|
  {
    if ws == [] {
      assert [] + [e] == [e];
      assert [e][1..] == [];
    } else {
      assert (ws + [e])[1..] == ws[1..] + [e];
      WalkSnoc(a, ws[0].target, ws[1..], e);
    }
  }

  /** A sequence without duplicates has as many elements as the set of its elements. */
  lemma {:induction false} DistinctCount(s: seq<int>)
    requires NoDuplicates(s)
    ensures |set x | x in s| == |s|
  {
    if s != [] {
      var last := s[|s| - 1];
      var front := s[..|s| - 1];
      assert NoDuplicates(front);
      DistinctCount(front);
      assert s == front + [last];
      assert (set x | x in s) == (set x | x in front) + {last};
      assert last !in front;
    }
  }

  /** A sequence without duplicates that holds exactly the elements of t has |t| elements. */
  lemma DistinctElements(s: seq<int>, t: set<int>)
    requires NoDuplicates(s)
    requires forall v :: v in s <==> v in t
    ensures |s| == |t|
  {
    DistinctCount(s);
    assert (set x | x in s) == t;
  }

  /** Reversing a sequence with one more element at its end puts it in front. */
  lemma ReverseSnoc(s: seq<int>, x: int)
    ensures Reverse(s + [x]) == [x] + Reverse(s)
  {
    assert (s + [x])[..|s|] == s;
  }

  /** The prefix of s one element longer. */
  lemma PrefixSnoc(s: seq<Edge>, i: int)
    requires 0 <= i < |s|
    ensures s[..i + 1] == s[..i] + [s[i]]
  {
  }
}
