/**
 The graph store: a directed graph held as a finite successor map, every edge
 carrying the same activation weight `p`. A node's successors are kept as a
 list in insertion order, as networkx keeps its adjacency dictionaries. The
 graph is built from a list of integer pairs, each pair contributing the edge
 in both directions, as the loading loop of `facebook_CELF.py` does with
 `networkx.DiGraph.add_edge`.
 */
module Graphs {

  /** `succ[u]` lists the successors of node `u`; the node set is the key set. */
  datatype Graph = Graph(succ: map<int, seq<int>>, weight: real)

  function Nodes(g: Graph): set<int> {
    g.succ.Keys
  }

  predicate Edge(g: Graph, u: int, v: int) {
    u in g.succ && v in g.succ[u]
  }

  /** Every successor is itself a node (networkx adds both endpoints of an edge). */
  ghost predicate WellFormed(g: Graph) {
    forall u, v :: u in g.succ && v in g.succ[u] ==> v in g.succ
  }

  /** True when `x` is an endpoint of some pair of the list. */
  ghost predicate Mentioned(pairs: seq<(int, int)>, x: int) {
    exists i :: 0 <= i < |pairs| && (pairs[i].0 == x || pairs[i].1 == x)
  }

  /** True when the list holds the pair `(a, b)` in either orientation. */
  ghost predicate Linked(pairs: seq<(int, int)>, a: int, b: int) {
    exists i :: 0 <= i < |pairs| && (pairs[i] == (a, b) || pairs[i] == (b, a))
  }

  /** `G.add_edge(u, v, weight=p)`: both endpoints become nodes, the edge `u -> v`
      is present afterwards, and nothing else changes. An edge that already
      exists keeps its place and gets the same uniform weight again. */
  function AddEdge(g: Graph, u: int, v: int): (h: Graph)
    ensures Nodes(h) == Nodes(g) + {u, v}
    ensures forall a, b :: Edge(h, a, b) <==> Edge(g, a, b) || (a == u && b == v)
    ensures h.weight == g.weight
    ensures WellFormed(g) ==> WellFormed(h)
  {
    var withV := if v in g.succ then g.succ else g.succ[v := []];
    var oldSucc := if u in g.succ then g.succ[u] else [];
    Graph(withV[u := if v in oldSucc then oldSucc else oldSucc + [v]], g.weight)
  }

  /** The loading loop, one line (pair) at a time: every pair `(u, v)` adds
      `u -> v` and then `v -> u`, both with weight `p`. */
  function BuildGraph(pairs: seq<(int, int)>, p: real): (g: Graph)
    ensures WellFormed(g)
    ensures g.weight == p
    ensures forall x :: x in Nodes(g) <==> Mentioned(pairs, x)
    ensures forall a, b :: Edge(g, a, b) <==> Linked(pairs, a, b)
    decreases |pairs|
  {
    if pairs == [] then
      Graph(map[], p)
    else
      var prefix := pairs[..|pairs| - 1];
      var last := pairs[|pairs| - 1];
      var g0 := BuildGraph(prefix, p);
      var g1 := AddEdge(g0, last.0, last.1);
      var g2 := AddEdge(g1, last.1, last.0);
      MentionedSnoc(pairs);
      LinkedSnoc(pairs);
      g2
  }

  lemma MentionedSnoc(pairs: seq<(int, int)>)
    requires pairs != []
    ensures forall x :: Mentioned(pairs, x) <==>
      Mentioned(pairs[..|pairs| - 1], x) || x == pairs[|pairs| - 1].0 || x == pairs[|pairs| - 1].1
  {
    var prefix := pairs[..|pairs| - 1];
    forall x | Mentioned(prefix, x) ensures Mentioned(pairs, x) {
      var i :| 0 <= i < |prefix| && (prefix[i].0 == x || prefix[i].1 == x);
      assert pairs[i] == prefix[i];
    }
    forall x | Mentioned(pairs, x) && !Mentioned(prefix, x)
      ensures x == pairs[|pairs| - 1].0 || x == pairs[|pairs| - 1].1
    {
      var i :| 0 <= i < |pairs| && (pairs[i].0 == x || pairs[i].1 == x);
      assert i == |pairs| - 1;
    }
  }

  lemma LinkedSnoc(pairs: seq<(int, int)>)
    requires pairs != []
    ensures forall a, b :: Linked(pairs, a, b) <==>
      Linked(pairs[..|pairs| - 1], a, b) || pairs[|pairs| - 1] == (a, b) || pairs[|pairs| - 1] == (b, a)
  {
    var prefix := pairs[..|pairs| - 1];
    forall a, b | Linked(prefix, a, b) ensures Linked(pairs, a, b) {
      var i :| 0 <= i < |prefix| && (prefix[i] == (a, b) || prefix[i] == (b, a));
      assert pairs[i] == prefix[i];
    }
    forall a, b | Linked(pairs, a, b) && !Linked(prefix, a, b)
      ensures pairs[|pairs| - 1] == (a, b) || pairs[|pairs| - 1] == (b, a)
    {
      var i :| 0 <= i < |pairs| && (pairs[i] == (a, b) || pairs[i] == (b, a));
      assert i == |pairs| - 1;
    }
  }

  /** The loaded relation is symmetric: every edge has its reverse. */
  lemma BuildGraphSymmetric(pairs: seq<(int, int)>, p: real, a: int, b: int)
    ensures Edge(BuildGraph(pairs, p), a, b) <==> Edge(BuildGraph(pairs, p), b, a)
  {
  }
}
