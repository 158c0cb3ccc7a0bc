/**
 A worked case: the path 1 - 2 - 3 - 4 loaded with weight 1.0. Every attempt
 succeeds, so every trial of any non-empty seed list activates all four nodes
 and `run_ic` estimates 4.0. With all singleton gains equal, the heap's tuple
 order breaks the tie by node id, and `celf` with `k = 1` selects node 1.
 */
module LineScenario {
  import opened Graphs
  import opened IndependentCascade
  import opened Reachability
  import opened LazyGreedy

  const LinePairs: seq<(int, int)> := [(1, 2), (2, 3), (3, 4)]

  /** The shape of the loaded path: nodes 1 to 4, each joined to the next in
      both directions, weight 1.0. */
  ghost predicate IsLine(g: Graph) {
    && WellFormed(g) && g.weight == 1.0
    && Nodes(g) == {1, 2, 3, 4}
    && Edge(g, 1, 2) && Edge(g, 2, 3) && Edge(g, 3, 4)
    && Edge(g, 2, 1) && Edge(g, 3, 2) && Edge(g, 4, 3)
  }

  /** The pairs `(1, 2), (2, 3), (3, 4)`, given index by index. */
  ghost predicate LinePairsAt(pairs: seq<(int, int)>) {
    |pairs| == 3 && pairs[0] == (1, 2) && pairs[1] == (2, 3) && pairs[2] == (3, 4)
  }

  lemma LinePairsMention(pairs: seq<(int, int)>, x: int)
    requires LinePairsAt(pairs)
    ensures Mentioned(pairs, x) <==> x in {1, 2, 3, 4}
  {
    if x in {1, 2, 3, 4} {
      var i := if x == 1 then 0 else x - 2;
      assert pairs[i].0 == x || pairs[i].1 == x;
    }
  }

  lemma LineLoadedNodes(pairs: seq<(int, int)>)
    requires LinePairsAt(pairs)
    ensures Nodes(BuildGraph(pairs, 1.0)) == {1, 2, 3, 4}
  {
    var g := BuildGraph(pairs, 1.0);
    forall x ensures x in Nodes(g) <==> x in {1, 2, 3, 4} {
      LinePairsMention(pairs, x);
    }
  }

  lemma LineLoadedEdge(pairs: seq<(int, int)>, i: nat)
    requires LinePairsAt(pairs) && i < 3
    ensures Edge(BuildGraph(pairs, 1.0), pairs[i].0, pairs[i].1)
    ensures Edge(BuildGraph(pairs, 1.0), pairs[i].1, pairs[i].0)
  {
    assert Linked(pairs, pairs[i].0, pairs[i].1);
    assert Linked(pairs, pairs[i].1, pairs[i].0);
  }

  /** Loading the three pairs gives the path. */
  lemma LineLoaded(pairs: seq<(int, int)>)
    requires LinePairsAt(pairs)
    ensures IsLine(BuildGraph(pairs, 1.0))
  {
    LineLoadedNodes(pairs);
    LineLoadedEdge(pairs, 0);
    LineLoadedEdge(pairs, 1);
    LineLoadedEdge(pairs, 2);
  }

  /** Along the path every node reaches every other. */
  lemma LineConnected(g: Graph, n: int, v: int)
    requires IsLine(g)
    requires n in {1, 2, 3, 4} && v in {1, 2, 3, 4}
    ensures Reachable(g, {n}, v)
  {
    var path := if n <= v then seq(v - n + 1, i => n + i) else seq(n - v + 1, i => n - i);
    assert IsPath(g, path) by {
      forall i | 0 <= i < |path| - 1 ensures Edge(g, path[i], path[i + 1]) {
        var a, b := path[i], path[i + 1];
        if n <= v {
          assert b == a + 1 && 1 <= a <= 3;
        } else {
          assert a == b + 1 && 1 <= b <= 3;
        }
      }
    }
    assert path[0] in {n} && path[|path| - 1] == v;
  }

  /** One trial from any non-empty set of path nodes activates the whole path. */
  lemma LineCascadeTotal(g: Graph, draw: Draws, seeds: set<int>)
    requires IsLine(g)
    requires UnitDraws(draw)
    requires seeds != {} && seeds <= {1, 2, 3, 4}
    ensures seeds <= Nodes(g)
    ensures Cascade(g, draw, seeds, seeds, 0) == {1, 2, 3, 4}
  {
    CertainCascadeIsReachability(g, draw, seeds);
    var n :| n in seeds;
    forall v | v in {1, 2, 3, 4} ensures Reachable(g, seeds, v) {
      LineConnected(g, n, v);
      var path :| IsPath(g, path) && path[0] in {n} && path[|path| - 1] == v;
    }
  }

  lemma {:induction false} LineTotal(g: Graph, trials: seq<Draws>, seeds: set<int>)
    requires IsLine(g)
    requires forall i :: 0 <= i < |trials| ==> UnitDraws(trials[i])
    requires seeds != {} && seeds <= {1, 2, 3, 4}
    ensures seeds <= Nodes(g)
    ensures TotalActivated(g, trials, seeds) == 4 * |trials|
    decreases |trials|
  {
    if trials != [] {
      var n := |trials| - 1;
      LineTotal(g, trials[..n], seeds);
      LineCascadeTotal(g, trials[n], seeds);
      TotalActivatedSnoc(g, trials, seeds);
    }
  }

  lemma TotalActivatedSnoc(g: Graph, trials: seq<Draws>, seeds: set<int>)
    requires trials != [] && seeds <= Nodes(g)
    ensures TotalActivated(g, trials, seeds)
         == TotalActivated(g, trials[..|trials| - 1], seeds) + |Cascade(g, trials[|trials| - 1], seeds, seeds, 0)|
  {
  }

  /** `run_ic` on the path with weight 1.0 estimates 4.0 for every non-empty
      seed list, whatever `random.random()` returns. */
  lemma LineMeanSpread(g: Graph, trials: seq<Draws>, s: seq<int>)
    requires IsLine(g)
    requires |trials| > 0
    requires forall i :: 0 <= i < |trials| ==> UnitDraws(trials[i])
    requires s != [] && Elems(s) <= {1, 2, 3, 4}
    ensures Elems(s) <= Nodes(g)
    ensures MeanSpread(g, trials, s) == LineSpread(s) == 4.0
  {
    assert s[0] in Elems(s);
    LineTotal(g, trials, Elems(s));
    assert MeanSpread(g, trials, s) == TotalActivated(g, trials, Elems(s)) as real / |trials| as real;
    FourPerTrial(|trials|);
  }

  lemma FourPerTrial(n: nat)
    requires n > 0
    ensures (4 * n) as real / n as real == 4.0
  {
    assert (4 * n) as real == 4.0 * n as real;
  }

  /** The graph the loading loop builds from the three pairs is the path. */
  lemma LinePairsLoadLine()
    ensures IsLine(BuildGraph(LinePairs, 1.0))
  {
    LineLoaded(LinePairs);
  }

  /** The estimate `LineMeanSpread` establishes, as a spread oracle. */
  function LineSpread(s: seq<int>): real {
    if s == [] then 0.0 else 4.0
  }

  lemma LineSpreadDiminishing()
    ensures DiminishingReturns(LineSpread)
  {
    forall s: seq<int>, t: seq<int>, n: int | s <= t
      ensures Marginal(LineSpread, t, n) <= Marginal(LineSpread, s, n)
    {
      if t == [] {
        assert s == [];
      }
    }
  }

  /** On the path every node ties at gain 4.0 over no seeds, so naive greedy's
      first choice is the smallest node. */
  lemma LineGreedyFirst(nodes: seq<int>)
    requires Elems(nodes) == {1, 2, 3, 4}
    ensures DiminishingReturns(LineSpread)
    ensures GreedyRun(LineSpread, nodes, [1])
  {
    LineSpreadDiminishing();
    assert [1][..0] == [];
    assert Marginal(LineSpread, [], 1) == 4.0;
    assert 1 in Elems(nodes);
    forall m | m in nodes && m != 1 ensures 1 < m {
      assert m in Elems(nodes);
    }
  }

  /** `celf(G, 1)` on the path selects node 1, whatever order `G.nodes()`
      lists the four nodes in: all four tie at gain 4.0, and the heap orders
      equal gains by node id. */
  method CelfOnLine(nodes: seq<int>) returns (r: Outcome)
    requires Distinct(nodes) && Elems(nodes) == {1, 2, 3, 4}
    ensures r == Seeds([1])
  {
    ghost var asked, run;
    assert 1 in Elems(nodes);
    LineGreedyFirst(nodes);
    r, asked, run := Celf(nodes, 1, LineSpread);
    assert r.Seeds? && |r.selected| == 1;
    GreedyRunUnique(LineSpread, nodes, r.selected, [1]);
  }
}
