/**
 What a cascade can reach. A node activated by `run_ic_once` is always joined to
 a seed by a path of graph edges; and when every activation attempt succeeds
 (edge weight 1.0, since `random.random()` is below 1.0) the cascade activates
 exactly the nodes reachable from the seeds.
 */
module Reachability {
  import opened Graphs
  import opened IndependentCascade

  /** A non-empty walk along graph edges. */
  ghost predicate IsPath(g: Graph, path: seq<int>) {
    |path| > 0 && forall i :: 0 <= i < |path| - 1 ==> Edge(g, path[i], path[i + 1])
  }

  /** `v` is the end of a walk that starts in `sources` (a source reaches itself). */
  ghost predicate Reachable(g: Graph, sources: set<int>, v: int) {
    exists path :: IsPath(g, path) && path[0] in sources && path[|path| - 1] == v
  }

  /** `random.random()` returns a value in [0.0, 1.0). */
  ghost predicate UnitDraws(draw: Draws) {
    forall u, v, r :: 0.0 <= draw(u, v, r) < 1.0
  }

  /** No edge leads from a node of `active` outside the frontier to an inactive node. */
  ghost predicate ClosedOutside(g: Graph, active: set<int>, frontier: set<int>) {
    forall u, v :: u in active && u !in frontier && Edge(g, u, v) ==> v in active
  }

  lemma ReachableStep(g: Graph, sources: set<int>, u: int, v: int)
    requires Reachable(g, sources, u)
    requires Edge(g, u, v)
    ensures Reachable(g, sources, v)
  {
    var path :| IsPath(g, path) && path[0] in sources && path[|path| - 1] == u;
    var longer := path + [v];
    assert IsPath(g, longer);
    assert longer[0] in sources && longer[|longer| - 1] == v;
  }

  /** Every node a cascade activates is reachable from the sources, provided the
      nodes it starts with are. Holds whatever the draws are. */
  lemma {:induction false} CascadeWithinReach(g: Graph, draw: Draws, sources: set<int>,
                                              active: set<int>, frontier: set<int>, round: nat)
    requires frontier <= active <= Nodes(g)
    requires forall v :: v in active ==> Reachable(g, sources, v)
    ensures forall v :: v in Cascade(g, draw, active, frontier, round) ==> Reachable(g, sources, v)
    decreases |Nodes(g) - active|, |frontier|
  {
    if frontier != {} {
      var next := Step(g, draw, active, frontier, round);
      InactiveShrinks(g, active, next);
      forall v | v in next ensures Reachable(g, sources, v) {
        var u :| u in frontier && Edge(g, u, v) && Fires(g, draw, u, v, round);
        ReachableStep(g, sources, u, v);
      }
      CascadeWithinReach(g, draw, sources, active + next, next, round + 1);
    }
  }

  /** `run_ic_once` returns a superset of the seeds, and every node it returns is
      a seed or reachable from one along graph edges. */
  lemma CascadeSound(g: Graph, draw: Draws, seeds: set<int>)
    requires seeds <= Nodes(g)
    ensures seeds <= Cascade(g, draw, seeds, seeds, 0)
    ensures forall v :: v in Cascade(g, draw, seeds, seeds, 0) ==> Reachable(g, seeds, v)
  {
    forall v | v in seeds ensures Reachable(g, seeds, v) {
      assert IsPath(g, [v]);
    }
    CascadeWithinReach(g, draw, seeds, seeds, seeds, 0);
  }

  /** When every attempt succeeds, a cascade ends with no edge leaving the activated set. */
  lemma {:induction false} CertainCascadeClosed(g: Graph, draw: Draws,
                                                active: set<int>, frontier: set<int>, round: nat)
    requires WellFormed(g)
    requires frontier <= active <= Nodes(g)
    requires forall u, v, r :: Fires(g, draw, u, v, r)
    requires ClosedOutside(g, active, frontier)
    ensures ClosedOutside(g, Cascade(g, draw, active, frontier, round), {})
    decreases |Nodes(g) - active|, |frontier|
  {
    if frontier != {} {
      var next := Step(g, draw, active, frontier, round);
      InactiveShrinks(g, active, next);
      forall u, v | u in active + next && u !in next && Edge(g, u, v) ensures v in active + next {
        if u in frontier && v !in active {
          assert v in next;
        }
      }
      CertainCascadeClosed(g, draw, active + next, next, round + 1);
    }
  }

  /** A walk that starts in a set with no outgoing edges stays inside it. */
  lemma {:induction false} PathStaysInside(g: Graph, closed: set<int>, path: seq<int>, i: nat)
    requires IsPath(g, path)
    requires path[0] in closed
    requires ClosedOutside(g, closed, {})
    requires i < |path|
    ensures path[i] in closed
    decreases i
  {
    if i > 0 {
      PathStaysInside(g, closed, path, i - 1);
      assert Edge(g, path[i - 1], path[i]);
    }
  }

  /** With edge weight 1.0 every draw of `random.random()` passes the test
      `<= weight`, and `run_ic_once` activates exactly the nodes reachable from
      the seeds. */
  lemma CertainCascadeIsReachability(g: Graph, draw: Draws, seeds: set<int>)
    requires WellFormed(g)
    requires seeds <= Nodes(g)
    requires g.weight == 1.0
    requires UnitDraws(draw)
    ensures forall v :: v in Cascade(g, draw, seeds, seeds, 0) <==> Reachable(g, seeds, v)
  {
    CascadeSound(g, draw, seeds);
    var result := Cascade(g, draw, seeds, seeds, 0);
    assert forall u, v, r :: Fires(g, draw, u, v, r) by {
      forall u, v, r ensures Fires(g, draw, u, v, r) {
        assert draw(u, v, r) < 1.0;
      }
    }
    CertainCascadeClosed(g, draw, seeds, seeds, 0);
    forall v | Reachable(g, seeds, v) ensures v in result {
      var path :| IsPath(g, path) && path[0] in seeds && path[|path| - 1] == v;
      PathStaysInside(g, result, path, |path| - 1);
    }
  }
}
