/**
 One trial of the Independent Cascade model (`run_ic_once`) and the average over
 trials (`run_ic`). The random number drawn for an activation attempt is an
 oracle `draw(u, v, round)`: the value `random.random()` returns when node `u`,
 activated in cascade round `round`, tries its successor `v`. The attempt
 succeeds when the value is at most the edge weight, as in the source.
 */
module IndependentCascade {
  import opened Graphs

  type Draws = (int, int, nat) -> real

  /** The test `random.random() <= G[u][v]['weight']` of the attempt of `u` on `v`. */
  predicate Fires(g: Graph, draw: Draws, u: int, v: int, round: nat): (fired: bool)
    ensures 1.0 <= g.weight && draw(u, v, round) < 1.0 ==> fired
    ensures g.weight < 0.0 && 0.0 <= draw(u, v, round) ==> !fired
  {
    draw(u, v, round) <= g.weight
  }

  function Elems(s: seq<int>): set<int> {
    set x | x in s
  }

  /** Nodes outside `active` that some node of `tried` activates in this round. */
  function Step(g: Graph, draw: Draws, active: set<int>, tried: set<int>, round: nat): (next: set<int>)
    ensures next <= Nodes(g)
    ensures next !! active
  {
    set v | v in g.succ && v !in active && exists u :: u in tried && Edge(g, u, v) && Fires(g, draw, u, v, round)
  }

  /** The nodes among `vs`, outside `active`, that node `u` activates. */
  function Attempts(g: Graph, draw: Draws, active: set<int>, u: int, vs: seq<int>, round: nat): (won: set<int>)
    ensures won <= Elems(vs) && won !! active
    ensures vs == [] ==> won == {}
  {
    set v | v in vs && v !in active && Fires(g, draw, u, v, round)
  }

  /** Activating a non-empty set of inactive nodes shrinks the inactive part. */
  lemma InactiveShrinks(g: Graph, active: set<int>, next: set<int>)
    requires next <= Nodes(g) && next !! active
    ensures next != {} ==> |Nodes(g) - (active + next)| < |Nodes(g) - active|
    ensures next == {} ==> Nodes(g) - (active + next) == Nodes(g) - active
  {
    assert Nodes(g) - active == (Nodes(g) - (active + next)) + next;
    assert (Nodes(g) - (active + next)) !! next;
  }

  /** The cascade as a recursive definition: from the activated set and the
      frontier, run rounds until the frontier is empty. Each round's new frontier
      is disjoint from the nodes active before it, so the activated set strictly
      grows in every round but the last. */
  function Cascade(g: Graph, draw: Draws, active: set<int>, frontier: set<int>, round: nat): (result: set<int>)
    requires frontier <= active <= Nodes(g)
    ensures active <= result <= Nodes(g)
    decreases |Nodes(g) - active|, |frontier|
  {
    if frontier == {} then
      active
    else
      var next := Step(g, draw, active, frontier, round);
      InactiveShrinks(g, active, next);
      Cascade(g, draw, active + next, next, round + 1)
  }

  /** The number of rounds (iterations of the `while frontier` loop) the cascade
      runs: at most one more than the number of nodes still inactive. */
  function Rounds(g: Graph, draw: Draws, active: set<int>, frontier: set<int>, round: nat): (n: nat)
    requires frontier <= active <= Nodes(g)
    ensures n <= |Nodes(g) - active| + (if frontier == {} then 0 else 1)
    decreases |Nodes(g) - active|, |frontier|
  {
    if frontier == {} then
      0
    else
      var next := Step(g, draw, active, frontier, round);
      InactiveShrinks(g, active, next);
      1 + Rounds(g, draw, active + next, next, round + 1)
  }

  /** One round of the cascade, unfolded: the rest of the cascade from the
      round's result is the rest of the cascade from its start. */
  lemma CascadeUnfold(g: Graph, draw: Draws, active: set<int>, frontier: set<int>, round: nat, next: set<int>)
    requires frontier <= active <= Nodes(g)
    requires frontier != {}
    requires next == Step(g, draw, active, frontier, round)
    ensures next <= active + next <= Nodes(g)
    ensures Cascade(g, draw, active + next, next, round + 1) == Cascade(g, draw, active, frontier, round)
    ensures 1 + Rounds(g, draw, active + next, next, round + 1) == Rounds(g, draw, active, frontier, round)
    ensures next == {} || |Nodes(g) - (active + next)| < |Nodes(g) - active|
  {
    InactiveShrinks(g, active, next);
  }

  /** Trying one more frontier node adds exactly the nodes it activates. */
  lemma StepAddTried(g: Graph, draw: Draws, active: set<int>, tried: set<int>, u: int, round: nat)
    requires WellFormed(g)
    requires u in g.succ
    ensures Step(g, draw, active, tried + {u}, round)
         == Step(g, draw, active, tried, round) + Attempts(g, draw, active, u, g.succ[u], round)
  {
    var lhs := Step(g, draw, active, tried + {u}, round);
    var rhs := Step(g, draw, active, tried, round) + Attempts(g, draw, active, u, g.succ[u], round);
    forall v | v in lhs ensures v in rhs {
      var w :| w in tried + {u} && Edge(g, w, v) && Fires(g, draw, w, v, round);
      if w != u {
        assert v in Step(g, draw, active, tried, round);
      }
    }
    forall v | v in rhs ensures v in lhs {
      if v in Attempts(g, draw, active, u, g.succ[u], round) {
        assert Edge(g, u, v);
      }
    }
  }

  lemma AttemptsSnoc(g: Graph, draw: Draws, active: set<int>, u: int, vs: seq<int>, v: int, round: nat)
    ensures Attempts(g, draw, active, u, vs + [v], round)
         == Attempts(g, draw, active, u, vs, round)
            + (if v !in active && Fires(g, draw, u, v, round) then {v} else {})
  {
  }

  lemma ElemsSnoc(s: seq<int>, x: int)
    ensures Elems(s + [x]) == Elems(s) + {x}
  {
  }

  /** `set(seeds)`, enumerated in first-occurrence order. */
  function Dedup(s: seq<int>): (r: seq<int>)
    ensures Elems(r) == Elems(s)
    ensures forall i, j :: 0 <= i < j < |r| ==> r[i] != r[j]
  {
    if s == [] then
      []
    else
      var r := Dedup(s[..|s| - 1]);
      var x := s[|s| - 1];
      assert s == s[..|s| - 1] + [x];
      ElemsSnoc(s[..|s| - 1], x);
      if x in r then r else ElemsSnoc(r, x); r + [x]
  }

  /** The inner `for v in G.successors(u)` loop for one frontier node `u`:
      every successor not yet active is tried once, and `activated` and the
      new frontier grow by the nodes `u` activates. */
  method TrySuccessors(g: Graph, draw: Draws, u: int, round: nat, ghost before: set<int>,
                       activated: set<int>, newFrontier: seq<int>)
    returns (activated': set<int>, newFrontier': seq<int>)
    requires u in g.succ
    requires activated == before + Elems(newFrontier)
    ensures activated' == before + Elems(newFrontier')
    ensures Elems(newFrontier') == Elems(newFrontier) + Attempts(g, draw, before, u, g.succ[u], round)
  {
    activated', newFrontier' := activated, newFrontier;
    var successors := g.succ[u];
    var i := 0;
    while i < |successors|
      invariant i <= |successors|
      invariant activated' == before + Elems(newFrontier')
      invariant Elems(newFrontier') == Elems(newFrontier) + Attempts(g, draw, before, u, successors[..i], round)
    {
      var v := successors[i];
      AttemptsSnoc(g, draw, before, u, successors[..i], v, round);
      assert successors[..i + 1] == successors[..i] + [v];
      if v !in activated' && Fires(g, draw, u, v, round) {
        ElemsSnoc(newFrontier', v);
        activated' := activated' + {v};
        newFrontier' := newFrontier' + [v];
      } else {
        assert v in before || v in Elems(newFrontier') || !Fires(g, draw, u, v, round);
      }
      i := i + 1;
    }
    assert successors[..i] == successors;
  }

  /** One iteration of the `while frontier` loop. The frontier is visited in the
      order `order`, any enumeration of it: the new frontier is the round's
      `Step` whatever the order. */
  method CascadeRound(g: Graph, draw: Draws, activated: set<int>, order: seq<int>, round: nat)
    returns (activated': set<int>, next: seq<int>)
    requires WellFormed(g)
    requires Elems(order) <= Nodes(g)
    ensures Elems(next) == Step(g, draw, activated, Elems(order), round)
    ensures activated' == activated + Elems(next)
  {
    activated' := activated;
    next := [];
    var i := 0;
    while i < |order|
      invariant i <= |order|
      invariant activated' == activated + Elems(next)
      invariant Elems(next) == Step(g, draw, activated, Elems(order[..i]), round)
    {
      var u := order[i];
      activated', next := TrySuccessors(g, draw, u, round, activated, activated', next);
      StepAddTried(g, draw, activated, Elems(order[..i]), u, round);
      assert order[..i + 1] == order[..i] + [u];
      ElemsSnoc(order[..i], u);
      i := i + 1;
    }
    assert order[..i] == order;
  }

  /** One iteration of the `while frontier` loop seen from the cascade: it moves
      to the next round of the same cascade, and either activates some node or
      leaves an empty frontier. */
  method AdvanceRound(g: Graph, draw: Draws, activated: set<int>, frontier: seq<int>, round: nat)
    returns (activated': set<int>, frontier': seq<int>)
    requires WellFormed(g)
    requires frontier != []
    requires Elems(frontier) <= activated <= Nodes(g)
    ensures Elems(frontier') <= activated' <= Nodes(g)
    ensures Cascade(g, draw, activated', Elems(frontier'), round + 1) == Cascade(g, draw, activated, Elems(frontier), round)
    ensures 1 + Rounds(g, draw, activated', Elems(frontier'), round + 1) == Rounds(g, draw, activated, Elems(frontier), round)
    ensures frontier' == [] || |Nodes(g) - activated'| < |Nodes(g) - activated|
  {
    assert frontier[0] in Elems(frontier);
    activated', frontier' := CascadeRound(g, draw, activated, frontier, round);
    CascadeUnfold(g, draw, activated, Elems(frontier), round, Elems(frontier'));
    if frontier' != [] {
      assert frontier'[0] in Elems(frontier');
    }
  }

  /** The `while frontier` loop from a given activated set and frontier: it
      runs the rest of the cascade. */
  method RunRounds(g: Graph, draw: Draws, activated: set<int>, frontier: seq<int>, round: nat)
    returns (result: set<int>, rounds: nat)
    requires WellFormed(g)
    requires Elems(frontier) <= activated <= Nodes(g)
    ensures result == Cascade(g, draw, activated, Elems(frontier), round)
    ensures rounds == round + Rounds(g, draw, activated, Elems(frontier), round)
  {
    result := activated;
    var current := frontier;
    rounds := round;
    while current != []
      invariant Elems(current) <= result <= Nodes(g)
      invariant Cascade(g, draw, result, Elems(current), rounds) == Cascade(g, draw, activated, Elems(frontier), round)
      invariant rounds + Rounds(g, draw, result, Elems(current), rounds) == round + Rounds(g, draw, activated, Elems(frontier), round)
      decreases |Nodes(g) - result|, |current|
    {
      result, current := AdvanceRound(g, draw, result, current, rounds);
      rounds := rounds + 1;
    }
    assert Elems(current) == {};
  }

  /** `run_ic_once`: the activated set starts as the seeds; each round every
      frontier node tries each of its not-yet-active successors once, and the
      nodes activated in the round form the next frontier, until a round
      activates nothing. `seeds` must be nodes of the graph: networkx raises an
      error on `G.successors` of an unknown node. The ghost `rounds` counts the
      iterations of the `while frontier` loop. */
  method RunIcOnce(g: Graph, draw: Draws, seeds: seq<int>) returns (activated: set<int>, ghost rounds: nat)
    requires WellFormed(g)
    requires Elems(seeds) <= Nodes(g)
    ensures activated == Cascade(g, draw, Elems(seeds), Elems(seeds), 0)
    ensures Elems(seeds) <= activated <= Nodes(g)
    ensures rounds == Rounds(g, draw, Elems(seeds), Elems(seeds), 0)
    ensures rounds <= |Nodes(g)|
  {
    var frontier := Dedup(seeds);
    var n;
    activated, n := RunRounds(g, draw, Elems(seeds), frontier, 0);
    rounds := n;
    CascadeFromSeeds(g, draw, Elems(seeds));
  }

  /** The bounds the recursive definitions give for a cascade started from the seeds. */
  lemma CascadeFromSeeds(g: Graph, draw: Draws, seeds: set<int>)
    requires seeds <= Nodes(g)
    ensures seeds <= Cascade(g, draw, seeds, seeds, 0) <= Nodes(g)
    ensures Rounds(g, draw, seeds, seeds, 0) <= |Nodes(g) - seeds| + 1
    ensures Rounds(g, draw, seeds, seeds, 0) <= |Nodes(g)|
  {
    if seeds != {} {
      assert Nodes(g) == (Nodes(g) - seeds) + seeds;
      assert |Nodes(g)| == |Nodes(g) - seeds| + |seeds|;
    }
  }

  lemma SubsetCard(a: set<int>, b: set<int>)
    requires a <= b
    ensures |a| <= |b|
  {
    assert b == a + (b - a);
  }

  /** The total number of activated nodes over a list of independent trials. */
  function TotalActivated(g: Graph, trials: seq<Draws>, seeds: set<int>): (total: nat)
    requires seeds <= Nodes(g)
    ensures |trials| * |seeds| <= total <= |trials| * |Nodes(g)|
  {
    if trials == [] then
      0
    else
      var n := |trials| - 1;
      var last := Cascade(g, trials[n], seeds, seeds, 0);
      SubsetCard(seeds, last);
      SubsetCard(last, Nodes(g));
      assert |trials| * |seeds| == n * |seeds| + |seeds|;
      assert |trials| * |Nodes(g)| == n * |Nodes(g)| + |Nodes(g)|;
      TotalActivated(g, trials[..n], seeds) + |last|
  }

  lemma DivideBounds(total: real, n: real, lo: real, hi: real)
    requires n > 0.0
    requires n * lo <= total <= n * hi
    ensures lo <= total / n <= hi
  {
    var q := total / n;
    assert q * n == total;
  }

  lemma CastBounds(n: nat, lo: nat, hi: nat, total: nat)
    requires n * lo <= total <= n * hi
    ensures (n as real) * (lo as real) <= total as real <= (n as real) * (hi as real)
  {
    assert (n * lo) as real == (n as real) * (lo as real);
    assert (n * hi) as real == (n as real) * (hi as real);
  }

  /** A total of `n` counts, each between `lo` and `hi`, has its mean there too. */
  lemma MeanBounds(total: nat, n: nat, lo: nat, hi: nat)
    requires n > 0
    requires n * lo <= total <= n * hi
    ensures lo as real <= total as real / n as real <= hi as real
  {
    CastBounds(n, lo, hi, total);
    DivideBounds(total as real, n as real, lo as real, hi as real);
  }

  /** `run_ic`: the mean size of the activated set over `steps` trials, each
      with its own draws. The estimate lies between the number of distinct seeds
      and the number of nodes. */
  function MeanSpread(g: Graph, trials: seq<Draws>, seeds: seq<int>): (mean: real)
    requires |trials| > 0
    requires Elems(seeds) <= Nodes(g)
    ensures |Elems(seeds)| as real <= mean <= |Nodes(g)| as real
  {
    var total := TotalActivated(g, trials, Elems(seeds));
    MeanBounds(total, |trials|, |Elems(seeds)|, |Nodes(g)|);
    total as real / |trials| as real
  }
}
