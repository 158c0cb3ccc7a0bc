/**
 CELF lazy greedy seed selection (`celf`). The spread estimator `run_ic` on the
 fixed graph becomes an oracle `spread` from a seed list to a real number. The
 loop is a state machine: `Tick` is one iteration (pop; accept a fresh entry, or
 re-score a stale one and push it back), and `Celf` runs it until `k` seeds are
 selected or the heap runs out.
 */
module LazyGreedy {
  import opened HeapQueue

  /** `run_ic(G, seeds, p=p, steps=steps)` for the graph at hand. */
  type Spread = seq<int> -> real

  /** The loop variables of `celf`: `queue`, `selected`, `spread_cache`, `round_num`. */
  datatype State = State(queue: seq<Entry>, selected: seq<int>, cache: map<int, real>, round: nat)

  /** What `celf` returns, or the `IndexError` of `heappop` on an empty heap. */
  datatype Outcome = Seeds(selected: seq<int>) | EmptyHeapPop

  predicate Distinct(s: seq<int>) {
    forall i, j :: 0 <= i < j < |s| ==> s[i] != s[j]
  }

  /** The spread of a seed list as the cache accounts for it: zero for no seeds. */
  function Base(spread: Spread, s: seq<int>): real {
    if s == [] then 0.0 else spread(s)
  }

  /** The marginal gain of adding `n` to the seed list `s`. */
  function Marginal(spread: Spread, s: seq<int>, n: int): real {
    spread(s + [n]) - Base(spread, s)
  }

  /** `sum(spread_cache.values())`: a dict iterates in insertion order, which is
      the order of `selected`. */
  function CacheSum(cache: map<int, real>, selected: seq<int>): real
    requires forall n :: n in selected ==> n in cache
  {
    if selected == [] then
      0.0
    else
      var last := selected[|selected| - 1];
      assert last in selected;
      CacheSum(cache, selected[..|selected| - 1]) + cache[last]
  }

  /** When each cached gain is the marginal gain of its node over the seeds
      chosen before it, the cache sums to the spread of the whole seed list. */
  lemma {:induction false} CacheSumTelescopes(spread: Spread, cache: map<int, real>, selected: seq<int>)
    requires forall i :: 0 <= i < |selected| ==>
      selected[i] in cache && cache[selected[i]] == Marginal(spread, selected[..i], selected[i])
    ensures CacheSum(cache, selected) == Base(spread, selected)
    decreases |selected|
  {
    if selected != [] {
      var init := selected[..|selected| - 1];
      var last := selected[|selected| - 1];
      forall i | 0 <= i < |init|
        ensures init[i] in cache && cache[init[i]] == Marginal(spread, init[..i], init[i])
      {
        assert init[..i] == selected[..i];
      }
      CacheSumTelescopes(spread, cache, init);
      assert selected[..|selected| - 1] == init;
      assert init + [last] == selected;
    }
  }

  /** The first loop of `celf`: one entry per node, keyed by its singleton spread, stamp 0. */
  function InitialQueue(nodes: seq<int>, spread: Spread): (q: seq<Entry>)
    ensures NodeBag(q) == multiset(nodes)
    ensures forall e :: e in q ==> e.stamp == 0 && e.gain == spread([e.node])
  {
    if nodes == [] then
      []
    else
      var init := nodes[..|nodes| - 1];
      var n := nodes[|nodes| - 1];
      assert nodes == init + [n];
      NodeBagSnoc(InitialQueue(init, spread), Entry(spread([n]), n, 0));
      InitialQueue(init, spread) + [Entry(spread([n]), n, 0)]
  }

  /** The state before the `while` loop: the heap filled by the first loop, no
      seeds, an empty cache, round 0. */
  function Initial(nodes: seq<int>, spread: Spread): (s: State)
    ensures NodeBag(s.queue) == multiset(nodes)
    ensures forall e :: e in s.queue ==> e.stamp == s.round && e.gain == Marginal(spread, s.selected, e.node)
    ensures s.selected == [] && s.cache == map[]
  {
    var q := InitialQueue(nodes, spread);
    assert forall e :: e in q ==> [] + [e.node] == [e.node];
    State(q, [], map[], 0)
  }

  /** `spread_cache` is only ever written at a node not yet selected, so writing
      there leaves the sum over the earlier seeds alone. */
  lemma {:induction false} CacheSumFrame(cache: map<int, real>, selected: seq<int>, n: int, gain: real)
    requires forall m :: m in selected ==> m in cache
    requires n !in selected
    ensures CacheSum(cache[n := gain], selected) == CacheSum(cache, selected)
    decreases |selected|
  {
    if selected != [] {
      var init := selected[..|selected| - 1];
      assert forall m :: m in init ==> m in selected;
      CacheSumFrame(cache, init, n, gain);
    }
  }

  /** Accepting node `n` with gain `gain` raises `sum(spread_cache.values())`
      by exactly `gain`. */
  lemma CacheSumAccept(cache: map<int, real>, selected: seq<int>, n: int, gain: real)
    requires forall m :: m in selected ==> m in cache
    requires n !in selected
    ensures CacheSum(cache[n := gain], selected + [n]) == CacheSum(cache, selected) + gain
  {
    CacheSumFrame(cache, selected, n, gain);
    assert (selected + [n])[..|selected|] == selected;
  }

  /** One iteration of the `while len(selected) < k` loop. A popped entry whose
      stamp is the current round is accepted; any other is re-scored against the
      current seeds and pushed back with the current stamp. */
  function Tick(s: State, spread: Spread): (t: State)
    requires |s.queue| > 0
    requires forall n :: n in s.selected ==> n in s.cache
    ensures t.selected == s.selected || t.selected == s.selected + [Top(s.queue).node]
    ensures t.selected != s.selected <==> Top(s.queue).stamp == s.round
    ensures multiset(t.queue) == multiset(s.queue) - multiset{Top(s.queue)}
              + (if Top(s.queue).stamp == s.round then multiset{} else multiset{Renewed(s, spread)})
    ensures t.selected != s.selected ==>
      t.round == s.round + 1 && t.cache == s.cache[Top(s.queue).node := Top(s.queue).gain]
    ensures t.selected == s.selected ==> t.round == s.round && t.cache == s.cache
  {
    var e := Top(s.queue);
    var rest := Pop(s.queue);
    if e.stamp == s.round then
      State(rest, s.selected + [e.node], s.cache[e.node := e.gain], s.round + 1)
    else
      State(rest + [Renewed(s, spread)], s.selected, s.cache, s.round)
  }

  /** The entry a stale pop pushes back: the popped node, re-scored against
      the current seeds, stamped with the current round. */
  function Renewed(s: State, spread: Spread): (e: Entry)
    requires |s.queue| > 0
    requires forall n :: n in s.selected ==> n in s.cache
    ensures e.node == Top(s.queue).node && e.stamp == s.round
  {
    Entry(spread(s.selected + [Top(s.queue).node]) - CacheSum(s.cache, s.selected), Top(s.queue).node, s.round)
  }

  lemma TickAccepts(s: State, spread: Spread)
    requires |s.queue| > 0
    requires forall n :: n in s.selected ==> n in s.cache
    requires Top(s.queue).stamp == s.round
    ensures Tick(s, spread)
         == State(Pop(s.queue), s.selected + [Top(s.queue).node], s.cache[Top(s.queue).node := Top(s.queue).gain], s.round + 1)
  {
  }

  lemma TickRefreshes(s: State, spread: Spread)
    requires |s.queue| > 0
    requires forall n :: n in s.selected ==> n in s.cache
    requires Top(s.queue).stamp != s.round
    ensures Tick(s, spread) == State(Pop(s.queue) + [Renewed(s, spread)], s.selected, s.cache, s.round)
  {
  }

  /** The bookkeeping `celf` keeps: the queue holds exactly one entry for every
      node not yet selected (the bags add up to the node list, whose nodes are
      distinct); `selected` has no repeats; `round_num == len(selected)`; the
      cache is keyed by exactly the selected nodes; no stamp is ahead of the
      round. */
  ghost predicate Consistent(s: State, nodes: seq<int>) {
    && NodeBag(s.queue) + multiset(s.selected) == multiset(nodes)
    && Distinct(s.selected)
    && s.round == |s.selected|
    && s.cache.Keys == (set n | n in s.selected)
    && forall e :: e in s.queue ==> e.stamp <= s.round
  }

  /** Every queue entry holds its node's marginal gain over the seeds selected
      before the entry's stamp, and every cached gain its node's marginal gain
      over the seeds selected before it. */
  ghost predicate GainsExact(s: State, spread: Spread) {
    && (forall e :: e in s.queue ==>
          e.stamp <= |s.selected| && e.gain == Marginal(spread, s.selected[..e.stamp], e.node))
    && (forall i :: 0 <= i < |s.selected| ==>
          s.selected[i] in s.cache && s.cache[s.selected[i]] == Marginal(spread, s.selected[..i], s.selected[i]))
  }

  lemma {:induction false} DistinctMultiplicity(s: seq<int>)
    requires Distinct(s)
    ensures forall x :: multiset(s)[x] <= 1
    decreases |s|
  {
    if s != [] {
      var init := s[..|s| - 1];
      assert s == init + [s[|s| - 1]];
      DistinctMultiplicity(init);
      assert s[|s| - 1] !in init;
    }
  }

  lemma InitialConsistent(nodes: seq<int>, spread: Spread)
    requires Distinct(nodes)
    ensures Consistent(Initial(nodes, spread), nodes)
    ensures GainsExact(Initial(nodes, spread), spread)
  {
    var s := Initial(nodes, spread);
    forall e | e in s.queue
      ensures e.stamp <= |s.selected| && e.gain == Marginal(spread, s.selected[..e.stamp], e.node)
    {
      assert s.selected[..0] + [e.node] == [e.node];
    }
  }

  /** A node that is still in the queue has not been selected. */
  lemma QueuedNotSelected(s: State, nodes: seq<int>, e: Entry)
    requires Distinct(nodes)
    requires Consistent(s, nodes)
    requires e in s.queue
    ensures e.node !in s.selected
    ensures e.node in nodes
  {
    DistinctMultiplicity(nodes);
    NodeBagHas(s.queue, e);
    assert multiset(nodes)[e.node] == NodeBag(s.queue)[e.node] + multiset(s.selected)[e.node];
  }

  /** The queue's nodes and the seeds partition the node list: every node is in
      exactly one of them, and in the queue at most once. */
  lemma ConsistentPartition(s: State, nodes: seq<int>)
    requires Distinct(nodes)
    requires Consistent(s, nodes)
    ensures forall x :: x in nodes <==> x in NodeBag(s.queue) || x in s.selected
    ensures forall x :: !(x in NodeBag(s.queue) && x in s.selected)
    ensures forall x :: NodeBag(s.queue)[x] <= 1
  {
    DistinctMultiplicity(nodes);
    forall x ensures multiset(nodes)[x] == NodeBag(s.queue)[x] + multiset(s.selected)[x] {
    }
  }

  /** The queue never holds two entries for one node. */
  lemma QueueOneEntryPerNode(s: State, nodes: seq<int>, e: Entry, f: Entry)
    requires Distinct(nodes)
    requires Consistent(s, nodes)
    requires e in s.queue && f in s.queue && e.node == f.node
    ensures e == f
  {
    DistinctMultiplicity(nodes);
    forall x ensures NodeBag(s.queue)[x] <= 1 {
      assert multiset(nodes)[x] == NodeBag(s.queue)[x] + multiset(s.selected)[x];
    }
    OneEntryPerNode(s.queue, e, f);
  }

  /** Every node not yet selected has its entry in the queue. */
  lemma UnselectedQueued(s: State, nodes: seq<int>, m: int) returns (f: Entry)
    requires Consistent(s, nodes)
    requires m in nodes && m !in s.selected
    ensures f in s.queue && f.node == m
  {
    assert multiset(nodes)[m] == NodeBag(s.queue)[m] + multiset(s.selected)[m];
    f := NodeBagEntry(s.queue, m);
  }

  /** A pop removes the least entry and keeps every other. */
  lemma PopSubset(q: seq<Entry>)
    requires |q| > 0
    ensures forall f :: f in Pop(q) ==> f in q
    ensures forall f :: f in q && f != Top(q) ==> f in Pop(q)
  {
    forall f | f in Pop(q) ensures f in q {
      assert f in multiset(Pop(q));
    }
    forall f | f in q && f != Top(q) ensures f in Pop(q) {
      assert f in multiset(q);
      assert f !in multiset{Top(q)};
    }
  }

  /** Accepting the popped entry moves its node from the queue to the seeds. */
  lemma AcceptConsistent(s: State, nodes: seq<int>, e: Entry, rest: seq<Entry>, gain: real)
    requires Distinct(nodes)
    requires Consistent(s, nodes)
    requires e in s.queue && e.stamp == s.round
    requires NodeBag(rest) + multiset{e.node} == NodeBag(s.queue)
    requires forall f :: f in rest ==> f in s.queue
    ensures Consistent(State(rest, s.selected + [e.node], s.cache[e.node := gain], s.round + 1), nodes)
  {
    QueuedNotSelected(s, nodes, e);
    var sel := s.selected + [e.node];
    assert multiset(sel) == multiset(s.selected) + multiset{e.node};
    assert Distinct(sel) by {
      forall i, j | 0 <= i < j < |sel| ensures sel[i] != sel[j] {
        if j == |s.selected| {
          assert sel[i] in s.selected;
        }
      }
    }
    assert s.cache[e.node := gain].Keys == (set n | n in sel);
  }

  /** Pushing the popped node back with the current stamp keeps the bookkeeping. */
  lemma RefreshConsistent(s: State, nodes: seq<int>, e: Entry, rest: seq<Entry>, renewed: Entry)
    requires Consistent(s, nodes)
    requires renewed.node == e.node && renewed.stamp == s.round
    requires NodeBag(rest) + multiset{e.node} == NodeBag(s.queue)
    requires forall f :: f in rest ==> f in s.queue
    ensures Consistent(State(rest + [renewed], s.selected, s.cache, s.round), nodes)
  {
    NodeBagSnoc(rest, renewed);
  }

  /** One iteration keeps the bookkeeping. */
  lemma TickConsistent(s: State, nodes: seq<int>, spread: Spread)
    requires Distinct(nodes)
    requires Consistent(s, nodes)
    requires |s.queue| > 0
    ensures Consistent(Tick(s, spread), nodes)
  {
    var e := Top(s.queue);
    var rest := Pop(s.queue);
    PopCounts(s.queue, s.round);
    PopSubset(s.queue);
    if e.stamp == s.round {
      TickAccepts(s, spread);
      AcceptConsistent(s, nodes, e, rest, e.gain);
    } else {
      TickRefreshes(s, spread);
      RefreshConsistent(s, nodes, e, rest, Renewed(s, spread));
    }
  }

  /** One iteration makes progress: either a seed is added, or the number of
      stale entries drops by one. */
  lemma TickProgress(s: State, spread: Spread)
    requires |s.queue| > 0
    requires forall n :: n in s.selected ==> n in s.cache
    ensures var t := Tick(s, spread);
      || |t.selected| == |s.selected| + 1
      || (t.selected == s.selected && t.round == s.round
          && StaleCount(t.queue, t.round) < StaleCount(s.queue, s.round))
  {
    var e := Top(s.queue);
    PopCounts(s.queue, s.round);
    if e.stamp != s.round {
      var rest := Pop(s.queue);
      var renewed := Entry(spread(s.selected + [e.node]) - CacheSum(s.cache, s.selected), e.node, s.round);
      StaleCountConcat(rest, [renewed], s.round);
      assert StaleCount([renewed], s.round) == 0 by {
        assert [renewed][..0] == [];
      }
    }
  }

  /** The cache recovers the spread of the current seeds by summation. */
  lemma CacheIsSpread(s: State, spread: Spread)
    requires GainsExact(s, spread)
    ensures forall n :: n in s.selected ==> n in s.cache
    ensures CacheSum(s.cache, s.selected) == Base(spread, s.selected)
  {
    CacheSumTelescopes(spread, s.cache, s.selected);
  }

  /** A stale pop pushes its node back with its true marginal gain over the
      current seeds, stamped with the current round. */
  lemma StaleRefreshIsMarginal(s: State, spread: Spread)
    requires GainsExact(s, spread)
    requires |s.queue| > 0
    requires Top(s.queue).stamp != s.round
    ensures forall n :: n in s.selected ==> n in s.cache
    ensures Entry(Marginal(spread, s.selected, Top(s.queue).node), Top(s.queue).node, s.round) in Tick(s, spread).queue
  {
    CacheIsSpread(s, spread);
    TickRefreshes(s, spread);
  }

  /** Accepting an entry whose gain is its node's marginal gain over all
      current seeds caches that gain and leaves every other entry exact. */
  lemma AcceptGainsExact(s: State, spread: Spread, e: Entry, rest: seq<Entry>)
    requires GainsExact(s, spread)
    requires e.node !in s.selected
    requires e.gain == Marginal(spread, s.selected, e.node)
    requires forall f :: f in rest ==> f in s.queue
    ensures GainsExact(State(rest, s.selected + [e.node], s.cache[e.node := e.gain], s.round + 1), spread)
  {
    var t := State(rest, s.selected + [e.node], s.cache[e.node := e.gain], s.round + 1);
    forall f | f in t.queue
      ensures f.stamp <= |t.selected| && f.gain == Marginal(spread, t.selected[..f.stamp], f.node)
    {
      assert t.selected[..f.stamp] == s.selected[..f.stamp];
    }
    forall i | 0 <= i < |t.selected|
      ensures t.selected[i] in t.cache && t.cache[t.selected[i]] == Marginal(spread, t.selected[..i], t.selected[i])
    {
      if i < |s.selected| {
        assert t.selected[..i] == s.selected[..i];
        assert t.selected[i] == s.selected[i] != e.node;
      } else {
        assert t.selected[..i] == s.selected;
      }
    }
  }

  /** Pushing back an entry with its marginal gain over all current seeds
      keeps every stored gain exact. */
  lemma RefreshGainsExact(s: State, spread: Spread, rest: seq<Entry>, renewed: Entry)
    requires GainsExact(s, spread)
    requires s.round == |s.selected|
    requires renewed.stamp == s.round
    requires renewed.gain == Marginal(spread, s.selected, renewed.node)
    requires forall f :: f in rest ==> f in s.queue
    ensures GainsExact(State(rest + [renewed], s.selected, s.cache, s.round), spread)
  {
    assert s.selected[..s.round] == s.selected;
  }

  /** One iteration keeps every stored gain exact. */
  lemma TickGainsExact(s: State, nodes: seq<int>, spread: Spread)
    requires Distinct(nodes)
    requires Consistent(s, nodes)
    requires GainsExact(s, spread)
    requires |s.queue| > 0
    ensures GainsExact(Tick(s, spread), spread)
  {
    var e := Top(s.queue);
    var rest := Pop(s.queue);
    CacheIsSpread(s, spread);
    PopSubset(s.queue);
    if e.stamp == s.round {
      TickAccepts(s, spread);
      QueuedNotSelected(s, nodes, e);
      assert s.selected[..e.stamp] == s.selected;
      AcceptGainsExact(s, spread, e, rest);
    } else {
      TickRefreshes(s, spread);
      RefreshGainsExact(s, spread, rest, Renewed(s, spread));
    }
  }

  /** `spread` has diminishing returns along seed lists: extending the seeds
      never increases a node's marginal gain. Expected Independent Cascade
      spread, a submodular set function, has this property. */
  ghost predicate DiminishingReturns(spread: Spread) {
    forall s: seq<int>, t: seq<int>, n: int :: s <= t ==> Marginal(spread, t, n) <= Marginal(spread, s, n)
  }

  /** Naive greedy's choice after the seeds `s`: an unselected node of largest
      marginal gain, the smallest such node on a tie. */
  ghost predicate GreedyPick(spread: Spread, nodes: seq<int>, s: seq<int>, n: int) {
    && n in nodes && n !in s
    && forall m :: m in nodes && m !in s && m != n ==>
         || Marginal(spread, s, m) < Marginal(spread, s, n)
         || (Marginal(spread, s, m) == Marginal(spread, s, n) && n < m)
  }

  /** Every seed is naive greedy's choice after the seeds before it. */
  ghost predicate GreedyRun(spread: Spread, nodes: seq<int>, selected: seq<int>) {
    forall i :: 0 <= i < |selected| ==> GreedyPick(spread, nodes, selected[..i], selected[i])
  }

  /** Naive greedy with smallest-node tie-break determines the seed list. */
  lemma {:induction false} GreedyRunUnique(spread: Spread, nodes: seq<int>, a: seq<int>, b: seq<int>)
    requires GreedyRun(spread, nodes, a) && GreedyRun(spread, nodes, b)
    requires |a| == |b|
    ensures a == b
    decreases |a|
  {
    if a != [] {
      var n := |a| - 1;
      assert GreedyRun(spread, nodes, a[..n]) by {
        forall i | 0 <= i < n ensures GreedyPick(spread, nodes, a[..n][..i], a[..n][i]) {
          assert a[..n][..i] == a[..i];
        }
      }
      assert GreedyRun(spread, nodes, b[..n]) by {
        forall i | 0 <= i < n ensures GreedyPick(spread, nodes, b[..n][..i], b[..n][i]) {
          assert b[..n][..i] == b[..i];
        }
      }
      GreedyRunUnique(spread, nodes, a[..n], b[..n]);
      assert GreedyPick(spread, nodes, a[..n], a[n]);
      assert GreedyPick(spread, nodes, b[..n], b[n]);
      assert a == a[..n] + [a[n]];
      assert b == b[..n] + [b[n]];
    }
  }

  /** CELF's lazy evaluation is exact under diminishing returns: the entry
      accepted is naive greedy's choice, because every other entry's stored gain
      bounds that node's current marginal gain from above. */
  lemma AcceptIsGreedy(s: State, nodes: seq<int>, spread: Spread)
    requires Distinct(nodes)
    requires Consistent(s, nodes)
    requires GainsExact(s, spread)
    requires DiminishingReturns(spread)
    requires |s.queue| > 0
    requires Top(s.queue).stamp == s.round
    ensures GreedyPick(spread, nodes, s.selected, Top(s.queue).node)
  {
    var e := Top(s.queue);
    QueuedNotSelected(s, nodes, e);
    assert s.selected[..e.stamp] == s.selected;
    forall m | m in nodes && m !in s.selected && m != e.node
      ensures || Marginal(spread, s.selected, m) < Marginal(spread, s.selected, e.node)
              || (Marginal(spread, s.selected, m) == Marginal(spread, s.selected, e.node) && e.node < m)
    {
      var f := UnselectedQueued(s, nodes, m);
      assert s.selected[..f.stamp] <= s.selected;
      assert Marginal(spread, s.selected, m) <= Marginal(spread, s.selected[..f.stamp], m);
    }
  }

  /** A greedy run extended by naive greedy's next choice is a greedy run. */
  lemma GreedyRunSnoc(spread: Spread, nodes: seq<int>, selected: seq<int>, n: int)
    requires GreedyRun(spread, nodes, selected)
    requires GreedyPick(spread, nodes, selected, n)
    ensures GreedyRun(spread, nodes, selected + [n])
  {
    var t := selected + [n];
    forall i | 0 <= i < |t| ensures GreedyPick(spread, nodes, t[..i], t[i]) {
      if i < |selected| {
        assert t[..i] == selected[..i];
      } else {
        assert t[..i] == selected;
      }
    }
  }

  /** One iteration keeps the seed list a naive greedy run. */
  lemma TickGreedy(s: State, nodes: seq<int>, spread: Spread)
    requires Distinct(nodes)
    requires Consistent(s, nodes)
    requires GainsExact(s, spread)
    requires DiminishingReturns(spread)
    requires GreedyRun(spread, nodes, s.selected)
    requires |s.queue| > 0
    ensures GreedyRun(spread, nodes, Tick(s, spread).selected)
  {
    if Top(s.queue).stamp == s.round {
      AcceptIsGreedy(s, nodes, spread);
      GreedyRunSnoc(spread, nodes, s.selected, Top(s.queue).node);
    }
  }

  /** Every seed list handed to `spread` so far is distinct from the others;
      the ones one longer than the seeds are the seeds plus a node that has a
      current entry in the queue. */
  ghost predicate EstimatesFresh(estimates: seq<seq<int>>, s: State) {
    && (forall i, j :: 0 <= i < j < |estimates| ==> estimates[i] != estimates[j])
    && (forall c :: c in estimates ==> 0 < |c| <= |s.selected| + 1)
    && (forall c :: c in estimates && |c| == |s.selected| + 1 ==>
          && c[..|s.selected|] == s.selected
          && exists e :: e in s.queue && e.node == c[|s.selected|] && e.stamp == s.round)
  }

  /** The seed lists the first loop of `celf` estimates: one singleton per node. */
  function Singletons(nodes: seq<int>): (r: seq<seq<int>>)
    ensures |r| == |nodes|
    ensures forall i :: 0 <= i < |nodes| ==> r[i] == [nodes[i]]
  {
    seq(|nodes|, i requires 0 <= i < |nodes| => [nodes[i]])
  }

  lemma InitialEstimatesFresh(nodes: seq<int>, spread: Spread)
    requires Distinct(nodes)
    ensures EstimatesFresh(Singletons(nodes), Initial(nodes, spread))
  {
    var s := Initial(nodes, spread);
    var est := Singletons(nodes);
    forall c | c in est && |c| == |s.selected| + 1
      ensures exists e :: e in s.queue && e.node == c[|s.selected|] && e.stamp == s.round
    {
      var i :| 0 <= i < |est| && est[i] == c;
      assert nodes[i] in multiset(nodes);
      var e := NodeBagEntry(s.queue, nodes[i]);
    }
    forall i, j | 0 <= i < j < |est| ensures est[i] != est[j] {
      assert est[i][0] != est[j][0];
    }
  }

  /** Accepting a seed leaves no seed list one longer than the new seeds among
      those asked for. */
  lemma AcceptEstimatesFresh(estimates: seq<seq<int>>, s: State, n: int, rest: seq<Entry>, cache: map<int, real>)
    requires EstimatesFresh(estimates, s)
    ensures EstimatesFresh(estimates, State(rest, s.selected + [n], cache, s.round + 1))
  {
  }

  /** The seed list a stale pop asks for is new: a list asked for earlier in the
      round ends in a node whose entry is already current, and the popped entry
      is its node's only entry. */
  lemma RefreshEstimatesFresh(estimates: seq<seq<int>>, s: State, nodes: seq<int>,
                              e: Entry, rest: seq<Entry>, renewed: Entry)
    requires Distinct(nodes)
    requires Consistent(s, nodes)
    requires EstimatesFresh(estimates, s)
    requires e in s.queue && e.stamp != s.round
    requires renewed.node == e.node && renewed.stamp == s.round
    requires forall f :: f in s.queue && f != e ==> f in rest
    ensures EstimatesFresh(estimates + [s.selected + [e.node]], State(rest + [renewed], s.selected, s.cache, s.round))
  {
    var t := State(rest + [renewed], s.selected, s.cache, s.round);
    var asked := s.selected + [e.node];
    assert asked[..|s.selected|] == s.selected;
    assert asked !in estimates by {
      if asked in estimates {
        var f :| f in s.queue && f.node == asked[|s.selected|] && f.stamp == s.round;
        QueueOneEntryPerNode(s, nodes, e, f);
      }
    }
    var estimates' := estimates + [asked];
    forall c | c in estimates' && |c| == |t.selected| + 1
      ensures exists g :: g in t.queue && g.node == c[|t.selected|] && g.stamp == t.round
    {
      if c == asked {
        assert renewed in t.queue;
      } else {
        var f :| f in s.queue && f.node == c[|s.selected|] && f.stamp == s.round;
        assert f in t.queue;
      }
    }
  }

  /** A stale pop asks for a seed list never asked before; an accepting pop asks
      for none. */
  lemma TickEstimatesFresh(estimates: seq<seq<int>>, s: State, nodes: seq<int>, spread: Spread)
    requires Distinct(nodes)
    requires Consistent(s, nodes)
    requires EstimatesFresh(estimates, s)
    requires |s.queue| > 0
    ensures var e := Top(s.queue);
      EstimatesFresh(if e.stamp == s.round then estimates else estimates + [s.selected + [e.node]],
                     Tick(s, spread))
  {
    var e := Top(s.queue);
    if e.stamp == s.round {
      TickAccepts(s, spread);
      AcceptEstimatesFresh(estimates, s, e.node, Pop(s.queue), s.cache[e.node := e.gain]);
    } else {
      TickRefreshes(s, spread);
      PopSubset(s.queue);
      RefreshEstimatesFresh(estimates, s, nodes, e, Pop(s.queue), Renewed(s, spread));
    }
  }

  /** Everything the `celf` loop keeps true between iterations. */
  ghost predicate LoopInvariant(s: State, nodes: seq<int>, spread: Spread, estimates: seq<seq<int>>) {
    && Consistent(s, nodes)
    && GainsExact(s, spread)
    && (DiminishingReturns(spread) ==> GreedyRun(spread, nodes, s.selected))
    && EstimatesFresh(estimates, s)
  }

  /** The seed list the iteration from `s` hands to `spread`, if any. */
  function Asked(s: State, estimates: seq<seq<int>>): seq<seq<int>>
    requires |s.queue| > 0
  {
    var e := Top(s.queue);
    if e.stamp == s.round then estimates else estimates + [s.selected + [e.node]]
  }

  /** `trace` is a run of the `while` loop: every state but the last passes the
      guard `len(selected) < k`, has a non-empty heap, and is followed by the
      state one iteration yields. Stated from the end of the run backwards;
      `RunStep` gives it position by position. */
  ghost predicate IsRun(trace: seq<State>, k: int, spread: Spread)
    decreases |trace|
  {
    || |trace| <= 1
    || (var s := trace[|trace| - 2];
        && IsRun(trace[..|trace| - 1], k, spread)
        && |s.queue| > 0 && |s.selected| < k
        && (forall n :: n in s.selected ==> n in s.cache)
        && trace[|trace| - 1] == Tick(s, spread))
  }

  /** Every state of a run but the last is followed by its iteration. */
  lemma {:induction false} RunStep(trace: seq<State>, k: int, spread: Spread, i: nat)
    requires IsRun(trace, k, spread)
    requires i + 1 < |trace|
    ensures |trace[i].queue| > 0 && |trace[i].selected| < k
    ensures forall n :: n in trace[i].selected ==> n in trace[i].cache
    ensures trace[i + 1] == Tick(trace[i], spread)
    decreases |trace|
  {
    if i + 2 < |trace| {
      var init := trace[..|trace| - 1];
      RunStep(init, k, spread, i);
      assert init[i] == trace[i] && init[i + 1] == trace[i + 1];
    }
  }

  /** The seed lists the iterations of a run hand to `spread`, in order: one
      per stale pop, none per accepting pop. The last state of the run has not
      popped yet. */
  ghost function StaleAsks(trace: seq<State>, k: int, spread: Spread): seq<seq<int>>
    requires IsRun(trace, k, spread)
    decreases |trace|
  {
    if |trace| <= 1 then [] else Asked(trace[|trace| - 2], StaleAsks(trace[..|trace| - 1], k, spread))
  }

  /** `trace` is the run of the `while` loop so far: it starts at the state the
      first loop leaves and ends at `s`, and the record `estimates` is the first
      loop's singletons followed by the lists the run's stale pops ask for. */
  ghost predicate RunRecord(s: State, estimates: seq<seq<int>>, trace: seq<State>,
                            nodes: seq<int>, k: int, spread: Spread) {
    && |trace| > 0 && trace[0] == Initial(nodes, spread) && trace[|trace| - 1] == s
    && IsRun(trace, k, spread)
    && estimates == Singletons(nodes) + StaleAsks(trace, k, spread)
  }

  /** One more iteration extends the run by its state and the record by the
      list that iteration asks for. */
  lemma RunSnoc(s: State, estimates: seq<seq<int>>, trace: seq<State>,
                nodes: seq<int>, k: int, spread: Spread)
    requires RunRecord(s, estimates, trace, nodes, k, spread)
    requires |s.queue| > 0 && |s.selected| < k
    requires forall n :: n in s.selected ==> n in s.cache
    ensures RunRecord(Tick(s, spread), Asked(s, estimates), trace + [Tick(s, spread)], nodes, k, spread)
  {
    RunExtend(trace, s, k, spread);
    AskedAppend(s, Singletons(nodes), StaleAsks(trace, k, spread));
    var t := trace + [Tick(s, spread)];
    assert t[0] == trace[0] && t[|t| - 1] == Tick(s, spread);
  }

  /** A run extended by the iteration from its last state is a run, and that
      iteration's list, if any, goes at the end of the run's asked lists. */
  lemma RunExtend(trace: seq<State>, s: State, k: int, spread: Spread)
    requires |trace| > 0 && trace[|trace| - 1] == s && IsRun(trace, k, spread)
    requires |s.queue| > 0 && |s.selected| < k
    requires forall n :: n in s.selected ==> n in s.cache
    ensures IsRun(trace + [Tick(s, spread)], k, spread)
    ensures StaleAsks(trace + [Tick(s, spread)], k, spread) == Asked(s, StaleAsks(trace, k, spread))
  {
    var t := trace + [Tick(s, spread)];
    assert t[..|t| - 1] == trace;
    assert t[|t| - 2] == s;
  }

  lemma AskedAppend(s: State, head: seq<seq<int>>, tail: seq<seq<int>>)
    requires |s.queue| > 0
    ensures head + Asked(s, tail) == Asked(s, head + tail)
  {
    if Top(s.queue).stamp != s.round {
      assert head + (tail + [s.selected + [Top(s.queue).node]]) == (head + tail) + [s.selected + [Top(s.queue).node]];
    }
  }

  /** What the record of seed lists asked for looks like: first the singletons
      of the first loop, in node order; after them only lists made of a prefix
      of the seeds and one more node that is not in that prefix. */
  ghost predicate AskedShape(estimates: seq<seq<int>>, nodes: seq<int>, selected: seq<int>) {
    && |nodes| <= |estimates|
    && estimates[..|nodes|] == Singletons(nodes)
    && forall c :: c in estimates[|nodes|..] ==>
         && 2 <= |c| && c[..|c| - 1] <= selected
         && c[|c| - 1] in nodes && c[|c| - 1] !in c[..|c| - 1]
  }

  /** A stale pop asks for the current seeds plus the popped node, and there
      is at least one seed by then, since every stamp starts at round 0 and the
      first pop is fresh. */
  lemma TickAskedShape(s: State, nodes: seq<int>, spread: Spread, estimates: seq<seq<int>>)
    requires Distinct(nodes)
    requires Consistent(s, nodes)
    requires |s.queue| > 0
    requires AskedShape(estimates, nodes, s.selected)
    ensures forall n :: n in s.selected ==> n in s.cache
    ensures AskedShape(Asked(s, estimates), nodes, Tick(s, spread).selected)
  {
    assert forall n :: n in s.selected ==> n in s.cache.Keys;
    var e := Top(s.queue);
    var t := Tick(s, spread);
    if e.stamp != s.round {
      QueuedNotSelected(s, nodes, e);
      var c := s.selected + [e.node];
      assert c[..|c| - 1] == s.selected;
      var a := estimates + [c];
      assert a[..|nodes|] == estimates[..|nodes|];
      assert a[|nodes|..] == estimates[|nodes|..] + [c];
    } else {
      assert s.selected <= t.selected;
    }
  }

  /** One iteration keeps the loop invariant and decreases the measure
      `(k - len(selected), stale entries)` lexicographically. */
  lemma TickInvariant(s: State, nodes: seq<int>, spread: Spread, estimates: seq<seq<int>>)
    requires Distinct(nodes)
    requires LoopInvariant(s, nodes, spread, estimates)
    requires |s.queue| > 0
    ensures CacheSum.requires(s.cache, s.selected)
    ensures LoopInvariant(Tick(s, spread), nodes, spread, Asked(s, estimates))
    ensures var t := Tick(s, spread);
      || |t.selected| == |s.selected| + 1
      || (t.selected == s.selected && StaleCount(t.queue, t.round) < StaleCount(s.queue, s.round))
  {
    CacheIsSpread(s, spread);
    TickConsistent(s, nodes, spread);
    TickGainsExact(s, nodes, spread);
    TickProgress(s, spread);
    TickEstimatesFresh(estimates, s, nodes, spread);
    if DiminishingReturns(spread) {
      TickGreedy(s, nodes, spread);
    }
  }

  /** The queue and the seeds together account for every node once. */
  lemma ConsistentCounts(s: State, nodes: seq<int>)
    requires Consistent(s, nodes)
    ensures |s.selected| + |s.queue| == |nodes|
    ensures forall n :: n in s.selected ==> n in nodes
    ensures s.queue == [] ==> forall n :: n in nodes ==> n in s.selected
  {
    assert |multiset(s.selected)| + |NodeBag(s.queue)| == |multiset(nodes)|;
    forall n | n in s.selected ensures n in nodes {
      assert multiset(nodes)[n] == NodeBag(s.queue)[n] + multiset(s.selected)[n];
    }
    if s.queue == [] {
      forall n | n in nodes ensures n in s.selected {
        assert n in multiset(nodes);
      }
    }
  }

  /** What the `while` loop keeps between iterations: the loop invariant, the
      shape of the record of asked lists, and `trace`, the run so far, which
      starts at the state the first loop leaves, ends at the current state and
      accounts for the record. */
  ghost predicate LoopState(s: State, estimates: seq<seq<int>>, trace: seq<State>,
                            nodes: seq<int>, k: int, spread: Spread) {
    && LoopInvariant(s, nodes, spread, estimates)
    && AskedShape(estimates, nodes, s.selected)
    && |s.selected| <= (if k < 0 then 0 else k)
    && RunRecord(s, estimates, trace, nodes, k, spread)
  }

  lemma LoopStateInit(nodes: seq<int>, k: int, spread: Spread)
    requires Distinct(nodes)
    ensures LoopState(Initial(nodes, spread), Singletons(nodes), [Initial(nodes, spread)], nodes, k, spread)
  {
    var estimates := Singletons(nodes);
    InitialConsistent(nodes, spread);
    InitialEstimatesFresh(nodes, spread);
    assert estimates[..|nodes|] == estimates && estimates[|nodes|..] == [];
    assert estimates + [] == estimates;
  }

  /** `LoopState` spelled out. */
  lemma LoopStateFacts(s: State, estimates: seq<seq<int>>, trace: seq<State>,
                       nodes: seq<int>, k: int, spread: Spread)
    requires LoopState(s, estimates, trace, nodes, k, spread)
    ensures LoopInvariant(s, nodes, spread, estimates)
    ensures AskedShape(estimates, nodes, s.selected)
    ensures |s.selected| <= (if k < 0 then 0 else k)
    ensures |trace| > 0 && trace[0] == Initial(nodes, spread) && trace[|trace| - 1] == s
    ensures IsRun(trace, k, spread)
    ensures estimates == Singletons(nodes) + StaleAsks(trace, k, spread)
  {
    assert RunRecord(s, estimates, trace, nodes, k, spread);
  }

  /** One iteration from a state the loop can reach keeps `LoopState` and
      decreases `(k - len(selected), stale entries)`. */
  lemma LoopStateStep(s: State, estimates: seq<seq<int>>, trace: seq<State>,
                      nodes: seq<int>, k: int, spread: Spread)
    requires Distinct(nodes)
    requires LoopState(s, estimates, trace, nodes, k, spread)
    requires |s.selected| < k && |s.queue| > 0
    ensures forall n :: n in s.selected ==> n in s.cache
    ensures LoopState(Tick(s, spread), Asked(s, estimates), trace + [Tick(s, spread)], nodes, k, spread)
    ensures var t := Tick(s, spread);
      || |t.selected| == |s.selected| + 1
      || (t.selected == s.selected && StaleCount(t.queue, t.round) < StaleCount(s.queue, s.round))
  {
    TickInvariant(s, nodes, spread, estimates);
    TickAskedShape(s, nodes, spread, estimates);
    RunSnoc(s, estimates, trace, nodes, k, spread);
  }

  /** The `while len(selected) < k` loop of `celf`, from the state the first
      loop leaves. `trace` lists the states the loop passes through; `full` is
      false when the heap is empty before `k` seeds are chosen, where `heappop`
      would fail. The record `estimates` is the first loop's singletons followed
      by the lists the run's stale pops ask for. */
  method SelectLoop(nodes: seq<int>, k: int, spread: Spread)
    returns (s: State, ghost estimates: seq<seq<int>>, ghost trace: seq<State>, full: bool)
    requires Distinct(nodes)
    ensures LoopInvariant(s, nodes, spread, estimates)
    ensures AskedShape(estimates, nodes, s.selected)
    ensures full ==> |s.selected| == (if k < 0 then 0 else k)
    ensures !full ==> s.queue == [] && |s.selected| < k
    ensures |trace| > 0 && trace[0] == Initial(nodes, spread)
    ensures IsRun(trace, k, spread)
    ensures estimates == Singletons(nodes) + StaleAsks(trace, k, spread)
    ensures LoopState(s, estimates, trace, nodes, k, spread)
  {
    s := Initial(nodes, spread);
    estimates := Singletons(nodes);
    trace := [s];
    LoopStateInit(nodes, k, spread);
    while |s.selected| < k
      invariant LoopState(s, estimates, trace, nodes, k, spread)
      decreases k - |s.selected|, StaleCount(s.queue, s.round)
    {
      if s.queue == [] {
        return s, estimates, trace, false;
      }
      LoopStateStep(s, estimates, trace, nodes, k, spread);
      estimates := Asked(s, estimates);
      s := Tick(s, spread);
      trace := trace + [s];
    }
    LoopStateFacts(s, estimates, trace, nodes, k, spread);
    full := true;
  }

  /** `celf(G, k)`: select `k` seeds lazily. With `k` larger than the number of
      nodes the heap runs dry and `heappop` fails. `nodes` is `G.nodes()`, which
      never repeats a node. The ghost `trace` is the run of the `while` loop and
      the ghost `estimates` every seed list given to `spread`, in order: the
      singletons of the first loop, then one list per stale pop of the run. No
      list is given twice, so a fixed function stands for the fresh Monte Carlo
      estimate of each call. */
  method Celf(nodes: seq<int>, k: int, spread: Spread)
    returns (r: Outcome, ghost estimates: seq<seq<int>>, ghost trace: seq<State>)
    requires Distinct(nodes)
    ensures r.Seeds? <==> k <= |nodes|
    ensures r.Seeds? ==> |r.selected| == (if k < 0 then 0 else k)
    ensures r.Seeds? ==> Distinct(r.selected) && forall n :: n in r.selected ==> n in nodes
    ensures r.Seeds? && k == |nodes| ==> forall n :: n in nodes ==> n in r.selected
    ensures r.Seeds? && DiminishingReturns(spread) ==> GreedyRun(spread, nodes, r.selected)
    ensures |trace| > 0 && trace[0] == Initial(nodes, spread) && IsRun(trace, k, spread)
    ensures r.Seeds? ==> r.selected == trace[|trace| - 1].selected
    ensures !r.Seeds? ==> trace[|trace| - 1].queue == [] && |trace[|trace| - 1].selected| < k
    ensures estimates == Singletons(nodes) + StaleAsks(trace, k, spread)
    ensures forall i, j :: 0 <= i < j < |estimates| ==> estimates[i] != estimates[j]
    ensures r.Seeds? ==> forall c :: c in estimates[|nodes|..] ==>
      && 2 <= |c| && c[..|c| - 1] <= r.selected
      && c[|c| - 1] in nodes && c[|c| - 1] !in c[..|c| - 1]
  {
    var s, full;
    s, estimates, trace, full := SelectLoop(nodes, k, spread);
    LoopStateFacts(s, estimates, trace, nodes, k, spread);
    ConsistentCounts(s, nodes);
    if full {
      r := Seeds(s.selected);
    } else {
      r := EmptyHeapPop;
    }
  }
}
