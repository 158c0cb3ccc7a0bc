# CELF influence maximisation under the Independent Cascade model

This project is a Dafny model of the algorithmic core of
`facebook_network/facebook_CELF.py`. It has three parts.

- **Loading the graph.** Each integer pair `(u, v)` of the edge list adds the
  directed edges `u -> v` and `v -> u`, both with the activation weight `p`.
  The graph is a successor map (`Graphs`).
- **One Independent Cascade trial, `run_ic_once`.** The activated set and the
  frontier start as the seeds. In each round every frontier node tries each
  successor that is not yet active. An attempt succeeds when the random draw is
  at most the edge weight. The nodes activated in a round form the next
  frontier. The random number is an oracle `draw(u, v, round)`
  (`IndependentCascade`). `run_ic` is the mean size of the activated set over a
  list of trials, each trial with its own oracle (`MeanSpread`).
- **CELF lazy greedy selection, `celf`.** The heap is a bag of
  `(gain, node, stamp)` entries. It pops in Python's tuple order on
  `(-gain, node, stamp)` (`HeapQueue`). The loop is a state machine (`LazyGreedy`):
  - `Tick` is one iteration;
  - `Celf` runs `Tick` until `k` seeds are chosen, or until the heap is empty
    and `heappop` fails;
  - the spread estimate `run_ic` is an oracle `spread` from a seed list to a
    real number.

Proved about the model:
- the loaded edge relation is exactly the pairs in both orientations;
- the cascade keeps its seeds and activates only nodes reachable from them;
- with weight 1.0 the cascade activates exactly the nodes reachable from the
  seeds;
- the cascade loop ends within |V| rounds;
- the CELF loop keeps its bookkeeping (each item below is a separate proved
  property):
  - the queue and the seeds partition the nodes;
  - the seeds have no repeats;
  - `round_num == len(selected)`;
  - the cache keys are the seeds;
  - no stamp is ahead of the round;
  - every stored gain is an exact marginal gain;
- the CELF loop terminates;
- CELF returns seeds exactly when `k <= |V|`, and then `max(k, 0)` of them;
- `celf` comes with the run of its loop, each state one iteration after the
  one before. The seed lists it hands to the estimator are the singletons of
  the first loop, then exactly one list per stale pop of that run. No list
  comes twice, and each later one is a prefix of the final seeds plus one
  node;
- when the spread has diminishing returns, CELF's choices are exactly naive
  greedy's, with ties going to the smallest node id.

`LineScenario` works through the path 1 - 2 - 3 - 4 with weight 1.0. Every
non-empty seed list has mean spread 4.0, and `celf` with `k = 1` selects node 1.

Files:
- `graph.dfy`: `Graphs`, the graph and its loading;
- `cascade.dfy`: `IndependentCascade`, `run_ic_once` and `run_ic`;
- `reach.dfy`: `Reachability`, the reachability properties;
- `heap.dfy`: `HeapQueue`, the entry order, pop, and node and stale counts;
- `celf.dfy`: `LazyGreedy`, the CELF loop;
- `scenario.dfy`: `LineScenario`.

## Model

| member | source | states |
|---|---|---|
| Graphs.AddEdge | facebook_network/facebook_CELF.py:21-22 | `G.add_edge(u, v)` makes both endpoints nodes and adds exactly the edge `u -> v`. No other node or edge changes, the weight stays uniform, and every successor stays a node. |
| Graphs.BuildGraph | facebook_network/facebook_CELF.py:17-22 | After loading, the nodes are exactly the endpoints named in the pairs. `a -> b` is an edge exactly when `(a, b)` or `(b, a)` is one of the pairs, so the relation is symmetric and has no other edges. Every edge has weight `p`. |
| Graphs.BuildGraphSymmetric | facebook_network/facebook_CELF.py:21-22 | Every loaded edge has its reverse. |
| IndependentCascade.Fires | facebook_network/facebook_CELF.py:33 | The attempt of `u` on `v` is the test `random.random() <= weight`. With weight at least 1.0, every draw below 1.0 succeeds. With a negative weight, no draw in [0, 1) succeeds. |
| IndependentCascade.Attempts | facebook_network/facebook_CELF.py:32-35 | What the loop over `G.successors(u)` activates. Only successors it tries can be activated, never a node that is already active, and a node with no successors activates nothing. |
| IndependentCascade.AttemptsSnoc | facebook_network/facebook_CELF.py:32-35 | Trying one more successor `v` adds `v` exactly when it is inactive and its draw is at most the weight. |
| IndependentCascade.Step | facebook_network/facebook_CELF.py:30-35 | The nodes one round activates are graph nodes that were not active before the round. |
| IndependentCascade.Cascade | facebook_network/facebook_CELF.py:26-37 | The reference definition of a cascade, with the round's new frontier activated on top of the old set. Its result contains the starting activated set and lies within the graph. |
| IndependentCascade.Rounds | facebook_network/facebook_CELF.py:29-36 | The cascade runs at most one round more than the number of nodes still inactive. |
| IndependentCascade.CascadeUnfold | facebook_network/facebook_CELF.py:29-36 | A round with a non-empty frontier moves the cascade to its next round with the same final result. Each such round either activates a node that was inactive, so the inactive part strictly shrinks, or leaves an empty frontier. |
| IndependentCascade.StepAddTried | facebook_network/facebook_CELF.py:31-35 | Trying one more frontier node adds exactly the successors that node activates. |
| IndependentCascade.Dedup | facebook_network/facebook_CELF.py:27-28 | `set(seeds)` as a list without repeats that holds exactly the seeds. |
| IndependentCascade.TrySuccessors | facebook_network/facebook_CELF.py:32-35 | The inner loop over `G.successors(u)` adds to `activated` and to the new frontier exactly the inactive successors whose draw is at most the weight. |
| IndependentCascade.CascadeRound | facebook_network/facebook_CELF.py:30-36 | One pass over the frontier, in any order of its nodes, yields exactly the round's step as the new frontier, and `activated` grows by exactly that set. |
| IndependentCascade.AdvanceRound | facebook_network/facebook_CELF.py:29-36 | The frontier stays inside `activated`. An iteration moves to the next round of the same cascade. It either shrinks the inactive part or empties the frontier, so the loop terminates. |
| IndependentCascade.RunRounds | facebook_network/facebook_CELF.py:29-37 | The `while frontier` loop computes the rest of the cascade and counts its rounds. |
| IndependentCascade.RunIcOnce | facebook_network/facebook_CELF.py:26-37 | `run_ic_once` equals the reference cascade. Its result holds every seed and lies within the graph, and the loop runs at most as many rounds as there are nodes. |
| IndependentCascade.CascadeFromSeeds | facebook_network/facebook_CELF.py:27-37 | A cascade started from the seeds keeps them, stays in the graph, and runs at most as many rounds as there are nodes. |
| IndependentCascade.TotalActivated | facebook_network/facebook_CELF.py:40 | Over `steps` trials, the summed sizes of the activated sets lie between `steps` times the number of seeds and `steps` times the number of nodes. |
| IndependentCascade.MeanSpread | facebook_network/facebook_CELF.py:39-40 | `run_ic` lies between the number of distinct seeds and the number of nodes. |
| Reachability.CascadeWithinReach | facebook_network/facebook_CELF.py:29-36 | Whatever the draws, every node a cascade activates is reachable from the sources, provided the nodes it starts with are. |
| Reachability.CascadeSound | facebook_network/facebook_CELF.py:27-37 | `run_ic_once` keeps every seed, and every node it returns is reachable from a seed along graph edges. |
| Reachability.CertainCascadeClosed | facebook_network/facebook_CELF.py:29-35 | When every attempt succeeds, no edge leads out of the final activated set. |
| Reachability.CertainCascadeIsReachability | facebook_network/facebook_CELF.py:29-35 | With weight 1.0 and draws in [0, 1), a node is activated if and only if it is reachable from the seeds. |
| HeapQueue.KeyLe | facebook_network/facebook_CELF.py:47 | Python's `<=` on `(-gain, node, stamp)` tuples, which `heappop` at line 54 uses. The larger gain comes first. Among equal gains, the smaller node comes first. |
| HeapQueue.KeyLeTotalOrder | facebook_network/facebook_CELF.py:47 | The tuple order on `(-gain, node, stamp)` is a total order. |
| HeapQueue.MinIndex | facebook_network/facebook_CELF.py:54 | The position of an entry that is least in tuple order. |
| HeapQueue.Top | facebook_network/facebook_CELF.py:54 | `heappop` returns an entry of the queue with the largest gain. Among equal gains it returns the smallest node, and among those the smallest stamp. |
| HeapQueue.TopUnique | facebook_network/facebook_CELF.py:54 | The popped entry is the only least entry. |
| HeapQueue.Pop | facebook_network/facebook_CELF.py:54 | The heap after a pop is the old heap minus the popped entry, as a bag. |
| HeapQueue.PopCounts | facebook_network/facebook_CELF.py:54 | A pop removes its node from the node bag. If the popped entry was stale, it also removes one stale entry. |
| HeapQueue.OneEntryPerNode | facebook_network/facebook_CELF.py:54-63 | When no node is in the bag twice, an entry is determined by its node. |
| LazyGreedy.CacheSum | facebook_network/facebook_CELF.py:62 | `sum(spread_cache.values())`. A dict iterates in insertion order, which is the order of `selected`. How the sum grows and what it totals are stated by `CacheSumAccept` and `CacheSumTelescopes`. |
| LazyGreedy.CacheSumAccept | facebook_network/facebook_CELF.py:56-57 | Caching the gain of a node that is not yet a seed raises `sum(spread_cache.values())` by exactly that gain. The sum over the earlier seeds is untouched (`CacheSumFrame`). |
| LazyGreedy.CacheSumFrame | facebook_network/facebook_CELF.py:57 | Writing `spread_cache[node]` for a node that is not yet a seed leaves the sum over the seeds unchanged. |
| LazyGreedy.CacheSumTelescopes | facebook_network/facebook_CELF.py:57-62 | When each cached gain is its node's marginal gain over the seeds chosen before it, `sum(spread_cache.values())` is the spread of the seed list. |
| LazyGreedy.Initial | facebook_network/facebook_CELF.py:44-51 | The state before the `while` loop. Its heap holds exactly one entry per node. Every entry is stamped with the current round 0, and its gain is the node's marginal gain over no seeds. There are no seeds and the cache is empty. |
| LazyGreedy.InitialQueue | facebook_network/facebook_CELF.py:44-47 | The first loop pushes one entry per node, keyed by that node's singleton spread, with stamp 0. |
| LazyGreedy.Tick | facebook_network/facebook_CELF.py:53-63 | One iteration appends the popped node to `selected` exactly when its stamp equals `round_num`. In that case `round_num` goes up by one, `spread_cache` gains the popped node with the popped gain, and the heap loses the popped entry and nothing else. Otherwise `selected`, `round_num` and the cache are unchanged, and the heap is the old heap with the popped entry replaced by the re-scored entry. |
| LazyGreedy.Renewed | facebook_network/facebook_CELF.py:61-63 | The entry a stale pop pushes back holds the popped node and the current `round_num` as its stamp. When the stored gains are exact, its gain is the node's true marginal gain over the current seeds (`StaleRefreshIsMarginal`). |
| LazyGreedy.StaleRefreshIsMarginal | facebook_network/facebook_CELF.py:60-63 | The pushed-back gain is the node's true marginal gain over the current seeds. |
| LazyGreedy.InitialConsistent | facebook_network/facebook_CELF.py:44-51 | The starting state satisfies the loop bookkeeping, and its gains are exact. |
| LazyGreedy.ConsistentPartition | facebook_network/facebook_CELF.py:45-63 | Every node is in exactly one of the queue and `selected`, and in the queue at most once. |
| LazyGreedy.QueueOneEntryPerNode | facebook_network/facebook_CELF.py:45-63 | The queue never holds two entries for one node. |
| LazyGreedy.AcceptConsistent | facebook_network/facebook_CELF.py:55-58 | Accepting keeps every part of the bookkeeping: the partition, no repeats, `round_num == len(selected)`, cache keys equal to `selected`, and stamps not ahead of the round. |
| LazyGreedy.RefreshConsistent | facebook_network/facebook_CELF.py:60-63 | Re-inserting with stamp `round_num` keeps the bookkeeping. |
| LazyGreedy.TickConsistent | facebook_network/facebook_CELF.py:53-63 | Every iteration keeps the bookkeeping. |
| LazyGreedy.TickProgress | facebook_network/facebook_CELF.py:53-63 | Every iteration either adds a seed or, leaving the seeds alone, lowers the number of stale entries. This is the lexicographic termination measure. |
| LazyGreedy.CacheIsSpread | facebook_network/facebook_CELF.py:50-62 | With exact cached gains, the cache sums to the spread of `selected`. |
| LazyGreedy.AcceptGainsExact | facebook_network/facebook_CELF.py:55-58 | Caching a fresh entry's gain keeps every stored gain exact. |
| LazyGreedy.RefreshGainsExact | facebook_network/facebook_CELF.py:60-63 | Pushing back a re-scored entry keeps every stored gain exact. |
| LazyGreedy.TickGainsExact | facebook_network/facebook_CELF.py:53-63 | Every iteration keeps every stored gain equal to its node's marginal gain over the seeds chosen before its stamp. |
| LazyGreedy.GreedyRunUnique | facebook_network/facebook_CELF.py:53-58 | Naive greedy, with ties broken by the smallest node, determines the seed list of each length. |
| LazyGreedy.AcceptIsGreedy | facebook_network/facebook_CELF.py:54-58 | Under diminishing returns, the accepted node has the largest marginal gain among the unselected nodes, and the smallest id among those tied. |
| LazyGreedy.TickGreedy | facebook_network/facebook_CELF.py:53-58 | Under diminishing returns, every iteration keeps `selected` a naive greedy run. |
| LazyGreedy.InitialEstimatesFresh | facebook_network/facebook_CELF.py:45-47 | The first loop asks for distinct seed lists, one singleton per node. |
| LazyGreedy.RefreshEstimatesFresh | facebook_network/facebook_CELF.py:60-63 | A stale pop asks for a seed list that was not asked for before. |
| LazyGreedy.TickEstimatesFresh | facebook_network/facebook_CELF.py:53-63 | Over the whole run no seed list is estimated twice. |
| LazyGreedy.TickAskedShape | facebook_network/facebook_CELF.py:53-63 | After an iteration, the record of asked seed lists still starts with the singletons. After them it holds only lists made of a prefix of the seeds plus one node of the graph that is not in that prefix. A stale pop never comes before the first seed. |
| LazyGreedy.GreedyRunSnoc | facebook_network/facebook_CELF.py:56 | Appending naive greedy's next choice to a naive greedy run gives a naive greedy run. |
| LazyGreedy.TickInvariant | facebook_network/facebook_CELF.py:53-63 | One iteration keeps the whole loop invariant and decreases `(k - len(selected), stale entries)`. |
| LazyGreedy.ConsistentCounts | facebook_network/facebook_CELF.py:53-65 | `len(selected)` plus the queue length is the number of nodes. Selected nodes are graph nodes, and an empty queue means every node is selected. |
| LazyGreedy.RunStep | facebook_network/facebook_CELF.py:53-63 | In a run of the `while` loop, every state but the last passes the guard `len(selected) < k` and has a non-empty heap. The next state is the one iteration yields from it. |
| LazyGreedy.RunExtend | facebook_network/facebook_CELF.py:53-63 | Following the last state of a run with one iteration gives a run. The seed lists the longer run asks for are those of the shorter run plus the one that iteration asks for, if any. |
| LazyGreedy.RunSnoc | facebook_network/facebook_CELF.py:53-63 | One iteration keeps the record equal to the singletons of the first loop followed by the lists the run's stale pops ask for, with the run starting at the state the first loop leaves. |
| LazyGreedy.LoopStateStep | facebook_network/facebook_CELF.py:53-63 | One iteration keeps the bookkeeping, the shape of the record and the run that accounts for it, and decreases `(k - len(selected), stale entries)`. |
| LazyGreedy.SelectLoop | facebook_network/facebook_CELF.py:44-63 | The `while` loop comes with its run, which starts at the state the first loop leaves. The record of asked seed lists is the singletons followed by one list per stale pop of that run. The loop keeps the bookkeeping, and it ends with `max(k, 0)` seeds, or with an empty heap and fewer than `k` seeds, where `heappop` fails. |
| LazyGreedy.Celf | facebook_network/facebook_CELF.py:43-65 | `celf` returns seeds exactly when `k` is at most the number of nodes, and otherwise fails on the empty heap. The seed list has `max(k, 0)` distinct graph nodes, and holds every node when `k` equals the number of nodes. Under diminishing returns it is naive greedy's seed list. `celf` also returns the run of its loop, which starts at the state the first loop leaves. Each state in the run is one iteration after the one before, and the run ends at the returned seeds or at the empty heap. The record of estimated seed lists is the singletons, one per node in node order, followed by exactly one list per stale pop of the run. No list in it appears twice. On success, every later list is a prefix of the returned seeds plus one graph node that is not in that prefix. |
| LineScenario.LinePairsLoadLine | facebook_network/facebook_CELF.py:17-22 | Loading `(1, 2), (2, 3), (3, 4)` with weight 1.0 gives the path 1 - 2 - 3 - 4 in both directions. |
| LineScenario.LineCascadeTotal | facebook_network/facebook_CELF.py:26-37 | On the path, any non-empty seed set activates all four nodes in every trial. |
| LineScenario.LineMeanSpread | facebook_network/facebook_CELF.py:39-40 | On the path with weight 1.0, `run_ic` of any non-empty seed list is 4.0. |
| LineScenario.CelfOnLine | facebook_network/facebook_CELF.py:43-65 | With every singleton spread equal, `celf` with `k = 1` on the path selects node 1, whatever order the four nodes are listed in. |

Three behaviours of the code that the model keeps:
- **Tie-break.** The heap compares `(-gain, node, stamp)` tuples, so equal
  gains go to the smallest node id. On the path, `celf` with `k = 1` selects
  node 1 (`CelfOnLine`).
- **No check on `p`.** The code never checks `p`, and the model accepts any
  real weight.
- **No check on `k`.** `k <= 0` returns no seeds. `k > |V|` fails at
  `heappop` on an empty heap, which is the model's `EmptyHeapPop` outcome.

## Left out

- Reading `facebook_combined.txt` and parsing its lines (lines 10, 18-20) is file I/O. The model starts from the list of integer pairs.
- All `print` output (lines 16, 23, 59, 68, 73-76) and the recorded result block (lines 80-131) are text, not behaviour.
- The final evaluation (lines 69-71) is not modelled: it calls `celf` and `run_ic` once more and computes a percentage in floating point.
- `random.random()` (line 33) becomes the oracle `draw(u, v, round)`. Its distribution and the independence of the draws are not modelled. Indexing a draw by the attempt, instead of by its position in one stream of random numbers, makes the result independent of the order in which a set is iterated.
- Python iterates sets in hash order. The model lists the seeds in first-occurrence order and each new frontier in activation order. `CascadeRound` is proved for any order of the frontier's nodes.
- networkx, matplotlib, numpy and pandas internals (lines 1-4) are foreign libraries. A `DiGraph` is a successor map whose successor lists are kept in insertion order. `G[u][v].get('weight', p)` always finds the weight `p` that the loader stored, so the graph holds one uniform weight.
- Floating point is replaced by exact reals: the division in `np.mean` and the sum `sum(spread_cache.values())`. Rounding is not modelled.
- IndependentCascade.MeanSpread: requires at least one trial. `np.mean` of an empty list is `nan`, which has no real counterpart.
- IndependentCascade.RunIcOnce: requires the seeds to be graph nodes. networkx raises an error for `G.successors` of an unknown node, and that error is not modelled. `celf` only passes graph nodes.
- LazyGreedy.Celf: `spread` is a fixed function of the seed list, while the source runs a fresh Monte Carlo estimate on every call. `Celf` returns a ghost run of its loop and a ghost record `estimates`. It proves the record to be the singletons of the first loop followed by the list of each stale pop of that run, with no list twice. So a fixed function loses no behaviour. The parameters `p` and `steps` are part of that oracle.
- LazyGreedy.Celf: the greedy property is proved only under the hypothesis `DiminishingReturns`. That the expected spread is submodular, and that Monte Carlo noise stays small, are statistical claims outside a deterministic model.
