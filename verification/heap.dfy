/**
 The CELF priority queue. `celf` keeps a Python list managed by `heapq` whose
 items are tuples `(-gain, node, last_updated)`; `heappop` returns the least
 tuple in Python's lexicographic tuple order. The list's internal arrangement
 is not observable, so the queue is modelled as a sequence read as a bag:
 pushing appends, popping removes the least entry wherever it sits.
 */
module HeapQueue {

  /** One heap item; `gain` is stored as itself, the heap key negates it. */
  datatype Entry = Entry(gain: real, node: int, stamp: nat)

  /** Python's `<=` on the tuples `(-a.gain, a.node, a.stamp)` and `(-b.gain, b.node, b.stamp)`. */
  predicate KeyLe(a: Entry, b: Entry): (le: bool)
    ensures a.gain > b.gain ==> le
    ensures a.gain < b.gain ==> !le
    ensures a.gain == b.gain && a.node != b.node ==> (le <==> a.node < b.node)
  {
    || -a.gain < -b.gain
    || (-a.gain == -b.gain && (a.node < b.node || (a.node == b.node && a.stamp <= b.stamp)))
  }

  /** Tuple comparison is a total order on entries, so the least entry of a
      non-empty queue is unique and the pop order is fully determined. */
  lemma KeyLeTotalOrder(a: Entry, b: Entry, c: Entry)
    ensures KeyLe(a, a)
    ensures KeyLe(a, b) || KeyLe(b, a)
    ensures KeyLe(a, b) && KeyLe(b, a) ==> a == b
    ensures KeyLe(a, b) && KeyLe(b, c) ==> KeyLe(a, c)
  {
  }

  /** The position of the least entry. */
  function MinIndex(q: seq<Entry>): (i: nat)
    requires |q| > 0
    ensures i < |q|
    ensures forall j :: 0 <= j < |q| ==> KeyLe(q[i], q[j])
  {
    if |q| == 1 then
      0
    else
      var m := MinIndex(q[..|q| - 1]);
      if KeyLe(q[m], q[|q| - 1]) then m else |q| - 1
  }

  /** The entry `heappop` returns: the largest gain; among equal gains the
      smallest node; among those the smallest stamp. */
  function Top(q: seq<Entry>): (e: Entry)
    requires |q| > 0
    ensures e in q
    ensures forall f :: f in q ==> f.gain <= e.gain
    ensures forall f :: f in q && f.gain == e.gain ==> e.node <= f.node
    ensures forall f :: f in q && f.gain == e.gain && f.node == e.node ==> e.stamp <= f.stamp
  {
    q[MinIndex(q)]
  }

  /** Any entry that is least in the queue is the one `Top` returns. */
  lemma TopUnique(q: seq<Entry>, e: Entry)
    requires e in q
    requires forall f :: f in q ==> KeyLe(e, f)
    ensures e == Top(q)
  {
    var t := Top(q);
    assert KeyLe(e, t);
    assert KeyLe(t, e) by {
      assert t == q[MinIndex(q)];
      var j :| 0 <= j < |q| && q[j] == e;
    }
  }

  /** `heappop`: the queue without its least entry. */
  function Pop(q: seq<Entry>): (rest: seq<Entry>)
    requires |q| > 0
    ensures multiset(rest) + multiset{Top(q)} == multiset(q)
    ensures |rest| == |q| - 1
  {
    var i := MinIndex(q);
    assert q == q[..i] + [q[i]] + q[i + 1..];
    q[..i] + q[i + 1..]
  }

  /** The nodes the queue holds, with multiplicity. */
  function NodeBag(q: seq<Entry>): (b: multiset<int>)
    ensures |b| == |q|
  {
    if q == [] then multiset{} else NodeBag(q[..|q| - 1]) + multiset{q[|q| - 1].node}
  }

  /** Number of entries whose stamp is not the current round. */
  function StaleCount(q: seq<Entry>, round: nat): (n: nat)
    ensures n <= |q|
  {
    if q == [] then 0
    else StaleCount(q[..|q| - 1], round) + (if q[|q| - 1].stamp != round then 1 else 0)
  }

  lemma {:induction false} NodeBagConcat(a: seq<Entry>, b: seq<Entry>)
    ensures NodeBag(a + b) == NodeBag(a) + NodeBag(b)
    decreases |b|
  {
    if b != [] {
      var b' := b[..|b| - 1];
      assert (a + b)[..|a + b| - 1] == a + b';
      NodeBagConcat(a, b');
    } else {
      assert a + b == a;
    }
  }

  lemma {:induction false} StaleCountConcat(a: seq<Entry>, b: seq<Entry>, round: nat)
    ensures StaleCount(a + b, round) == StaleCount(a, round) + StaleCount(b, round)
    decreases |b|
  {
    if b != [] {
      var b' := b[..|b| - 1];
      assert (a + b)[..|a + b| - 1] == a + b';
      StaleCountConcat(a, b', round);
    } else {
      assert a + b == a;
    }
  }

  /** Popping removes the least entry's node from the bag and, if that entry
      was stale, one stale entry. */
  lemma PopCounts(q: seq<Entry>, round: nat)
    requires |q| > 0
    ensures NodeBag(Pop(q)) + multiset{Top(q).node} == NodeBag(q)
    ensures StaleCount(Pop(q), round) + (if Top(q).stamp != round then 1 else 0) == StaleCount(q, round)
  {
    var i := MinIndex(q);
    var front, back := q[..i], q[i + 1..];
    assert q == front + [q[i]] + back;
    assert Pop(q) == front + back;
    NodeBagConcat(front + [q[i]], back);
    NodeBagConcat(front, [q[i]]);
    NodeBagConcat(front, back);
    assert NodeBag([q[i]]) == multiset{q[i].node} by {
      assert [q[i]][..0] == [];
    }
    StaleCountConcat(front + [q[i]], back, round);
    StaleCountConcat(front, [q[i]], round);
    StaleCountConcat(front, back, round);
    assert StaleCount([q[i]], round) == (if q[i].stamp != round then 1 else 0) by {
      assert [q[i]][..0] == [];
    }
  }

  lemma NodeBagSnoc(q: seq<Entry>, e: Entry)
    ensures NodeBag(q + [e]) == NodeBag(q) + multiset{e.node}
  {
    assert (q + [e])[..|q|] == q;
  }

  /** Every entry's node is in the bag. */
  lemma {:induction false} NodeBagHas(q: seq<Entry>, e: Entry)
    requires e in q
    ensures e.node in NodeBag(q)
    decreases |q|
  {
    if q[|q| - 1] != e {
      assert e in q[..|q| - 1] by {
        var j :| 0 <= j < |q| && q[j] == e;
        assert q[..|q| - 1][j] == e;
      }
      NodeBagHas(q[..|q| - 1], e);
    }
  }

  /** Every node of the bag has an entry. */
  lemma {:induction false} NodeBagEntry(q: seq<Entry>, x: int) returns (e: Entry)
    requires x in NodeBag(q)
    ensures e in q && e.node == x
    decreases |q|
  {
    if q[|q| - 1].node == x {
      e := q[|q| - 1];
    } else {
      e := NodeBagEntry(q[..|q| - 1], x);
      assert q[..|q| - 1] <= q;
    }
  }

  /** When no node occurs twice in the bag, an entry is identified by its node. */
  lemma {:induction false} OneEntryPerNode(q: seq<Entry>, e: Entry, f: Entry)
    requires forall x :: NodeBag(q)[x] <= 1
    requires e in q && f in q && e.node == f.node
    ensures e == f
    decreases |q|
  {
    var init, last := q[..|q| - 1], q[|q| - 1];
    assert q == init + [last];
    if e != last && f != last {
      forall x ensures NodeBag(init)[x] <= 1 {
        assert NodeBag(q)[x] == NodeBag(init)[x] + multiset{last.node}[x];
      }
      OneEntryPerNode(init, e, f);
    } else if e != f {
      var other := if e == last then f else e;
      assert other in init;
      NodeBagSnoc(init, last);
      assert NodeBag(q)[last.node] <= 1;
      NodeBagHas(init, other);
    }
  }
}
