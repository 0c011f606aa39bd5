/**
 * The uniform-cost queue and its re-sort. The page keeps the frontier as a
 * plain list and sorts all of it by cost before every removal, with a
 * stable sort, so entries of equal cost keep their order.
 */
module CostSort {
  import opened Graph

  /** A queue entry: accumulated cost, node, and the path up to but excluding the node. */
  datatype Pending = Pending(cost: int, node: Node, path: seq<Node>)

  predicate SortedByCost(q: seq<Pending>) {
    forall i, j :: 0 <= i <= j < |q| ==> q[i].cost <= q[j].cost
  }

  /** The entries of cost `c`, in queue order. */
  function WithCost(q: seq<Pending>, c: int): seq<Pending>
    decreases |q|
  {
    if |q| == 0 then []
    else (if q[0].cost == c then [q[0]] else []) + WithCost(q[1..], c)
  }

  /** Places `e` before the first entry that costs at least as much. */
  function InsertByCost(e: Pending, q: seq<Pending>): seq<Pending>
    decreases |q|
  {
    if |q| == 0 || e.cost <= q[0].cost then [e] + q
    else [q[0]] + InsertByCost(e, q[1..])
  }

  /**
   * The comparator sort `(a, b) => a[0] - b[0]`: ascending by cost, and
   * stable, because each entry goes in front of the equal-cost entries that
   * followed it.
   */
  function SortByCost(q: seq<Pending>): (r: seq<Pending>)
    ensures multiset(r) == multiset(q)
    ensures SortedByCost(r)
    ensures forall c :: WithCost(r, c) == WithCost(q, c)
    decreases |q|
  {
    if |q| == 0 then []
    else
      var rest := SortByCost(q[1..]);
      SortStep(q, rest);
      InsertByCost(q[0], rest)
  }

  /** Inserting the first entry into a stable sort of the others gives a stable sort of all. */
  lemma SortStep(q: seq<Pending>, rest: seq<Pending>)
    requires |q| > 0
    requires multiset(rest) == multiset(q[1..]) && SortedByCost(rest)
    requires forall c :: WithCost(rest, c) == WithCost(q[1..], c)
    ensures multiset(InsertByCost(q[0], rest)) == multiset(q)
    ensures SortedByCost(InsertByCost(q[0], rest))
    ensures forall c :: WithCost(InsertByCost(q[0], rest), c) == WithCost(q, c)
  {
    InsertSpec(q[0], rest);
    assert q == [q[0]] + q[1..];
    forall c
      ensures WithCost(InsertByCost(q[0], rest), c) == WithCost(q, c)
    {
      assert WithCost(q, c) == (if q[0].cost == c then [q[0]] else []) + WithCost(q[1..], c);
    }
  }

  lemma {:induction false} InsertSpec(e: Pending, q: seq<Pending>)
    requires SortedByCost(q)
    ensures multiset(InsertByCost(e, q)) == multiset(q) + multiset{e}
    ensures SortedByCost(InsertByCost(e, q))
    ensures forall c :: WithCost(InsertByCost(e, q), c) ==
                        (if e.cost == c then [e] else []) + WithCost(q, c)
  {
    InsertPermutes(e, q);
    InsertSorted(e, q);
    forall c
      ensures WithCost(InsertByCost(e, q), c) == (if e.cost == c then [e] else []) + WithCost(q, c)
    {
      InsertStable(e, q, c);
    }
  }

  lemma {:induction false} InsertPermutes(e: Pending, q: seq<Pending>)
    ensures multiset(InsertByCost(e, q)) == multiset(q) + multiset{e}
    decreases |q|
  {
    if |q| > 0 && e.cost > q[0].cost {
      InsertPermutes(e, q[1..]);
      assert q == [q[0]] + q[1..];
    }
  }

  /** Every entry after inserting costs at least a bound that `e` and all of `q` meet. */
  lemma {:induction false} InsertBound(e: Pending, q: seq<Pending>, b: int)
    requires b <= e.cost
    requires forall i :: 0 <= i < |q| ==> b <= q[i].cost
    ensures forall i :: 0 <= i < |InsertByCost(e, q)| ==> b <= InsertByCost(e, q)[i].cost
    decreases |q|
  {
    if |q| > 0 && e.cost > q[0].cost {
      InsertBound(e, q[1..], b);
    }
  }

  lemma {:induction false} InsertSorted(e: Pending, q: seq<Pending>)
    requires SortedByCost(q)
    ensures SortedByCost(InsertByCost(e, q))
    decreases |q|
  {
    if |q| > 0 && e.cost > q[0].cost {
      var t := InsertByCost(e, q[1..]);
      assert SortedByCost(q[1..]);
      InsertSorted(e, q[1..]);
      InsertBound(e, q[1..], q[0].cost);
      var r := InsertByCost(e, q);
      assert r == [q[0]] + t;
      forall i, j | 0 <= i <= j < |r|
        ensures r[i].cost <= r[j].cost
      {
        if i > 0 {
          assert r[i] == t[i - 1] && r[j] == t[j - 1];
        } else if j > 0 {
          assert r[j] == t[j - 1];
        }
      }
    }
  }

  lemma {:induction false} InsertStable(e: Pending, q: seq<Pending>, c: int)
    ensures WithCost(InsertByCost(e, q), c) == (if e.cost == c then [e] else []) + WithCost(q, c)
    decreases |q|
  {
    var r := InsertByCost(e, q);
    if |q| == 0 || e.cost <= q[0].cost {
      assert r[1..] == q;
    } else {
      var t := InsertByCost(e, q[1..]);
      InsertStable(e, q[1..], c);
      assert r[0] == q[0] && r[1..] == t;
      var front := if q[0].cost == c then [q[0]] else [];
      var mine := if e.cost == c then [e] else [];
      assert WithCost(r, c) == front + WithCost(t, c);
      assert WithCost(q, c) == front + WithCost(q[1..], c);
      assert front == [] || mine == [];
    }
  }

  /** A sorted reordering of `q`: what the re-sort produces, by its contract. */
  predicate Reorders(q: seq<Pending>, r: seq<Pending>) {
    multiset(r) == multiset(q) && SortedByCost(r)
  }

  /**
   * A sorted reordering has the same length, holds every entry, and its head
   * costs no more than any entry of the queue it came from.
   */
  lemma ReorderFacts(q: seq<Pending>, r: seq<Pending>)
    requires Reorders(q, r)
    ensures |r| == |q|
    ensures forall i :: 0 <= i < |q| ==> q[i] in r
    ensures |q| > 0 ==> forall i :: 0 <= i < |q| ==> r[0].cost <= q[i].cost
  {
    assert |multiset(r)| == |multiset(q)|;
    forall i | 0 <= i < |q|
      ensures q[i] in r && r[0].cost <= q[i].cost
    {
      assert q[i] in multiset(r);
      var j :| 0 <= j < |r| && r[j] == q[i];
    }
  }
}
