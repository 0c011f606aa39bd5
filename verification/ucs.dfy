/**
 * Uniform-cost search over the graph store. Every iteration counts a step,
 * re-sorts the whole queue by accumulated cost and removes its head. A
 * node is marked visited when it is first removed and expanded then; later
 * entries for it are removed and counted but not expanded again.
 */
module UniformCost {
  import opened Graph
  import opened Paths
  import opened Results
  import opened CostSort

  /** The entry's path including its own node. */
  function FullPath(e: Pending): seq<Node> {
    e.path + [e.node]
  }

  /** The entry's full path starts at `start` and some choice of its edges costs exactly the entry's cost. */
  ghost predicate Accounted(g: Graph, start: Node, e: Pending) {
    FullPath(e)[0] == start && CostAchievable(g, FullPath(e), e.cost)
  }

  ghost predicate AllAccounted(g: Graph, start: Node, q: seq<Pending>) {
    forall i :: 0 <= i < |q| ==> Accounted(g, start, q[i])
  }

  /** Each visited node was expanded at a cost no walk to it undercuts. */
  ghost predicate Cheapest(g: Graph, start: Node, settled: map<Node, int>) {
    forall p, ks :: ValidChoices(g, p, ks) && p[0] == start && p[|p| - 1] in settled ==>
      settled[p[|p| - 1]] <= ChoiceCost(g, p, ks)
  }

  /** Some entry for `n` waits in the queue at cost at most `c`. */
  ghost predicate Offered(q: seq<Pending>, n: Node, c: int) {
    exists i :: 0 <= i < |q| && q[i].node == n && q[i].cost <= c
  }

  /** Each edge out of a visited node leads to a visited node or is offered in the queue at no more than its cost. */
  ghost predicate Covered(g: Graph, visited: set<Node>, settled: map<Node, int>, q: seq<Pending>) {
    forall u, k :: u in settled && 0 <= k < |Neighbors(g, u)| ==>
      Neighbors(g, u)[k].0 in visited || Offered(q, Neighbors(g, u)[k].0, settled[u] + Neighbors(g, u)[k].1)
  }

  /** The loop invariant of the search, over its state at the top of the loop. */
  ghost predicate Inv(g: Graph, start: Node, goal: Node, steps: nat, visited: set<Node>,
                      settled: map<Node, int>, queue: seq<Pending>)
  {
    && visited == settled.Keys
    && goal !in visited
    && AllAccounted(g, start, queue)
    && (NonNegative(g) ==> Cheapest(g, start, settled))
    && Covered(g, visited, settled, queue)
    && (steps == 0 ==> queue == [Pending(0, start, [])] && visited == {})
    && (steps > 0 ==> start in visited)
    && steps + |queue| <= 1 + DegreeSum(g, visited)
  }

  /**
   * The search as the page runs it: an unknown start or goal is rejected
   * before anything else; otherwise the result is found exactly when the
   * goal is reachable, and the reported cost is what the path's edges add
   * up to and, with no negative edge, the least any walk costs.
   */
  method RunUcs(g: Graph, start: Node, goal: Node) returns (r: SearchResult)
    ensures r.Invalid? <==> !(HasNode(g, start) && HasNode(g, goal))
    ensures r.Found? <==> HasNode(g, start) && HasNode(g, goal) && Reachable(g, start, goal)
    ensures r.Found? ==> WalkFromTo(g, r.path, start, goal) && r.cost.Some?
    ensures r.Found? && r.cost.Some? ==> CostAchievable(g, r.path, r.cost.value)
    ensures r.Found? && r.cost.Some? && NonNegative(g) ==>
              forall p, ks :: WeightedWalkFromTo(g, p, ks, start, goal) ==> r.cost.value <= ChoiceCost(g, p, ks)
    ensures r.Found? && start == goal ==> r.path == [start] && r.cost == Some(0) && r.steps == 1
    ensures !r.Invalid? ==> 1 <= r.steps <= 1 + EdgeCount(g)
  {
    if !HasNode(g, start) || !HasNode(g, goal) {
      return Invalid;
    }
    var steps := 0;
    var visited: set<Node> := {};
    var queue := [Pending(0, start, [])];
    ghost var settled: map<Node, int> := map[];
    assert Accounted(g, start, queue[0]) by {
      assert FullPath(queue[0]) == [start];
      assert ValidChoices(g, [start], []) && ChoiceCost(g, [start], []) == 0;
    }
    while |queue| > 0
      invariant Inv(g, start, goal, steps, visited, settled, queue)
      decreases 1 + EdgeCount(g) - steps
    {
      DegreeSumBound(g, visited);
      var sorted := SortByCost(queue);
      ReorderFacts(queue, sorted);
      var head := sorted[0];
      var rest := sorted[1..];
      if head.node == goal {
        GoalPopped(g, start, goal, steps, visited, settled, queue, sorted);
        return Found(FullPath(head), Some(head.cost), steps + 1);
      }
      if head.node !in visited {
        var expanded := PushNeighbors(g, head, visited + {head.node}, rest);
        ExpandKeeps(g, start, goal, steps, visited, settled, queue, sorted, expanded);
        settled := settled[head.node := head.cost];
        visited := visited + {head.node};
        queue := expanded;
      } else {
        SkipKeeps(g, start, goal, steps, visited, settled, queue, sorted);
        queue := rest;
      }
      steps := steps + 1;
    }
    QueueExhausted(g, start, goal, steps, visited, settled);
    return NotFound(steps);
  }

  /**
   * The entries that expanding `head` pushes: one per edge to a neighbour
   * that is not visited, in edge order, at the head's cost plus the edge's.
   */
  function Offers(head: Pending, nbrs: seq<Edge>, visited: set<Node>): seq<Pending>
    decreases |nbrs|
  {
    if |nbrs| == 0 then []
    else
      var last := nbrs[|nbrs| - 1];
      Offers(head, nbrs[..|nbrs| - 1], visited)
        + (if last.0 !in visited then [Pending(head.cost + last.1, last.0, FullPath(head))] else [])
  }

  /** `e` is what the edge list offers for one of its edges out of a node settled at `base`. */
  ghost predicate OfferFor(nbrs: seq<Edge>, base: int, e: Pending) {
    exists k :: 0 <= k < |nbrs| && nbrs[k].0 == e.node && e.cost == base + nbrs[k].1
  }

  /**
   * The offers are exactly the edges to unvisited neighbours: each entry
   * extends the head's path by one edge at that edge's cost, and each edge to
   * an unvisited neighbour has its entry.
   */
  lemma OffersSpec(head: Pending, nbrs: seq<Edge>, visited: set<Node>)
    ensures |Offers(head, nbrs, visited)| <= |nbrs|
    ensures forall j :: 0 <= j < |Offers(head, nbrs, visited)| ==>
              var e := Offers(head, nbrs, visited)[j];
              e.path == FullPath(head) && e.node !in visited && OfferFor(nbrs, head.cost, e)
    ensures forall k :: 0 <= k < |nbrs| && nbrs[k].0 !in visited ==>
              Offered(Offers(head, nbrs, visited), nbrs[k].0, head.cost + nbrs[k].1)
  {
    OffersSound(head, nbrs, visited);
    OffersComplete(head, nbrs, visited);
  }

  lemma {:induction false} OffersSound(head: Pending, nbrs: seq<Edge>, visited: set<Node>)
    ensures |Offers(head, nbrs, visited)| <= |nbrs|
    ensures forall j :: 0 <= j < |Offers(head, nbrs, visited)| ==>
              var e := Offers(head, nbrs, visited)[j];
              e.path == FullPath(head) && e.node !in visited && OfferFor(nbrs, head.cost, e)
    decreases |nbrs|
  {
    if |nbrs| > 0 {
      var init := nbrs[..|nbrs| - 1];
      var last := nbrs[|nbrs| - 1];
      OffersSound(head, init, visited);
      var s0 := Offers(head, init, visited);
      var s := Offers(head, nbrs, visited);
      assert s[..|s0|] == s0;
      forall j | 0 <= j < |s|
        ensures s[j].path == FullPath(head) && s[j].node !in visited && OfferFor(nbrs, head.cost, s[j])
      {
        if j < |s0| {
          assert s[j] == s0[j];
          var k :| 0 <= k < |init| && init[k].0 == s[j].node && s[j].cost == head.cost + init[k].1;
          assert nbrs[k] == init[k];
        } else {
          assert s[j] == Pending(head.cost + last.1, last.0, FullPath(head));
          assert nbrs[|nbrs| - 1] == last;
        }
      }
    }
  }

  lemma {:induction false} OffersComplete(head: Pending, nbrs: seq<Edge>, visited: set<Node>)
    ensures forall k :: 0 <= k < |nbrs| && nbrs[k].0 !in visited ==>
              Offered(Offers(head, nbrs, visited), nbrs[k].0, head.cost + nbrs[k].1)
    decreases |nbrs|
  {
    if |nbrs| > 0 {
      var init := nbrs[..|nbrs| - 1];
      var last := nbrs[|nbrs| - 1];
      OffersComplete(head, init, visited);
      var s0 := Offers(head, init, visited);
      var s := Offers(head, nbrs, visited);
      assert s[..|s0|] == s0;
      forall k | 0 <= k < |nbrs| && nbrs[k].0 !in visited
        ensures Offered(s, nbrs[k].0, head.cost + nbrs[k].1)
      {
        if k < |init| {
          assert init[k] == nbrs[k];
          var j :| 0 <= j < |s0| && s0[j].node == nbrs[k].0 && s0[j].cost <= head.cost + nbrs[k].1;
          assert s[j] == s0[j];
        } else {
          assert s[|s| - 1] == Pending(head.cost + last.1, last.0, FullPath(head));
        }
      }
    }
  }

  /**
   * The offers follow the edge list: entry `j` is for the edge at the `j`-th
   * kept position, so there is one entry per edge to an unvisited neighbour
   * (parallel edges included, each at its own cost), in edge order.
   */
  lemma {:induction false} OffersInEdgeOrder(head: Pending, nbrs: seq<Edge>, visited: set<Node>)
    returns (ks: seq<nat>)
    ensures KeptIndices(nbrs, visited, ks)
    ensures |Offers(head, nbrs, visited)| == |ks|
    ensures forall j :: 0 <= j < |ks| ==>
              Offers(head, nbrs, visited)[j] == Pending(head.cost + nbrs[ks[j]].1, nbrs[ks[j]].0, FullPath(head))
    decreases |nbrs|
  {
    if |nbrs| == 0 {
      ks := [];
    } else {
      var init := nbrs[..|nbrs| - 1];
      var last := nbrs[|nbrs| - 1];
      var ks0 := OffersInEdgeOrder(head, init, visited);
      KeptIndicesSnoc(nbrs, visited, ks0);
      ks := ks0 + (if last.0 !in visited then [|nbrs| - 1] else []);
      var s0 := Offers(head, init, visited);
      var s := Offers(head, nbrs, visited);
      forall j | 0 <= j < |ks|
        ensures s[j] == Pending(head.cost + nbrs[ks[j]].1, nbrs[ks[j]].0, FullPath(head))
      {
        if j < |ks0| {
          assert s[j] == s0[j] && ks[j] == ks0[j] && init[ks0[j]] == nbrs[ks0[j]];
        }
      }
    }
  }

  /** The neighbour loop: pushes the offers of `head` onto the queue. */
  method PushNeighbors(g: Graph, head: Pending, visited: set<Node>, queue: seq<Pending>)
    returns (q': seq<Pending>)
    ensures q' == queue + Offers(head, Neighbors(g, head.node), visited)
    ensures |queue| <= |q'| && q'[..|queue|] == queue
    ensures exists ks :: KeptIndices(Neighbors(g, head.node), visited, ks)
              && |q'| == |queue| + |ks|
              && forall j :: 0 <= j < |ks| ==>
                   q'[|queue| + j] == Pending(head.cost + Neighbors(g, head.node)[ks[j]].1,
                                              Neighbors(g, head.node)[ks[j]].0, FullPath(head))
  {
    var nbrs := Neighbors(g, head.node);
    q' := queue;
    var i := 0;
    while i < |nbrs|
      invariant 0 <= i <= |nbrs|
      invariant q' == queue + Offers(head, nbrs[..i], visited)
    {
      assert nbrs[..i + 1][..i] == nbrs[..i];
      if nbrs[i].0 !in visited {
        q' := q' + [Pending(head.cost + nbrs[i].1, nbrs[i].0, FullPath(head))];
      }
      i := i + 1;
    }
    assert nbrs[..i] == nbrs;
    var ks := OffersInEdgeOrder(head, nbrs, visited);
    assert q'[..|queue|] == queue;
    forall j | 0 <= j < |ks|
      ensures q'[|queue| + j] == Pending(head.cost + nbrs[ks[j]].1, nbrs[ks[j]].0, FullPath(head))
    {
      assert q'[|queue| + j] == Offers(head, nbrs, visited)[j];
    }
  }

  // ---------------------------------------------------------------------------
  // Proof of the loop
  // ---------------------------------------------------------------------------

  /** Sorting only reorders the queue, so every entry stays accounted for. */
  lemma AccountedAfterSort(g: Graph, start: Node, q: seq<Pending>, sorted: seq<Pending>)
    requires Reorders(q, sorted)
    requires AllAccounted(g, start, q)
    ensures AllAccounted(g, start, sorted)
  {
    forall j | 0 <= j < |sorted|
      ensures Accounted(g, start, sorted[j])
    {
      assert sorted[j] in multiset(q);
      var i :| 0 <= i < |q| && q[i] == sorted[j];
    }
  }

  /** The first search step removes the one initial entry, for the start node. */
  lemma FirstRemoval(start: Node, queue: seq<Pending>, sorted: seq<Pending>)
    requires Reorders(queue, sorted)
    requires queue == [Pending(0, start, [])]
    ensures sorted == queue
  {
    ReorderFacts(queue, sorted);
    assert sorted[0] in multiset(queue);
  }

  /**
   * With no negative edge, a walk from the start to an unvisited node costs
   * at least as much as some queue entry: follow it back to its last visited
   * node, whose edge onwards is covered.
   */
  lemma {:induction false} Frontier(g: Graph, start: Node, visited: set<Node>, settled: map<Node, int>,
                                    q: seq<Pending>, p: seq<Node>, ks: seq<nat>)
    requires NonNegative(g)
    requires visited == settled.Keys && start in visited
    requires Cheapest(g, start, settled) && Covered(g, visited, settled, q)
    requires ValidChoices(g, p, ks) && p[0] == start && p[|p| - 1] !in visited
    ensures exists i :: 0 <= i < |q| && q[i].cost <= ChoiceCost(g, p, ks)
    decreases |p|
  {
    ChoicesPrefix(g, p, ks);
    var pre := p[..|p| - 1];
    var kpre := ks[..|ks| - 1];
    var u := p[|p| - 2];
    var k := ks[|ks| - 1];
    assert pre[|pre| - 1] == u && pre[0] == start;
    assert ChoiceCost(g, p, ks) == ChoiceCost(g, pre, kpre) + Neighbors(g, u)[k].1;
    if u in visited {
      assert settled[u] <= ChoiceCost(g, pre, kpre);
      assert Offered(q, Neighbors(g, u)[k].0, settled[u] + Neighbors(g, u)[k].1);
    } else {
      Frontier(g, start, visited, settled, q, pre, kpre);
      assert u in g;
      assert Neighbors(g, u)[k].1 >= 0;
    }
  }

  /** The removed head costs no more than any walk to an unvisited node. */
  lemma HeadUndercutsWalks(g: Graph, start: Node, goal: Node, steps: nat, visited: set<Node>,
                           settled: map<Node, int>, queue: seq<Pending>, sorted: seq<Pending>,
                           p: seq<Node>, ks: seq<nat>)
    requires Inv(g, start, goal, steps, visited, settled, queue)
    requires Reorders(queue, sorted) && |queue| > 0 && NonNegative(g)
    requires ValidChoices(g, p, ks) && p[0] == start && p[|p| - 1] !in visited
    ensures sorted[0].cost <= ChoiceCost(g, p, ks)
  {
    ReorderFacts(queue, sorted);
    if steps == 0 {
      ChoiceCostNonNegative(g, p, ks);
    } else {
      Frontier(g, start, visited, settled, queue, p, ks);
    }
  }

  /** When the goal is removed its path is accounted for and, with no negative edge, cheapest. */
  lemma GoalPopped(g: Graph, start: Node, goal: Node, steps: nat, visited: set<Node>,
                   settled: map<Node, int>, queue: seq<Pending>, sorted: seq<Pending>)
    requires Inv(g, start, goal, steps, visited, settled, queue)
    requires Reorders(queue, sorted) && |queue| > 0 && |sorted| > 0 && sorted[0].node == goal
    ensures var h := sorted[0];
      && WalkFromTo(g, FullPath(h), start, goal)
      && CostAchievable(g, FullPath(h), h.cost)
      && Reachable(g, start, goal)
      && (NonNegative(g) ==> forall p, ks :: WeightedWalkFromTo(g, p, ks, start, goal) ==> h.cost <= ChoiceCost(g, p, ks))
      && (start == goal ==> FullPath(h) == [start] && h.cost == 0 && steps == 0)
      && steps + 1 <= 1 + EdgeCount(g)
  {
    var h := sorted[0];
    AccountedAfterSort(g, start, queue, sorted);
    assert Accounted(g, start, h);
    var ks :| ValidChoices(g, FullPath(h), ks) && ChoiceCost(g, FullPath(h), ks) == h.cost;
    ChoicesFormWalk(g, FullPath(h), ks);
    assert WalkFromTo(g, FullPath(h), start, goal);
    if NonNegative(g) {
      forall p, ks' | WeightedWalkFromTo(g, p, ks', start, goal)
        ensures h.cost <= ChoiceCost(g, p, ks')
      {
        HeadUndercutsWalks(g, start, goal, steps, visited, settled, queue, sorted, p, ks');
      }
    }
    if start == goal {
      FirstRemoval(start, queue, sorted);
    }
    DegreeSumBound(g, visited);
  }

  /** An empty queue means the visited set is closed under edges, so the goal is unreachable. */
  lemma QueueExhausted(g: Graph, start: Node, goal: Node, steps: nat, visited: set<Node>,
                       settled: map<Node, int>)
    requires Inv(g, start, goal, steps, visited, settled, [])
    ensures !Reachable(g, start, goal)
    ensures 1 <= steps <= 1 + EdgeCount(g)
  {
    DegreeSumBound(g, visited);
    assert EdgeClosed(g, visited);
    ClosedSetSeparates(g, visited, start, goal);
  }

  /** Removing an already visited head only drops it. */
  lemma SkipKeeps(g: Graph, start: Node, goal: Node, steps: nat, visited: set<Node>,
                  settled: map<Node, int>, queue: seq<Pending>, sorted: seq<Pending>)
    requires Inv(g, start, goal, steps, visited, settled, queue)
    requires Reorders(queue, sorted) && |queue| > 0 && |sorted| > 0
    requires sorted[0].node != goal && sorted[0].node in visited
    ensures Inv(g, start, goal, steps + 1, visited, settled, sorted[1..])
  {
    ReorderFacts(queue, sorted);
    AccountedAfterSort(g, start, queue, sorted);
    CoveredAfterSkip(g, visited, settled, queue, sorted);
  }

  lemma CoveredAfterSkip(g: Graph, visited: set<Node>, settled: map<Node, int>,
                         queue: seq<Pending>, sorted: seq<Pending>)
    requires visited == settled.Keys
    requires Covered(g, visited, settled, queue)
    requires Reorders(queue, sorted) && |sorted| > 0 && sorted[0].node in visited
    ensures Covered(g, visited, settled, sorted[1..])
  {
    assert sorted[1..] + [] == sorted[1..];
    forall u, k | u in settled && 0 <= k < |Neighbors(g, u)| && Neighbors(g, u)[k].0 !in visited
      ensures Offered(sorted[1..], Neighbors(g, u)[k].0, settled[u] + Neighbors(g, u)[k].1)
    {
      OfferSurvives(queue, sorted, Neighbors(g, u)[k].0, settled[u] + Neighbors(g, u)[k].1, []);
    }
  }

  /** An offer for a node other than the removed head is still in the queue after the removal. */
  lemma OfferSurvives(queue: seq<Pending>, sorted: seq<Pending>, n: Node, c: int, pushed: seq<Pending>)
    requires Reorders(queue, sorted)
    requires Offered(queue, n, c)
    requires |sorted| > 0 && sorted[0].node != n
    ensures Offered(sorted[1..] + pushed, n, c)
  {
    var i :| 0 <= i < |queue| && queue[i].node == n && queue[i].cost <= c;
    assert queue[i] in multiset(sorted);
    var j :| 0 <= j < |sorted| && sorted[j] == queue[i];
    assert (sorted[1..] + pushed)[j - 1] == sorted[j];
  }

  /** An offer among the pushed entries is in the queue they are pushed onto. */
  lemma OfferPushed(rest: seq<Pending>, pushed: seq<Pending>, n: Node, c: int)
    requires Offered(pushed, n, c)
    ensures Offered(rest + pushed, n, c)
  {
    var j :| 0 <= j < |pushed| && pushed[j].node == n && pushed[j].cost <= c;
    assert (rest + pushed)[|rest| + j] == pushed[j];
  }

  /** Removing an unvisited head marks it and pushes its offers. */
  lemma ExpandKeeps(g: Graph, start: Node, goal: Node, steps: nat, visited: set<Node>,
                    settled: map<Node, int>, queue: seq<Pending>, sorted: seq<Pending>, q': seq<Pending>)
    requires Inv(g, start, goal, steps, visited, settled, queue)
    requires Reorders(queue, sorted) && |queue| > 0 && |sorted| > 0
    requires sorted[0].node != goal && sorted[0].node !in visited
    requires q' == sorted[1..] + Offers(sorted[0], Neighbors(g, sorted[0].node), visited + {sorted[0].node})
    ensures Inv(g, start, goal, steps + 1, visited + {sorted[0].node},
                settled[sorted[0].node := sorted[0].cost], q')
  {
    var head := sorted[0];
    var rest := sorted[1..];
    var visited' := visited + {head.node};
    var settled' := settled[head.node := head.cost];
    var nbrs := Neighbors(g, head.node);
    assert AllAccounted(g, start, q') by {
      AccountedAfterSort(g, start, queue, sorted);
      OffersAccounted(g, start, head, visited', rest, q');
    }
    assert NonNegative(g) ==> Cheapest(g, start, settled') by {
      CheapestAfterExpansion(g, start, goal, steps, visited, settled, queue, sorted);
    }
    assert Covered(g, visited', settled', q') by {
      CoveredAfterExpansion(g, visited, settled, queue, sorted, q');
    }
    assert start in visited' by {
      if steps == 0 {
        FirstRemoval(start, queue, sorted);
      }
    }
    assert steps + 1 + |q'| <= 1 + DegreeSum(g, visited') by {
      ReorderFacts(queue, sorted);
      OffersSound(head, nbrs, visited');
      DegreeSumAdd(g, visited, head.node);
    }
  }

  /** With no negative edge, the head is removed at the least cost of any walk to it. */
  lemma CheapestAfterExpansion(g: Graph, start: Node, goal: Node, steps: nat, visited: set<Node>,
                               settled: map<Node, int>, queue: seq<Pending>, sorted: seq<Pending>)
    requires Inv(g, start, goal, steps, visited, settled, queue)
    requires Reorders(queue, sorted) && |queue| > 0 && |sorted| > 0 && sorted[0].node !in visited
    ensures NonNegative(g) ==> Cheapest(g, start, settled[sorted[0].node := sorted[0].cost])
  {
    var head := sorted[0];
    var settled' := settled[head.node := head.cost];
    if NonNegative(g) {
      forall p, ks | ValidChoices(g, p, ks) && p[0] == start && p[|p| - 1] in settled'
        ensures settled'[p[|p| - 1]] <= ChoiceCost(g, p, ks)
      {
        if p[|p| - 1] == head.node {
          HeadUndercutsWalks(g, start, goal, steps, visited, settled, queue, sorted, p, ks);
        }
      }
    }
  }

  lemma CoveredAfterExpansion(g: Graph, visited: set<Node>, settled: map<Node, int>,
                              queue: seq<Pending>, sorted: seq<Pending>, q': seq<Pending>)
    requires visited == settled.Keys
    requires Covered(g, visited, settled, queue)
    requires Reorders(queue, sorted) && |sorted| > 0 && sorted[0].node !in visited
    requires q' == sorted[1..] + Offers(sorted[0], Neighbors(g, sorted[0].node), visited + {sorted[0].node})
    ensures Covered(g, visited + {sorted[0].node}, settled[sorted[0].node := sorted[0].cost], q')
  {
    var head := sorted[0];
    var visited' := visited + {head.node};
    var settled' := settled[head.node := head.cost];
    var offers := Offers(head, Neighbors(g, head.node), visited');
    OffersComplete(head, Neighbors(g, head.node), visited');
    forall u, k | u in settled' && 0 <= k < |Neighbors(g, u)| && Neighbors(g, u)[k].0 !in visited'
      ensures Offered(q', Neighbors(g, u)[k].0, settled'[u] + Neighbors(g, u)[k].1)
    {
      if u == head.node {
        OfferPushed(sorted[1..], offers, Neighbors(g, u)[k].0, settled'[u] + Neighbors(g, u)[k].1);
      } else {
        OfferSurvives(queue, sorted, Neighbors(g, u)[k].0, settled[u] + Neighbors(g, u)[k].1, offers);
      }
    }
  }

  /** Entries kept from the sorted tail and pushed offers are all accounted for. */
  lemma OffersAccounted(g: Graph, start: Node, head: Pending, visited: set<Node>,
                        rest: seq<Pending>, q': seq<Pending>)
    requires Accounted(g, start, head)
    requires AllAccounted(g, start, rest)
    requires q' == rest + Offers(head, Neighbors(g, head.node), visited)
    ensures AllAccounted(g, start, q')
  {
    var offers := Offers(head, Neighbors(g, head.node), visited);
    OffersSound(head, Neighbors(g, head.node), visited);
    forall j | 0 <= j < |q'|
      ensures Accounted(g, start, q'[j])
    {
      if j < |rest| {
        assert q'[j] == rest[j];
      } else {
        assert q'[j] == offers[j - |rest|];
        OfferAccounted(g, start, head, offers[j - |rest|]);
      }
    }
  }

  /** An entry offered along one edge out of an accounted head is accounted for. */
  lemma OfferAccounted(g: Graph, start: Node, head: Pending, e: Pending)
    requires Accounted(g, start, head)
    requires e.path == FullPath(head) && OfferFor(Neighbors(g, head.node), head.cost, e)
    ensures Accounted(g, start, e)
  {
    var nbrs := Neighbors(g, head.node);
    var ks :| ValidChoices(g, FullPath(head), ks) && ChoiceCost(g, FullPath(head), ks) == head.cost;
    var k :| 0 <= k < |nbrs| && nbrs[k].0 == e.node && e.cost == head.cost + nbrs[k].1;
    var full := FullPath(head);
    assert full[|full| - 1] == head.node;
    ExtendChoices(g, full, ks, k);
    assert FullPath(e) == full + [nbrs[k].0];
  }
}
