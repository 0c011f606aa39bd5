/**
 * Breadth-first search over the graph store. The queue is first-in
 * first-out; a node is marked visited when it is dequeued, not when it is
 * enqueued, so a node may wait in the queue several times. Every dequeue is
 * one step, whether or not the dequeued node was already visited.
 */
module BreadthFirst {
  import opened Graph
  import opened Paths
  import opened Results

  /** A queue entry: a node and the path that reached it (ending in it). */
  datatype Visit = Visit(node: Node, path: seq<Node>)

  /** Every queued path is a walk from `start` to its node. */
  ghost predicate Sound(g: Graph, start: Node, q: seq<Visit>) {
    forall i :: 0 <= i < |q| ==> WalkFromTo(g, q[i].path, start, q[i].node)
  }

  /** Path lengths never decrease along the queue and span at most one. */
  ghost predicate Layered(q: seq<Visit>) {
    && (forall i, j :: 0 <= i <= j < |q| ==> |q[i].path| <= |q[j].path|)
    && (forall i :: 0 <= i < |q| ==> |q[i].path| <= |q[0].path| + 1)
  }

  /** Every visited node was expanded by a path with as few nodes as any walk to it. */
  ghost predicate Shortest(g: Graph, start: Node, dist: map<Node, nat>) {
    forall p :: IsWalk(g, p) && p[0] == start && p[|p| - 1] in dist ==> dist[p[|p| - 1]] <= |p|
  }

  /** Every walk from `start` with fewer than `m` nodes ends at a visited node. */
  ghost predicate ShorterSettled(g: Graph, start: Node, visited: set<Node>, m: nat) {
    forall p :: IsWalk(g, p) && p[0] == start && |p| < m ==> p[|p| - 1] in visited
  }

  /** Some entry for `n` waits in the queue with a path of at most `len` nodes. */
  ghost predicate Queued(q: seq<Visit>, n: Node, len: nat) {
    exists i :: 0 <= i < |q| && q[i].node == n && |q[i].path| <= len
  }

  /** Each neighbour of a visited node is visited or queued one node further on. */
  ghost predicate Covered(g: Graph, visited: set<Node>, dist: map<Node, nat>, q: seq<Visit>) {
    forall u, k :: u in dist && 0 <= k < |Neighbors(g, u)| ==>
      Neighbors(g, u)[k].0 in visited || Queued(q, Neighbors(g, u)[k].0, dist[u] + 1)
  }

  /** The loop invariant of the search, over its state at the top of the loop. */
  ghost predicate Inv(g: Graph, start: Node, goal: Node, steps: nat, visited: set<Node>,
                      dist: map<Node, nat>, queue: seq<Visit>)
  {
    && visited == dist.Keys
    && goal !in visited
    && Sound(g, start, queue)
    && Layered(queue)
    && Shortest(g, start, dist)
    && (|queue| > 0 ==> ShorterSettled(g, start, visited, |queue[0].path|))
    && Covered(g, visited, dist, queue)
    && (steps == 0 ==> queue == [Visit(start, [start])])
    && (steps > 0 ==> start in visited)
    && steps + |queue| <= 1 + DegreeSum(g, visited)
  }

  /**
   * The search as the page runs it: an unknown start or goal is rejected
   * before anything else; otherwise the result is found exactly when the
   * goal is reachable, by a path with the fewest edges.
   */
  method RunBfs(g: Graph, start: Node, goal: Node) returns (r: SearchResult)
    ensures r.Invalid? <==> !(HasNode(g, start) && HasNode(g, goal))
    ensures r.Found? <==> HasNode(g, start) && HasNode(g, goal) && Reachable(g, start, goal)
    ensures r.Found? ==> WalkFromTo(g, r.path, start, goal) && r.cost == None
    ensures r.Found? ==> forall p :: WalkFromTo(g, p, start, goal) ==> |r.path| <= |p|
    ensures r.Found? && start == goal ==> r.path == [start] && r.steps == 1
    ensures !r.Invalid? ==> 1 <= r.steps <= 1 + EdgeCount(g)
  {
    if !HasNode(g, start) || !HasNode(g, goal) {
      return Invalid;
    }
    var steps := 0;
    var visited: set<Node> := {};
    var queue := [Visit(start, [start])];
    ghost var dist: map<Node, nat> := map[];
    while |queue| > 0
      invariant Inv(g, start, goal, steps, visited, dist, queue)
      decreases 1 + EdgeCount(g) - steps
    {
      DegreeSumBound(g, visited);
      var head := queue[0];
      var rest := queue[1..];
      if head.node == goal {
        GoalDequeued(g, start, goal, steps, visited, dist, queue);
        return Found(head.path, None, steps + 1);
      }
      if head.node !in visited {
        var expanded := EnqueueNeighbors(g, head, visited + {head.node}, rest);
        ExpandKeeps(g, start, goal, steps, visited, dist, queue, expanded);
        dist := dist[head.node := |head.path|];
        visited := visited + {head.node};
        queue := expanded;
      } else {
        SkipKeeps(g, start, goal, steps, visited, dist, queue);
        queue := rest;
      }
      steps := steps + 1;
    }
    QueueExhausted(g, start, goal, steps, visited, dist);
    return NotFound(steps);
  }

  /** When the goal is dequeued its path is a shortest walk to it. */
  lemma GoalDequeued(g: Graph, start: Node, goal: Node, steps: nat, visited: set<Node>,
                     dist: map<Node, nat>, queue: seq<Visit>)
    requires Inv(g, start, goal, steps, visited, dist, queue)
    requires |queue| > 0 && queue[0].node == goal
    ensures WalkFromTo(g, queue[0].path, start, goal)
    ensures Reachable(g, start, goal)
    ensures forall p :: WalkFromTo(g, p, start, goal) ==> |queue[0].path| <= |p|
    ensures start == goal ==> queue[0].path == [start] && steps == 0
    ensures steps + 1 <= 1 + EdgeCount(g)
  {
    assert WalkFromTo(g, queue[0].path, start, goal);
    DegreeSumBound(g, visited);
  }

  /** An empty queue means the visited set is closed under edges, so the goal is unreachable. */
  lemma QueueExhausted(g: Graph, start: Node, goal: Node, steps: nat, visited: set<Node>,
                       dist: map<Node, nat>)
    requires Inv(g, start, goal, steps, visited, dist, [])
    ensures !Reachable(g, start, goal)
    ensures 1 <= steps <= 1 + EdgeCount(g)
  {
    DegreeSumBound(g, visited);
    assert EdgeClosed(g, visited);
    ClosedSetSeparates(g, visited, start, goal);
  }

  /** Dequeuing an already visited node only drops it. */
  lemma SkipKeeps(g: Graph, start: Node, goal: Node, steps: nat, visited: set<Node>,
                  dist: map<Node, nat>, queue: seq<Visit>)
    requires Inv(g, start, goal, steps, visited, dist, queue)
    requires |queue| > 0 && queue[0].node != goal && queue[0].node in visited
    ensures Inv(g, start, goal, steps + 1, visited, dist, queue[1..])
  {
    var q' := queue[1..];
    CoverAfterSkip(g, visited, dist, queue);
    StepPreservesLayers(queue, q');
    if |q'| > 0 {
      StepAdvancesFrontier(g, start, queue, q', visited, dist, visited);
    }
  }

  /** Dequeuing an unvisited node marks it and appends its successors. */
  lemma ExpandKeeps(g: Graph, start: Node, goal: Node, steps: nat, visited: set<Node>,
                    dist: map<Node, nat>, queue: seq<Visit>, q': seq<Visit>)
    requires Inv(g, start, goal, steps, visited, dist, queue)
    requires |queue| > 0 && queue[0].node != goal && queue[0].node !in visited
    requires q' == queue[1..] + Successors(queue[0].path, Neighbors(g, queue[0].node),
                                           visited + {queue[0].node})
    ensures Inv(g, start, goal, steps + 1, visited + {queue[0].node},
                dist[queue[0].node := |queue[0].path|], q')
  {
    var head := queue[0];
    var visited' := visited + {head.node};
    var dist' := dist[head.node := |head.path|];
    ExpansionFacts(g, start, head, visited', queue[1..], q');
    assert Shortest(g, start, dist') by {
      ExpandedShortest(g, start, visited, dist, head);
    }
    assert Layered(q') by {
      StepPreservesLayers(queue, q');
    }
    assert |q'| > 0 ==> ShorterSettled(g, start, visited', |q'[0].path|) by {
      if |q'| > 0 {
        StepPreservesLayers(queue, q');
        StepAdvancesFrontier(g, start, queue, q', visited, dist, visited');
      }
    }
    assert Covered(g, visited', dist', q') by {
      CoverAfterExpansion(g, visited, dist, queue, q');
    }
    assert steps + 1 + |q'| <= 1 + DegreeSum(g, visited') by {
      DegreeSumAdd(g, visited, head.node);
    }
  }

  /**
   * The entries that expanding a node appends: one per edge to a neighbour
   * that is not visited, in edge order, each with the node's path extended
   * by that neighbour.
   */
  function Successors(path: seq<Node>, nbrs: seq<Edge>, visited: set<Node>): seq<Visit>
    decreases |nbrs|
  {
    if |nbrs| == 0 then []
    else
      var last := nbrs[|nbrs| - 1].0;
      Successors(path, nbrs[..|nbrs| - 1], visited)
        + (if last !in visited then [Visit(last, path + [last])] else [])
  }

  /** Some entry of the list is for `n`. */
  ghost predicate Lists(q: seq<Visit>, n: Node) {
    exists j :: 0 <= j < |q| && q[j].node == n
  }

  /**
   * The successors are exactly the unvisited targets: each entry is an
   * unvisited neighbour reached by one more edge, and each unvisited
   * neighbour has an entry.
   */
  lemma {:induction false} SuccessorsSpec(path: seq<Node>, nbrs: seq<Edge>, visited: set<Node>)
    ensures |Successors(path, nbrs, visited)| <= |nbrs|
    ensures forall j :: 0 <= j < |Successors(path, nbrs, visited)| ==>
              var e := Successors(path, nbrs, visited)[j];
              e.path == path + [e.node] && e.node !in visited && LeadsTo(nbrs, e.node)
    ensures forall k :: 0 <= k < |nbrs| && nbrs[k].0 !in visited ==>
              Lists(Successors(path, nbrs, visited), nbrs[k].0)
    decreases |nbrs|
  {
    if |nbrs| > 0 {
      var init := nbrs[..|nbrs| - 1];
      var last := nbrs[|nbrs| - 1].0;
      SuccessorsSpec(path, init, visited);
      var s0 := Successors(path, init, visited);
      var s := Successors(path, nbrs, visited);
      assert s[..|s0|] == s0;
      forall j | 0 <= j < |s|
        ensures s[j].path == path + [s[j].node] && s[j].node !in visited && LeadsTo(nbrs, s[j].node)
      {
        if j < |s0| {
          assert s[j] == s0[j];
          var k :| 0 <= k < |init| && init[k].0 == s[j].node;
          assert nbrs[k] == init[k];
        } else {
          assert s[j].node == last;
          assert nbrs[|nbrs| - 1].0 == last;
        }
      }
      forall k | 0 <= k < |nbrs| && nbrs[k].0 !in visited
        ensures Lists(s, nbrs[k].0)
      {
        if k < |init| {
          assert init[k] == nbrs[k];
          var j :| 0 <= j < |s0| && s0[j].node == nbrs[k].0;
          assert s[j] == s0[j];
        } else {
          assert s[|s| - 1].node == last;
        }
      }
    }
  }

  /**
   * The successors follow the edge list: entry `j` is for the edge at the
   * `j`-th kept position, so there is one entry per edge to an unvisited
   * neighbour (parallel edges included), in edge order.
   */
  lemma {:induction false} SuccessorsInEdgeOrder(path: seq<Node>, nbrs: seq<Edge>, visited: set<Node>)
    returns (ks: seq<nat>)
    ensures KeptIndices(nbrs, visited, ks)
    ensures |Successors(path, nbrs, visited)| == |ks|
    ensures forall j :: 0 <= j < |ks| ==>
              Successors(path, nbrs, visited)[j] == Visit(nbrs[ks[j]].0, path + [nbrs[ks[j]].0])
    decreases |nbrs|
  {
    if |nbrs| == 0 {
      ks := [];
    } else {
      var init := nbrs[..|nbrs| - 1];
      var last := nbrs[|nbrs| - 1];
      var ks0 := SuccessorsInEdgeOrder(path, init, visited);
      KeptIndicesSnoc(nbrs, visited, ks0);
      ks := ks0 + (if last.0 !in visited then [|nbrs| - 1] else []);
      var s0 := Successors(path, init, visited);
      var s := Successors(path, nbrs, visited);
      forall j | 0 <= j < |ks|
        ensures s[j] == Visit(nbrs[ks[j]].0, path + [nbrs[ks[j]].0])
      {
        if j < |ks0| {
          assert s[j] == s0[j] && ks[j] == ks0[j] && init[ks0[j]] == nbrs[ks0[j]];
        }
      }
    }
  }

  /** The neighbour loop: appends the successors of `head` to the queue. */
  method EnqueueNeighbors(g: Graph, head: Visit, visited: set<Node>, queue: seq<Visit>)
    returns (q': seq<Visit>)
    ensures q' == queue + Successors(head.path, Neighbors(g, head.node), visited)
    ensures |queue| <= |q'| && q'[..|queue|] == queue
    ensures exists ks :: KeptIndices(Neighbors(g, head.node), visited, ks)
              && |q'| == |queue| + |ks|
              && forall j :: 0 <= j < |ks| ==>
                   q'[|queue| + j] == Visit(Neighbors(g, head.node)[ks[j]].0,
                                            head.path + [Neighbors(g, head.node)[ks[j]].0])
  {
    var nbrs := Neighbors(g, head.node);
    q' := queue;
    var i := 0;
    while i < |nbrs|
      invariant 0 <= i <= |nbrs|
      invariant q' == queue + Successors(head.path, nbrs[..i], visited)
    {
      assert nbrs[..i + 1][..i] == nbrs[..i];
      if nbrs[i].0 !in visited {
        q' := q' + [Visit(nbrs[i].0, head.path + [nbrs[i].0])];
      }
      i := i + 1;
    }
    assert nbrs[..i] == nbrs;
    var ks := SuccessorsInEdgeOrder(head.path, nbrs, visited);
    assert q'[..|queue|] == queue;
    forall j | 0 <= j < |ks|
      ensures q'[|queue| + j] == Visit(nbrs[ks[j]].0, head.path + [nbrs[ks[j]].0])
    {
      assert q'[|queue| + j] == Successors(head.path, nbrs, visited)[j];
    }
  }

  /** What the rest of the loop needs to know about an expansion's appended entries. */
  lemma ExpansionFacts(g: Graph, start: Node, head: Visit, visited: set<Node>,
                       rest: seq<Visit>, q': seq<Visit>)
    requires WalkFromTo(g, head.path, start, head.node)
    requires Sound(g, start, rest)
    requires q' == rest + Successors(head.path, Neighbors(g, head.node), visited)
    ensures Sound(g, start, q')
    ensures |q'| <= |rest| + Degree(g, head.node)
    ensures q'[..|rest|] == rest
    ensures forall j :: |rest| <= j < |q'| ==> |q'[j].path| == |head.path| + 1
    ensures forall k :: 0 <= k < |Neighbors(g, head.node)| ==>
              Neighbors(g, head.node)[k].0 in visited
              || Queued(q', Neighbors(g, head.node)[k].0, |head.path| + 1)
  {
    var nbrs := Neighbors(g, head.node);
    var succ := Successors(head.path, nbrs, visited);
    SuccessorsSpec(head.path, nbrs, visited);
    assert q'[..|rest|] == rest;
    forall j | 0 <= j < |q'|
      ensures WalkFromTo(g, q'[j].path, start, q'[j].node)
    {
      if j >= |rest| {
        var e := succ[j - |rest|];
        assert q'[j] == e;
        assert HasEdge(g, head.node, e.node);
        ExtendWalkByEdge(g, head.path, e.node);
      } else {
        assert q'[j] == rest[j];
      }
    }
    forall j | |rest| <= j < |q'|
      ensures |q'[j].path| == |head.path| + 1
    {
      assert q'[j] == succ[j - |rest|];
    }
    forall k | 0 <= k < |nbrs| && nbrs[k].0 !in visited
      ensures Queued(q', nbrs[k].0, |head.path| + 1)
    {
      var j :| 0 <= j < |succ| && succ[j].node == nbrs[k].0;
      assert q'[|rest| + j] == succ[j];
    }
  }

  /** The dequeued node, unvisited until now, was reached by a shortest walk. */
  lemma ExpandedShortest(g: Graph, start: Node, visited: set<Node>, dist: map<Node, nat>, head: Visit)
    requires visited == dist.Keys
    requires Shortest(g, start, dist)
    requires ShorterSettled(g, start, visited, |head.path|)
    requires head.node !in visited
    ensures Shortest(g, start, dist[head.node := |head.path|])
  {
  }

  /** Dropping the head and appending entries one node longer keeps the queue layered. */
  lemma StepPreservesLayers(q: seq<Visit>, q': seq<Visit>)
    requires |q| > 0 && Layered(q)
    requires |q'| >= |q| - 1 && q'[..|q| - 1] == q[1..]
    requires forall j :: |q| - 1 <= j < |q'| ==> |q'[j].path| == |q[0].path| + 1
    ensures Layered(q')
  {
    forall j | 0 <= j < |q'|
      ensures |q[0].path| <= |q'[j].path| <= |q[0].path| + 1
    {
      if j < |q| - 1 {
        assert q'[j] == q[j + 1];
      }
    }
    forall i, j | 0 <= i <= j < |q'|
      ensures |q'[i].path| <= |q'[j].path|
    {
      if j < |q| - 1 {
        assert q'[i] == q[i + 1] && q'[j] == q[j + 1];
      }
    }
  }

  /** Dropping an already visited head keeps every neighbour of a visited node covered. */
  lemma CoverAfterSkip(g: Graph, visited: set<Node>, dist: map<Node, nat>, q: seq<Visit>)
    requires |q| > 0 && q[0].node in visited
    requires Covered(g, visited, dist, q)
    ensures Covered(g, visited, dist, q[1..])
  {
    forall u, k | u in dist && 0 <= k < |Neighbors(g, u)|
      ensures Neighbors(g, u)[k].0 in visited || Queued(q[1..], Neighbors(g, u)[k].0, dist[u] + 1)
    {
      var w := Neighbors(g, u)[k].0;
      if w !in visited {
        var i :| 0 <= i < |q| && q[i].node == w && |q[i].path| <= dist[u] + 1;
        assert q[1..][i - 1] == q[i];
      }
    }
  }

  /** Expanding the head keeps every neighbour of a visited node covered. */
  lemma CoverAfterExpansion(g: Graph, visited: set<Node>, dist: map<Node, nat>, q: seq<Visit>, q': seq<Visit>)
    requires |q| > 0 && q[0].node !in visited
    requires Covered(g, visited, dist, q)
    requires |q'| >= |q| - 1 && q'[..|q| - 1] == q[1..]
    requires forall k :: 0 <= k < |Neighbors(g, q[0].node)| ==>
               Neighbors(g, q[0].node)[k].0 in visited + {q[0].node}
               || Queued(q', Neighbors(g, q[0].node)[k].0, |q[0].path| + 1)
    ensures Covered(g, visited + {q[0].node}, dist[q[0].node := |q[0].path|], q')
  {
    var dist' := dist[q[0].node := |q[0].path|];
    forall u, k | u in dist' && 0 <= k < |Neighbors(g, u)|
      ensures Neighbors(g, u)[k].0 in visited + {q[0].node}
              || Queued(q', Neighbors(g, u)[k].0, dist'[u] + 1)
    {
      var w := Neighbors(g, u)[k].0;
      if u != q[0].node && w !in visited + {q[0].node} {
        assert u in dist;
        var i :| 0 <= i < |q| && q[i].node == w && |q[i].path| <= dist[u] + 1;
        assert q'[i - 1] == q[i];
      }
    }
  }

  /**
   * After one iteration every walk from `start` shorter than the new head's
   * path ends at a visited node: a walk of exactly the old head's length
   * either ends at the old head's node or would have left an entry shorter
   * than the new head in the queue.
   */
  lemma StepAdvancesFrontier(g: Graph, start: Node, q: seq<Visit>, q': seq<Visit>,
                             visited: set<Node>, dist: map<Node, nat>, visited': set<Node>)
    requires |q| > 0 && |q'| > 0
    requires Sound(g, start, q) && Layered(q) && Layered(q')
    requires ShorterSettled(g, start, visited, |q[0].path|)
    requires visited == dist.Keys && Shortest(g, start, dist)
    requires Covered(g, visited, dist, q)
    requires visited <= visited' && q[0].node in visited'
    requires |q'| >= |q| - 1 && q'[..|q| - 1] == q[1..]
    requires forall j :: |q| - 1 <= j < |q'| ==> |q'[j].path| == |q[0].path| + 1
    ensures ShorterSettled(g, start, visited', |q'[0].path|)
  {
    var m := |q[0].path|;
    assert |q'[0].path| <= m + 1 by {
      if |q| > 1 {
        assert q'[0] == q[1];
      }
    }
    forall p | IsWalk(g, p) && p[0] == start && |p| < |q'[0].path|
      ensures p[|p| - 1] in visited'
    {
      if |p| >= m {
        assert |p| == m;
        assert WalkFromTo(g, q[0].path, start, q[0].node);
        if m == 1 {
          assert p[|p| - 1] == start == q[0].node;
        } else {
          WalkPrefix(g, p, m - 1);
          var pre := p[..m - 1];
          assert pre[|pre| - 1] == p[m - 2];
          var u := p[m - 2];
          assert u in visited;
          assert dist[u] <= m - 1;
          assert HasEdge(g, u, p[m - 1]);
          var k :| 0 <= k < |Neighbors(g, u)| && Neighbors(g, u)[k].0 == p[m - 1];
          if p[m - 1] !in visited {
            var i :| 0 <= i < |q| && q[i].node == p[m - 1] && |q[i].path| <= dist[u] + 1;
            assert i == 0;
          }
        }
      }
    }
  }
}
