/**
 * Depth-first search over the graph store: a recursive exploration that
 * counts one step per call, tests for the goal before marking the node
 * visited, tries neighbours in edge order and stops at the first success.
 */
module DepthFirst {
  import opened Graph
  import opened Paths
  import opened Results

  /**
   * The search as the page runs it. On success the path is a walk without
   * repeated nodes; on failure every node reachable from the start was
   * visited, once each, so the step count is their number.
   */
  method RunDfs(g: Graph, start: Node, goal: Node) returns (r: SearchResult)
    ensures r.Invalid? <==> !(HasNode(g, start) && HasNode(g, goal))
    ensures r.Found? <==> HasNode(g, start) && HasNode(g, goal) && Reachable(g, start, goal)
    ensures r.Found? ==> WalkFromTo(g, r.path, start, goal) && Distinct(r.path) && r.cost == None
    ensures r.Found? && start == goal ==> r.path == [start] && r.steps == 1
    ensures r.NotFound? ==> r.steps == |ReachableFrom(g, start)|
    ensures !r.Invalid? ==> 1 <= r.steps <= |Nodes(g)|
  {
    if !HasNode(g, start) || !HasNode(g, goal) {
      return Invalid;
    }
    assert IsWalk(g, [start]);
    var found, path, visited, steps := Explore(g, goal, start, [start], {}, 0);
    if found {
      SubsetSize(visited + {goal}, Nodes(g));
      return Found(path, None, steps);
    }
    ClosedSetSeparates(g, visited, start, goal);
    assert visited == ReachableFrom(g, start) by {
      forall x | x in ReachableFrom(g, start)
        ensures x in visited
      {
        var p :| WalkFromTo(g, p, start, x);
        WalkStaysInClosedSet(g, visited, p);
      }
    }
    SubsetSize(visited, Nodes(g));
    return NotFound(steps);
  }

  /**
   * The inner `dfs(node, path)`. The closure's shared `visited` set and step
   * counter are threaded through as arguments and results. On success
   * `result` extends `path` to the goal; on failure `node` and everything
   * newly visited have all their neighbours visited.
   */
  method Explore(g: Graph, goal: Node, node: Node, path: seq<Node>, visited: set<Node>, steps: nat)
    returns (found: bool, result: seq<Node>, visited': set<Node>, steps': nat)
    requires node in Nodes(g) && goal in Nodes(g) && visited <= Nodes(g)
    requires node !in visited && goal !in visited
    requires IsWalk(g, path) && path[|path| - 1] == node && Distinct(path)
    requires forall i :: 0 <= i < |path| - 1 ==> path[i] in visited
    requires forall x :: x in visited ==> Reachable(g, path[0], x)
    ensures visited <= visited' <= Nodes(g)
    ensures goal !in visited'
    ensures steps' == steps + |visited'| - |visited| + (if found then 1 else 0)
    ensures node == goal ==> found && result == path && visited' == visited
    ensures found ==> WalkFromTo(g, result, path[0], goal) && Distinct(result)
    ensures found ==> |path| <= |result| && result[..|path|] == path
    ensures !found ==> node in visited'
    ensures !found ==> forall u, k :: u in visited' - visited && 0 <= k < |Neighbors(g, u)| ==>
                         Neighbors(g, u)[k].0 in visited'
    ensures forall x :: x in visited' ==> Reachable(g, path[0], x)
    decreases Nodes(g) - visited
  {
    steps' := steps + 1;
    if node == goal {
      return true, path, visited, steps';
    }
    assert WalkFromTo(g, path, path[0], node);
    visited' := visited + {node};
    var nbrs := Neighbors(g, node);
    var i := 0;
    while i < |nbrs|
      invariant 0 <= i <= |nbrs|
      invariant visited + {node} <= visited' <= Nodes(g)
      invariant goal !in visited'
      invariant steps' == steps + |visited'| - |visited|
      invariant forall k :: 0 <= k < i ==> nbrs[k].0 in visited'
      invariant forall u, k :: u in visited' - visited && u != node && 0 <= k < |Neighbors(g, u)| ==>
                  Neighbors(g, u)[k].0 in visited'
      invariant forall x :: x in visited' ==> Reachable(g, path[0], x)
    {
      var next := nbrs[i].0;
      if next !in visited' {
        NeighborIsNode(g, node, i);
        assert HasEdge(g, node, next);
        ExtendWalkByEdge(g, path, next);
        var f, res, v, s := Explore(g, goal, next, path + [next], visited', steps');
        if f {
          assert res[..|path|] == (path + [next])[..|path|] == path;
          return true, res, v, s;
        }
        visited', steps' := v, s;
      }
      i := i + 1;
    }
    return false, [], visited', steps';
  }

  lemma {:induction false} SubsetSize<T>(a: set<T>, b: set<T>)
    requires a <= b
    ensures |a| <= |b|
    decreases a
  {
    if a != {} {
      var x :| x in a;
      SubsetSize(a - {x}, b - {x});
    }
  }
}
