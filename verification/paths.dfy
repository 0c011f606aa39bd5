/**
 * Walks through the graph, their edge-cost sums, and reachability: the
 * vocabulary in which the searches' results are stated.
 */
module Paths {
  import opened Graph

  /** A non-empty node sequence in which each consecutive pair is joined by an edge. */
  ghost predicate IsWalk(g: Graph, p: seq<Node>) {
    |p| >= 1 && forall i :: 0 <= i < |p| - 1 ==> HasEdge(g, p[i], p[i + 1])
  }

  ghost predicate WalkFromTo(g: Graph, p: seq<Node>, s: Node, t: Node) {
    IsWalk(g, p) && p[0] == s && p[|p| - 1] == t
  }

  ghost predicate Reachable(g: Graph, s: Node, t: Node) {
    exists p :: WalkFromTo(g, p, s, t)
  }

  /** No node occurs twice. */
  predicate Distinct(p: seq<Node>) {
    forall i, j :: 0 <= i < j < |p| ==> p[i] != p[j]
  }

  /**
   * `ks[i]` says which of `p[i]`'s outgoing edges the walk takes to reach
   * `p[i + 1]`; with parallel edges the node sequence alone does not fix a cost.
   */
  ghost predicate ValidChoices(g: Graph, p: seq<Node>, ks: seq<nat>) {
    && |p| >= 1
    && |ks| == |p| - 1
    && forall i :: 0 <= i < |ks| ==>
         ks[i] < |Neighbors(g, p[i])| && Neighbors(g, p[i])[ks[i]].0 == p[i + 1]
  }

  /** Sum of the costs of the chosen edges. */
  ghost function ChoiceCost(g: Graph, p: seq<Node>, ks: seq<nat>): int
    requires ValidChoices(g, p, ks)
    decreases |ks|
  {
    if |ks| == 0 then 0
    else ChoiceCost(g, p[..|p| - 1], ks[..|ks| - 1]) + Neighbors(g, p[|p| - 2])[ks[|ks| - 1]].1
  }

  ghost predicate WeightedWalkFromTo(g: Graph, p: seq<Node>, ks: seq<nat>, s: Node, t: Node) {
    ValidChoices(g, p, ks) && p[0] == s && p[|p| - 1] == t
  }

  /** Some choice of edges along `p` costs exactly `c`. */
  ghost predicate CostAchievable(g: Graph, p: seq<Node>, c: int) {
    exists ks :: ValidChoices(g, p, ks) && ChoiceCost(g, p, ks) == c
  }

  ghost predicate NonNegative(g: Graph) {
    forall u, k :: u in g && 0 <= k < |g[u]| ==> g[u][k].1 >= 0
  }

  /** No edge leaves `s`: every neighbour of a member is a member. */
  ghost predicate EdgeClosed(g: Graph, s: set<Node>) {
    forall u, k :: u in s && 0 <= k < |Neighbors(g, u)| ==> Neighbors(g, u)[k].0 in s
  }

  /** The labels reachable from `s`. */
  ghost function ReachableFrom(g: Graph, s: Node): set<Node> {
    set x | x in Nodes(g) + {s} && Reachable(g, s, x)
  }

  // ---------------------------------------------------------------------------

  lemma ExtendWalkByEdge(g: Graph, p: seq<Node>, v: Node)
    requires IsWalk(g, p)
    requires HasEdge(g, p[|p| - 1], v)
    ensures IsWalk(g, p + [v])
  {
    var q := p + [v];
    forall i | 0 <= i < |q| - 1
      ensures HasEdge(g, q[i], q[i + 1])
    {
      if i < |p| - 1 {
        assert q[i] == p[i] && q[i + 1] == p[i + 1];
      } else {
        assert q[i] == p[|p| - 1];
      }
    }
  }

  lemma WalkPrefix(g: Graph, p: seq<Node>, n: nat)
    requires IsWalk(g, p)
    requires 1 <= n <= |p|
    ensures IsWalk(g, p[..n])
  {
    var q := p[..n];
    forall i | 0 <= i < |q| - 1
      ensures HasEdge(g, q[i], q[i + 1])
    {
      assert q[i] == p[i] && q[i + 1] == p[i + 1];
    }
  }

  lemma ChoicesFormWalk(g: Graph, p: seq<Node>, ks: seq<nat>)
    requires ValidChoices(g, p, ks)
    ensures IsWalk(g, p)
  {
    forall i | 0 <= i < |p| - 1
      ensures HasEdge(g, p[i], p[i + 1])
    {
      assert Neighbors(g, p[i])[ks[i]].0 == p[i + 1];
    }
  }

  lemma ExtendChoices(g: Graph, p: seq<Node>, ks: seq<nat>, k: nat)
    requires ValidChoices(g, p, ks)
    requires k < |Neighbors(g, p[|p| - 1])|
    ensures ValidChoices(g, p + [Neighbors(g, p[|p| - 1])[k].0], ks + [k])
    ensures ChoiceCost(g, p + [Neighbors(g, p[|p| - 1])[k].0], ks + [k])
            == ChoiceCost(g, p, ks) + Neighbors(g, p[|p| - 1])[k].1
  {
    var q := p + [Neighbors(g, p[|p| - 1])[k].0];
    var ls := ks + [k];
    assert q[..|q| - 1] == p;
    assert ls[..|ls| - 1] == ks;
    forall i | 0 <= i < |ls|
      ensures ls[i] < |Neighbors(g, q[i])| && Neighbors(g, q[i])[ls[i]].0 == q[i + 1]
    {
      if i < |ks| {
        assert ls[i] == ks[i] && q[i] == p[i] && q[i + 1] == p[i + 1];
      }
    }
  }

  lemma ChoicesPrefix(g: Graph, p: seq<Node>, ks: seq<nat>)
    requires ValidChoices(g, p, ks)
    requires |ks| >= 1
    ensures ValidChoices(g, p[..|p| - 1], ks[..|ks| - 1])
    ensures ks[|ks| - 1] < |Neighbors(g, p[|p| - 2])|
    ensures Neighbors(g, p[|p| - 2])[ks[|ks| - 1]].0 == p[|p| - 1]
  {
    var q := p[..|p| - 1];
    var ls := ks[..|ks| - 1];
    forall i | 0 <= i < |ls|
      ensures ls[i] < |Neighbors(g, q[i])| && Neighbors(g, q[i])[ls[i]].0 == q[i + 1]
    {
      assert ls[i] == ks[i] && q[i] == p[i] && q[i + 1] == p[i + 1];
    }
  }

  /** With no negative edge, no walk costs less than nothing. */
  lemma {:induction false} ChoiceCostNonNegative(g: Graph, p: seq<Node>, ks: seq<nat>)
    requires NonNegative(g)
    requires ValidChoices(g, p, ks)
    ensures ChoiceCost(g, p, ks) >= 0
    decreases |ks|
  {
    if |ks| > 0 {
      ChoicesPrefix(g, p, ks);
      ChoiceCostNonNegative(g, p[..|p| - 1], ks[..|ks| - 1]);
      assert p[|p| - 2] in g;
    }
  }

  /** A walk that starts inside an edge-closed set never leaves it. */
  lemma {:induction false} WalkStaysInClosedSet(g: Graph, s: set<Node>, p: seq<Node>)
    requires IsWalk(g, p)
    requires p[0] in s
    requires EdgeClosed(g, s)
    ensures p[|p| - 1] in s
    decreases |p|
  {
    if |p| > 1 {
      var q := p[..|p| - 1];
      assert IsWalk(g, q) by {
        forall i | 0 <= i < |q| - 1
          ensures HasEdge(g, q[i], q[i + 1])
        {
          assert q[i] == p[i] && q[i + 1] == p[i + 1];
        }
      }
      WalkStaysInClosedSet(g, s, q);
      assert HasEdge(g, p[|p| - 2], p[|p| - 1]);
      var k :| 0 <= k < |Neighbors(g, p[|p| - 2])| && Neighbors(g, p[|p| - 2])[k].0 == p[|p| - 1];
    }
  }

  /** If `start` lies in an edge-closed set that misses `goal`, no walk joins them. */
  lemma ClosedSetSeparates(g: Graph, s: set<Node>, start: Node, goal: Node)
    requires start in s && goal !in s
    requires EdgeClosed(g, s)
    ensures !Reachable(g, start, goal)
  {
    if Reachable(g, start, goal) {
      var p :| WalkFromTo(g, p, start, goal);
      WalkStaysInClosedSet(g, s, p);
    }
  }
}
