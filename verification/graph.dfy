/**
 * The graph store: a map from node label to that node's outgoing edges,
 * kept in insertion order. Edge insertion is the only mutation.
 */
module Graph {

  /** A node is an opaque label; equality is the only thing that matters. */
  type Node = string

  /** One stored outgoing edge: the neighbour and the (already parsed) cost. */
  type Edge = (Node, int)

  type Graph = map<Node, seq<Edge>>

  /** Existence check used before every search (a key, even with no edges). */
  predicate HasNode(g: Graph, n: Node) {
    n in g
  }

  /** Outgoing edges of `n` in insertion order; none for an unknown node. */
  function Neighbors(g: Graph, n: Node): seq<Edge> {
    if n in g then g[n] else []
  }

  function Degree(g: Graph, n: Node): nat {
    |Neighbors(g, n)|
  }

  /** Some stored edge (there may be several parallel ones) leads from `u` to `v`. */
  ghost predicate HasEdge(g: Graph, u: Node, v: Node) {
    LeadsTo(Neighbors(g, u), v)
  }

  /** Some edge of the list targets `v`. */
  ghost predicate LeadsTo(edges: seq<Edge>, v: Node) {
    exists k :: 0 <= k < |edges| && edges[k].0 == v
  }

  /** Every label the graph mentions, as a key or as an edge target. */
  ghost function Nodes(g: Graph): set<Node> {
    g.Keys + set u, k | u in g && 0 <= k < |g[u]| :: g[u][k].0
  }

  /** Every edge target is itself a key: what insertion maintains. */
  ghost predicate Closed(g: Graph) {
    forall u, k :: u in g && 0 <= k < |g[u]| ==> g[u][k].0 in g
  }

  /**
   * `ks` lists, in increasing order, exactly the positions in `edges` of the
   * edges whose target is outside `avoid`: one position per such edge, so
   * parallel edges each keep their own.
   */
  ghost predicate KeptIndices(edges: seq<Edge>, avoid: set<Node>, ks: seq<nat>) {
    && (forall j :: 0 <= j < |ks| ==> ks[j] < |edges| && edges[ks[j]].0 !in avoid)
    && (forall i, j :: 0 <= i < j < |ks| ==> ks[i] < ks[j])
    && (forall k :: 0 <= k < |edges| && edges[k].0 !in avoid ==> k in ks)
  }

  /** Extending the edge list by one edge extends its kept positions by that edge's, if it is kept. */
  lemma KeptIndicesSnoc(edges: seq<Edge>, avoid: set<Node>, ks: seq<nat>)
    requires |edges| > 0
    requires KeptIndices(edges[..|edges| - 1], avoid, ks)
    ensures KeptIndices(edges, avoid,
                        ks + (if edges[|edges| - 1].0 !in avoid then [|edges| - 1] else []))
  {
    var init := edges[..|edges| - 1];
    var ks' := ks + (if edges[|edges| - 1].0 !in avoid then [|edges| - 1] else []);
    forall j | 0 <= j < |ks'|
      ensures ks'[j] < |edges| && edges[ks'[j]].0 !in avoid
    {
      if j < |ks| {
        assert ks'[j] == ks[j] && init[ks[j]] == edges[ks[j]];
      }
    }
    forall k | 0 <= k < |edges| && edges[k].0 !in avoid
      ensures k in ks'
    {
      if k < |init| {
        assert init[k] == edges[k];
        var j :| 0 <= j < |ks| && ks[j] == k;
        assert ks'[j] == k;
      } else {
        assert ks'[|ks'| - 1] == k;
      }
    }
  }

  lemma NeighborIsNode(g: Graph, u: Node, k: int)
    requires 0 <= k < |Neighbors(g, u)|
    ensures Neighbors(g, u)[k].0 in Nodes(g)
  {
    assert u in g;
    var w := g[u][k].0;
    assert w in set u', k' | u' in g && 0 <= k' < |g[u']| :: g[u'][k'].0;
  }

  // ---------------------------------------------------------------------------
  // Edge insertion
  // ---------------------------------------------------------------------------

  /**
   * The insertion guard: both labels non-empty and a truthy cost. A parsed
   * cost of 0 stands for both zero and NaN; negative costs pass.
   */
  predicate Accepted(from: Node, to: Node, cost: int) {
    from != "" && to != "" && cost != 0
  }

  /**
   * Inserts the edge from -> to. An accepted insertion appends to the
   * `from` list (creating it if needed) and makes sure `to` is a key;
   * a rejected one leaves the graph as it was.
   */
  function AddEdge(g: Graph, from: Node, to: Node, cost: int): (r: Graph)
    ensures Accepted(from, to, cost) ==> r.Keys == g.Keys + {from, to}
    ensures Accepted(from, to, cost) ==> r[from] == Neighbors(g, from) + [(to, cost)]
    ensures Accepted(from, to, cost) ==>
              forall n :: n in r && n != from ==> r[n] == Neighbors(g, n)
    // a corollary of the two clauses above, stated for the `to` key the insertion may create
    ensures Accepted(from, to, cost) && to in g && to != from ==> r[to] == g[to]
    ensures !Accepted(from, to, cost) ==> r == g
  {
    if !Accepted(from, to, cost) then g
    else
      var appended := g[from := Neighbors(g, from) + [(to, cost)]];
      if to in appended then appended else appended[to := []]
  }

  lemma AddEdgePreservesClosed(g: Graph, from: Node, to: Node, cost: int)
    requires Closed(g)
    ensures Closed(AddEdge(g, from, to, cost))
  {
    var r: Graph := AddEdge(g, from, to, cost);
    if Accepted(from, to, cost) {
      forall u: Node, k: int | u in r && 0 <= k < |r[u]|
        ensures r[u][k].0 in r
      {
        var e: Edge := r[u][k];
        if u == from && k == |r[u]| - 1 {
          assert e.0 == to;
        } else if u == from {
          assert r[u][k] == Neighbors(g, from)[k];
        } else {
          assert r[u] == Neighbors(g, u);
        }
      }
    }
  }

  /** One recorded attempt to insert an edge. */
  datatype Insertion = Insertion(from: Node, to: Node, cost: int)

  /** The graph left by a sequence of insertion attempts on an empty store. */
  function Build(log: seq<Insertion>): Graph
    decreases |log|
  {
    if |log| == 0 then map[]
    else
      var e := log[|log| - 1];
      AddEdge(Build(log[..|log| - 1]), e.from, e.to, e.cost)
  }

  /** Reference: the accepted insertions out of `n`, in the order they were made. */
  function EdgesFrom(log: seq<Insertion>, n: Node): seq<Edge>
    decreases |log|
  {
    if |log| == 0 then []
    else
      var e := log[|log| - 1];
      EdgesFrom(log[..|log| - 1], n)
        + (if Accepted(e.from, e.to, e.cost) && e.from == n then [(e.to, e.cost)] else [])
  }

  /** Neighbour order is exactly insertion order of the accepted edges out of `n`. */
  lemma {:induction false} BuildNeighborOrder(log: seq<Insertion>, n: Node)
    ensures Neighbors(Build(log), n) == EdgesFrom(log, n)
    decreases |log|
  {
    if |log| > 0 {
      BuildNeighborOrder(log[..|log| - 1], n);
    }
  }

  /**
   * A label is a node of the built graph exactly when it is an endpoint of an
   * accepted insertion, and every edge target is a node.
   */
  lemma {:induction false} BuildNodes(log: seq<Insertion>)
    ensures forall x :: x in Build(log) <==>
              exists i :: 0 <= i < |log| && Accepted(log[i].from, log[i].to, log[i].cost)
                                         && (log[i].from == x || log[i].to == x)
    ensures Closed(Build(log))
    decreases |log|
  {
    if |log| > 0 {
      var init := log[..|log| - 1];
      var e := log[|log| - 1];
      BuildNodes(init);
      AddEdgePreservesClosed(Build(init), e.from, e.to, e.cost);
      forall x
        ensures x in Build(log) <==>
                  exists i :: 0 <= i < |log| && Accepted(log[i].from, log[i].to, log[i].cost)
                                             && (log[i].from == x || log[i].to == x)
      {
        if x in Build(log) {
          if x in Build(init) {
            var i :| 0 <= i < |init| && Accepted(init[i].from, init[i].to, init[i].cost)
                                      && (init[i].from == x || init[i].to == x);
            assert log[i] == init[i];
          } else {
            assert log[|log| - 1] == e;
          }
        }
        if exists i :: 0 <= i < |log| && Accepted(log[i].from, log[i].to, log[i].cost)
                                      && (log[i].from == x || log[i].to == x) {
          var i :| 0 <= i < |log| && Accepted(log[i].from, log[i].to, log[i].cost)
                                  && (log[i].from == x || log[i].to == x);
          if i < |init| {
            assert init[i] == log[i];
          }
        }
      }
    }
  }

  // ---------------------------------------------------------------------------
  // Edge counting, used to bound the work of the searches
  // ---------------------------------------------------------------------------

  /** Total number of outgoing edges of the nodes in `s`. */
  ghost function DegreeSum(g: Graph, s: set<Node>): nat
    decreases s
  {
    if s == {} then 0
    else
      var x :| x in s;
      Degree(g, x) + DegreeSum(g, s - {x})
  }

  /** Number of stored edges, parallel edges counted separately. */
  ghost function EdgeCount(g: Graph): nat {
    DegreeSum(g, g.Keys)
  }

  lemma {:induction false} DegreeSumRemove(g: Graph, s: set<Node>, y: Node)
    requires y in s
    ensures DegreeSum(g, s) == Degree(g, y) + DegreeSum(g, s - {y})
    decreases s
  {
    var x :| x in s && DegreeSum(g, s) == Degree(g, x) + DegreeSum(g, s - {x});
    if x != y {
      DegreeSumRemove(g, s - {x}, y);
      DegreeSumRemove(g, s - {y}, x);
      assert s - {x} - {y} == s - {y} - {x};
    }
  }

  lemma DegreeSumAdd(g: Graph, s: set<Node>, y: Node)
    requires y !in s
    ensures DegreeSum(g, s + {y}) == DegreeSum(g, s) + Degree(g, y)
  {
    DegreeSumRemove(g, s + {y}, y);
    assert s + {y} - {y} == s;
  }

  /** Labels that are not keys have no edges, so no set of labels exceeds the edge count. */
  lemma {:induction false} DegreeSumBelow(g: Graph, s: set<Node>, t: set<Node>)
    requires s * g.Keys <= t
    ensures DegreeSum(g, s) <= DegreeSum(g, t)
    decreases s
  {
    if s != {} {
      var x :| x in s;
      DegreeSumRemove(g, s, x);
      if x in g {
        DegreeSumRemove(g, t, x);
        DegreeSumBelow(g, s - {x}, t - {x});
      } else {
        DegreeSumBelow(g, s - {x}, t);
      }
    }
  }

  lemma DegreeSumBound(g: Graph, s: set<Node>)
    ensures DegreeSum(g, s) <= EdgeCount(g)
  {
    DegreeSumBelow(g, s, g.Keys);
  }
}
