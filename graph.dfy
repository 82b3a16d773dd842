/**
 * The road graph: an undirected, weighted multigraph stored as adjacency lists.
 * Every road is kept twice, once in the list of each endpoint, with the same weight.
 */
module RoadGraph {

  /** One adjacency record: the neighbour reached and the travel cost of the road. */
  datatype Edge = Edge(to: int, w: real)

  /** A node's drawing position; routing never reads it. */
  datatype Node = Node(x: real, y: real)

  /** Every adjacency record points at an existing node. */
  ghost predicate WellFormed(adj: seq<seq<Edge>>) {
    forall u, j :: 0 <= u < |adj| && 0 <= j < |adj[u]| ==> 0 <= adj[u][j].to < |adj|
  }

  /** Every road has a non-negative travel cost. */
  ghost predicate NonNegativeWeights(adj: seq<seq<Edge>>) {
    forall u, j :: 0 <= u < |adj| && 0 <= j < |adj[u]| ==> adj[u][j].w >= 0.0
  }

  /** The weights of the records in `es` that point at `v`. */
  function WeightsTo(es: seq<Edge>, v: int): multiset<real>
    decreases |es|
  {
    if es == [] then multiset{}
    else WeightsTo(es[..|es| - 1], v) + (if es[|es| - 1].to == v then multiset{es[|es| - 1].w} else multiset{})
  }

  /**
   * The records pointing from `u` to `v` and those pointing from `v` back to `u`
   * can be paired one-to-one with equal weights; the two records of a self-loop
   * sit in the same list, so there each weight occurs an even number of times.
   */
  ghost predicate Symmetric(adj: seq<seq<Edge>>) {
    && (forall u, v :: 0 <= u < |adj| && 0 <= v < |adj| ==> WeightsTo(adj[u], v) == WeightsTo(adj[v], u))
    && (forall u, x :: 0 <= u < |adj| ==> WeightsTo(adj[u], u)[x] % 2 == 0)
  }

  /** The adjacency lists after `add_edge(u, v, w)`. */
  function WithEdge(adj: seq<seq<Edge>>, u: int, v: int, w: real): (r: seq<seq<Edge>>)
    ensures !(0 <= u < |adj| && 0 <= v < |adj|) ==> r == adj
    ensures 0 <= u < |adj| && 0 <= v < |adj| ==>
      && |r| == |adj|
      && (u != v ==> r[u] == adj[u] + [Edge(v, w)] && r[v] == adj[v] + [Edge(u, w)])
      && (u == v ==> r[u] == adj[u] + [Edge(v, w), Edge(u, w)])
      && (forall x :: 0 <= x < |adj| && x != u && x != v ==> r[x] == adj[x])
  {
    if u < 0 || v < 0 || u >= |adj| || v >= |adj| then adj
    else
      var a := adj[u := adj[u] + [Edge(v, w)]];
      a[v := a[v] + [Edge(u, w)]]
  }

  lemma WeightsToAppend(es: seq<Edge>, e: Edge, v: int)
    ensures WeightsTo(es + [e], v) == WeightsTo(es, v) + (if e.to == v then multiset{e.w} else multiset{})
  {
    assert (es + [e])[..|es|] == es;
  }

  /** `u` has a record leading to `v`. */
  ghost predicate HasRecord(adj: seq<seq<Edge>>, u: int, v: int) {
    0 <= u < |adj| && exists j :: 0 <= j < |adj[u]| && adj[u][j].to == v
  }

  /** Some record of `es` points at `v` exactly when it contributes a weight to `v`. */
  lemma {:induction false} WeightsToNonEmpty(es: seq<Edge>, v: int)
    ensures WeightsTo(es, v) != multiset{} <==> exists j :: 0 <= j < |es| && es[j].to == v
    decreases |es|
  {
    if es != [] {
      var init := es[..|es| - 1];
      WeightsToNonEmpty(init, v);
      assert forall j :: 0 <= j < |init| ==> init[j] == es[j];
      if es[|es| - 1].to == v {
        assert es[|es| - 1].w in WeightsTo(es, v);
      }
    }
  }

  /** What adding the road `u`-`v` contributes to the records from `x` to `y`. */
  function Added(u: int, v: int, w: real, x: int, y: int): multiset<real> {
    (if x == u && y == v then multiset{w} else multiset{}) + (if x == v && y == u then multiset{w} else multiset{})
  }

  lemma WeightsToWithEdge(adj: seq<seq<Edge>>, u: int, v: int, w: real, x: int, y: int)
    requires 0 <= u < |adj| && 0 <= v < |adj| && 0 <= x < |adj|
    ensures WeightsTo(WithEdge(adj, u, v, w)[x], y) == WeightsTo(adj[x], y) + Added(u, v, w, x, y)
  {
    var r := WithEdge(adj, u, v, w);
    if u == v && x == u {
      WeightsToAppend(adj[u], Edge(v, w), y);
      WeightsToAppend(adj[u] + [Edge(v, w)], Edge(u, w), y);
      assert adj[u] + [Edge(v, w), Edge(u, w)] == adj[u] + [Edge(v, w)] + [Edge(u, w)];
    } else if x == u {
      WeightsToAppend(adj[u], Edge(v, w), y);
    } else if x == v {
      WeightsToAppend(adj[v], Edge(u, w), y);
    }
  }

  lemma AddedSymmetric(u: int, v: int, w: real, x: int, y: int, z: real)
    ensures Added(u, v, w, x, y) == Added(u, v, w, y, x)
    ensures Added(u, v, w, x, x)[z] % 2 == 0
  {
  }

  lemma WithEdgePairs(adj: seq<seq<Edge>>, u: int, v: int, w: real, x: int, y: int)
    requires 0 <= u < |adj| && 0 <= v < |adj| && 0 <= x < |adj| && 0 <= y < |adj|
    requires WeightsTo(adj[x], y) == WeightsTo(adj[y], x)
    ensures WeightsTo(WithEdge(adj, u, v, w)[x], y) == WeightsTo(WithEdge(adj, u, v, w)[y], x)
  {
    WeightsToWithEdge(adj, u, v, w, x, y);
    WeightsToWithEdge(adj, u, v, w, y, x);
    AddedSymmetric(u, v, w, x, y, 0.0);
  }

  lemma WithEdgeLoops(adj: seq<seq<Edge>>, u: int, v: int, w: real, x: int, z: real)
    requires 0 <= u < |adj| && 0 <= v < |adj| && 0 <= x < |adj|
    requires WeightsTo(adj[x], x)[z] % 2 == 0
    ensures WeightsTo(WithEdge(adj, u, v, w)[x], x)[z] % 2 == 0
  {
    WeightsToWithEdge(adj, u, v, w, x, x);
    AddedSymmetric(u, v, w, x, x, z);
  }

  /** Adding a road keeps the records of every road paired. */
  lemma WithEdgePreservesSymmetry(adj: seq<seq<Edge>>, u: int, v: int, w: real)
    requires Symmetric(adj)
    ensures Symmetric(WithEdge(adj, u, v, w))
  {
    if 0 <= u < |adj| && 0 <= v < |adj| {
      var r := WithEdge(adj, u, v, w);
      forall x, y | 0 <= x < |r| && 0 <= y < |r|
        ensures WeightsTo(r[x], y) == WeightsTo(r[y], x)
      {
        WithEdgePairs(adj, u, v, w, x, y);
      }
      forall x, z | 0 <= x < |r|
        ensures WeightsTo(r[x], x)[z] % 2 == 0
      {
        WithEdgeLoops(adj, u, v, w, x, z);
      }
    }
  }

  /** A road of non-negative cost keeps every cost non-negative. */
  lemma WithEdgeNonNegative(adj: seq<seq<Edge>>, u: int, v: int, w: real)
    requires NonNegativeWeights(adj) && w >= 0.0
    ensures NonNegativeWeights(WithEdge(adj, u, v, w))
  {
    var r: seq<seq<Edge>> := WithEdge(adj, u, v, w);
    forall x: int, j: int | 0 <= x < |r| && 0 <= j < |r[x]| ensures r[x][j].w >= 0.0 {
      if 0 <= u < |adj| && 0 <= v < |adj| && (x == u || x == v) && j >= |adj[x]| {
      } else {
        assert r[x][j] == adj[x][j];
      }
    }
  }

  /** Adding a road between existing nodes keeps every record in range. */
  lemma WithEdgeWellFormed(adj: seq<seq<Edge>>, u: int, v: int, w: real)
    requires WellFormed(adj)
    ensures WellFormed(WithEdge(adj, u, v, w))
  {
    var r: seq<seq<Edge>> := WithEdge(adj, u, v, w);
    forall x: int, j: int | 0 <= x < |r| && 0 <= j < |r[x]| ensures 0 <= r[x][j].to < |r| {
      if 0 <= u < |adj| && 0 <= v < |adj| && (x == u || x == v) && j >= |adj[x]| {
      } else {
        assert r[x][j] == adj[x][j];
      }
    }
  }

  class Graph {
    var nodes: seq<Node>
    var adj: seq<seq<Edge>>

    /** The object invariant: one list per node, records in range and paired. */
    ghost predicate Valid()
      reads this
    {
      |nodes| == |adj| && WellFormed(adj) && Symmetric(adj)
    }

    /** `Graph(n)`: `n` nodes at the origin and `n` empty adjacency lists. */
    constructor (n: nat)
      ensures Valid()
      ensures nodes == seq(n, _ => Node(0.0, 0.0))
      ensures adj == seq(n, _ => [])
    {
      nodes := seq(n, _ => Node(0.0, 0.0));
      adj := seq(n, _ => []);
    }

    /** `add_edge`: out-of-range endpoints are silently ignored. */
    method AddEdge(u: int, v: int, w: real)
      requires Valid()
      modifies this
      ensures Valid()
      ensures nodes == old(nodes)
      ensures adj == WithEdge(old(adj), u, v, w)
      ensures NonNegativeWeights(old(adj)) && w >= 0.0 ==> NonNegativeWeights(adj)
    {
      if u < 0 || v < 0 || u >= |adj| || v >= |adj| {
        return;
      }
      ghost var before := adj;
      WithEdgePreservesSymmetry(before, u, v, w);
      WithEdgeWellFormed(before, u, v, w);
      if NonNegativeWeights(before) && w >= 0.0 {
        WithEdgeNonNegative(before, u, v, w);
      }
      adj := adj[u := adj[u] + [Edge(v, w)]];
      adj := adj[v := adj[v] + [Edge(u, w)]];
      assert adj == WithEdge(before, u, v, w);
    }
  }
}
