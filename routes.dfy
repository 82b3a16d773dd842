/**
 * Turning the parent pointers of a shortest-path search into the node
 * sequence of a route.
 */
module Routes {
  import opened Wrappers
  import opened RoadGraph
  import opened Router

  /** `s` backwards. */
  function Reverse(s: seq<int>): (r: seq<int>)
    ensures |r| == |s|
    ensures forall i :: 0 <= i < |s| ==> r[i] == s[|s| - 1 - i]
  {
    if s == [] then [] else Reverse(s[1..]) + [s[0]]
  }

  /**
   * `path` is a chain of parent pointers read from the root down: its first
   * node has no parent and each later node's parent is the node before it.
   */
  ghost predicate IsParentChain(parent: seq<int>, path: seq<int>) {
    && (forall i :: 0 <= i < |path| ==> 0 <= path[i] < |parent|)
    && (|path| > 0 ==> parent[path[0]] == -1)
    && (forall i :: 0 < i < |path| ==> parent[path[i]] == path[i - 1])
  }

  /** One step up the chain keeps the root it ends at. */
  lemma ChainStep(parent: seq<int>, v: int, r: int)
    requires 0 <= v < |parent|
    ensures parent[v] == -1 ==> (ChainEndsAt(parent, v, r) <==> v == r)
    ensures parent[v] != -1 ==> (ChainEndsAt(parent, v, r) <==> ChainEndsAt(parent, parent[v], r))
  {
    if parent[v] == -1 {
      if v == r {
        assert ReachesRoot(parent, v, r, 1);
      }
    } else {
      if ChainEndsAt(parent, v, r) {
        var k: nat :| ReachesRoot(parent, v, r, k);
        assert ReachesRoot(parent, parent[v], r, k - 1);
      }
      if ChainEndsAt(parent, parent[v], r) {
        var k: nat :| ReachesRoot(parent, parent[v], r, k);
        assert ReachesRoot(parent, v, r, k + 1);
      }
    }
  }

  /**
   * `reconstruct_path(src, dst, parent)`: follow `parent` from `dst` to the
   * root, reverse, and keep the result only when the root is `src`.
   */
  method ReconstructPath(src: int, dst: int, parent: seq<int>) returns (path: seq<int>)
    requires ChainTerminates(parent, dst)
    ensures path != [] <==> ChainEndsAt(parent, dst, src)
    ensures path != [] ==> path[0] == src && path[|path| - 1] == dst && IsParentChain(parent, path)
    ensures dst == src && 0 <= src < |parent| && parent[src] == -1 ==> path == [src]
  {
    var p: seq<int> := [];
    var v := dst;
    ghost var k: nat :| Terminates(parent, dst, k);
    while v != -1
      invariant Terminates(parent, v, k)
      invariant forall i :: 0 <= i < |p| ==> 0 <= p[i] < |parent|
      invariant p == [] ==> v == dst
      invariant p != [] ==> p[0] == dst && parent[p[|p| - 1]] == v
      invariant forall i :: 0 <= i < |p| - 1 ==> parent[p[i]] == p[i + 1]
      invariant ChainEndsAt(parent, dst, src) <==>
        if v == -1 then p != [] && p[|p| - 1] == src else ChainEndsAt(parent, v, src)
      decreases k
    {
      ChainStep(parent, v, src);
      p := p + [v];
      v := parent[v];
      k := k - 1;
    }
    if dst == src && 0 <= src < |parent| && parent[src] == -1 {
      assert ReachesRoot(parent, src, src, 1);
    }
    p := Reverse(p);
    if p == [] || p[0] != src {
      return [];
    }
    if dst == src && 0 <= src < |parent| && parent[src] == -1 {
      assert IsParentChain(parent, [src]);
      ParentChainUnique(parent, p, [src]);
    }
    return p;
  }

  /** A parent chain is determined by its last node: there is one route per destination. */
  lemma {:induction false} ParentChainUnique(parent: seq<int>, p: seq<int>, q: seq<int>)
    requires IsParentChain(parent, p) && IsParentChain(parent, q)
    requires |p| > 0 && |q| > 0 && p[|p| - 1] == q[|q| - 1]
    ensures p == q
    decreases |p|
  {
    var n, m := |p|, |q|;
    // a node with a predecessor in a chain has a parent, so a chain of one node meets only itself
    assert n > 1 ==> parent[p[n - 1]] == p[n - 2] >= 0;
    assert m > 1 ==> parent[q[m - 1]] == q[m - 2] >= 0;
    if n > 1 && m > 1 {
      ParentChainUnique(parent, p[..n - 1], q[..m - 1]);
      assert p == p[..n - 1] + [p[n - 1]] && q == q[..m - 1] + [q[m - 1]];
    }
  }

  /** Each node of `path` after the first is reached by a road from the node before it. */
  ghost predicate FollowsRoads(adj: seq<seq<Edge>>, path: seq<int>) {
    forall i :: 0 < i < |path| ==> HasRecord(adj, path[i - 1], path[i])
  }

  /** A drivable route of at least one road from `s` to `d`. */
  ghost predicate IsRoute(adj: seq<seq<Edge>>, path: seq<int>, s: int, d: int) {
    |path| >= 2 && path[0] == s && path[|path| - 1] == d && FollowsRoads(adj, path)
  }

  /** A route in a well-formed graph starts and ends at nodes of the graph. */
  lemma RouteEnds(adj: seq<seq<Edge>>, path: seq<int>, s: int, d: int)
    requires WellFormed(adj) && IsRoute(adj, path, s, d)
    ensures 0 <= s < |adj| && 0 <= d < |adj|
  {
    var n := |path|;
    assert HasRecord(adj, path[0], path[1]);
    assert HasRecord(adj, path[n - 2], path[n - 1]);
  }

  /** `hops` drives exactly along `path`: hop `i` leaves `path[i]` by one of its records to `path[i + 1]`. */
  ghost predicate Traces(adj: seq<seq<Edge>>, hops: seq<Hop>, path: seq<int>) {
    && |path| == |hops| + 1
    && forall i :: 0 <= i < |hops| ==>
         ValidHop(adj, hops[i]) && hops[i].from == path[i] && adj[hops[i].from][hops[i].index].to == path[i + 1]
  }

  /** `hops` is a walk from `s` to `d` that no walk from `s` to `d` undercuts under the costs `wf`. */
  ghost predicate Cheapest(adj: seq<seq<Edge>>, wf: Option<(int, int) -> real>, s: int, d: int, hops: seq<Hop>) {
    IsWalk(adj, s, hops, d) && forall other :: IsWalk(adj, s, other, d) ==> WalkCost(adj, wf, hops) <= WalkCost(adj, wf, other)
  }

  /** A route from `s` to `d` that can be driven at the cost of a cheapest walk. */
  ghost predicate ShortestRoute(adj: seq<seq<Edge>>, wf: Option<(int, int) -> real>, path: seq<int>, s: int, d: int) {
    IsRoute(adj, path, s, d) && exists hops :: Traces(adj, hops, path) && Cheapest(adj, wf, s, d, hops)
  }

  /** The parent pointer of `v` stands for a tight record: `dist[v] == dist[parent[v]] + cost`. */
  ghost predicate TightParents(adj: seq<seq<Edge>>, wf: Option<(int, int) -> real>, dist: seq<Distance>, parent: seq<int>)
    requires |dist| == |adj| && |parent| == |adj|
  {
    forall v :: 0 <= v < |adj| && parent[v] != -1 ==>
      && 0 <= parent[v] < |adj| && dist[v].Finite? && dist[parent[v]].Finite?
      && exists j :: 0 <= j < |adj[parent[v]]| && adj[parent[v]][j].to == v
                     && dist[v].value == dist[parent[v]].value + Cost(adj, wf, parent[v], j)
  }

  /**
   * The first `k` nodes of a parent chain from `s` are driven by a walk whose
   * every hop is tight, so the walk costs exactly the distance of its last node.
   */
  lemma {:induction false} TreeWalk(adj: seq<seq<Edge>>, wf: Option<(int, int) -> real>, s: int,
                                    dist: seq<Distance>, parent: seq<int>, path: seq<int>, k: nat)
    returns (hops: seq<Hop>)
    requires |dist| == |adj| && |parent| == |adj| && 0 <= s < |adj| && dist[s] == Finite(0.0)
    requires TightParents(adj, wf, dist, parent)
    requires IsParentChain(parent, path) && |path| > 0 && path[0] == s && 1 <= k <= |path|
    ensures Traces(adj, hops, path[..k]) && IsWalk(adj, s, hops, path[k - 1])
    ensures forall i :: 0 <= i < k ==> dist[path[i]].Finite?
    ensures forall i :: 0 <= i < |hops| ==>
      dist[path[i + 1]].value == dist[path[i]].value + Cost(adj, wf, hops[i].from, hops[i].index)
    ensures WalkCost(adj, wf, hops) == dist[path[k - 1]].value
  {
    if k == 1 {
      hops := [];
    } else {
      var prev := TreeWalk(adj, wf, s, dist, parent, path, k - 1);
      var p, v := path[k - 2], path[k - 1];
      assert parent[v] == p && p >= 0;
      var j :| 0 <= j < |adj[p]| && adj[p][j].to == v && dist[v].value == dist[p].value + Cost(adj, wf, p, j);
      WalkExtend(adj, wf, s, prev, p, j);
      hops := prev + [Hop(p, j)];
      assert forall i :: 0 <= i < |prev| ==> hops[i] == prev[i];
      TracesExtend(adj, prev, path, k, Hop(p, j));
    }
  }

  /** A walk tracing the first `k - 1` nodes, followed by a hop from node `k - 2` to node `k - 1`, traces `k` nodes. */
  lemma TracesExtend(adj: seq<seq<Edge>>, prev: seq<Hop>, path: seq<int>, k: int, h: Hop)
    requires 2 <= k <= |path| && Traces(adj, prev, path[..k - 1])
    requires ValidHop(adj, h) && h.from == path[k - 2] && adj[h.from][h.index].to == path[k - 1]
    ensures Traces(adj, prev + [h], path[..k])
  {
    var hops := prev + [h];
    forall i | 0 <= i < |hops|
      ensures ValidHop(adj, hops[i]) && hops[i].from == path[..k][i] && adj[hops[i].from][hops[i].index].to == path[..k][i + 1]
    {
      if i < |prev| {
        assert hops[i] == prev[i] && path[..k - 1][i] == path[i] && path[..k - 1][i + 1] == path[i + 1];
      }
    }
  }

  /**
   * With the parent pointers and distances of a finished search from `s`, the
   * chain of `d != s` ends at `s` exactly when `d` is reachable. It is then a
   * route along tight records, so it costs `dist[d]`, the cost of the cheapest walk.
   */
  lemma TreeRoute(adj: seq<seq<Edge>>, wf: Option<(int, int) -> real>, s: int, d: int,
                  dist: seq<Distance>, parent: seq<int>, path: seq<int>)
    requires 0 <= d < |adj| && s != d && |dist| == |adj| && |parent| == |adj|
    requires 0 <= s < |adj| && dist[s] == Finite(0.0)
    requires forall v, hops :: IsWalk(adj, s, hops, v) ==>
      0 <= v < |adj| && dist[v].Finite? && dist[v].value <= WalkCost(adj, wf, hops)
    requires forall v :: 0 <= v < |adj| && dist[v].Finite? ==> ChainEndsAt(parent, v, s)
    requires TightParents(adj, wf, dist, parent)
    requires path != [] <==> ChainEndsAt(parent, d, s)
    requires path != [] ==> path[0] == s && path[|path| - 1] == d && IsParentChain(parent, path)
    ensures path != [] <==> Reachable(adj, s, d)
    ensures path != [] ==> IsRoute(adj, path, s, d) && ShortestRoute(adj, wf, path, s, d)
    ensures path != [] ==> exists hops :: Traces(adj, hops, path) && WalkCost(adj, wf, hops) == dist[d].value
  {
    if Reachable(adj, s, d) {
      var hops :| IsWalk(adj, s, hops, d);
    }
    if path != [] {
      var hops := TreeWalk(adj, wf, s, dist, parent, path, |path|);
      assert path[..|path|] == path;
      forall i | 0 < i < |path| ensures HasRecord(adj, path[i - 1], path[i]) {
        assert hops[i - 1].from == path[i - 1];
      }
      assert Cheapest(adj, wf, s, d, hops);
    }
  }
}
