/**
 * Single-source shortest paths over the road graph. Each relaxed edge costs its
 * base weight times a caller-supplied factor; a min-priority queue of
 * (tentative distance, node) pairs drives the search and stale pairs are skipped.
 */
module Router {
  import opened Wrappers
  import opened RoadGraph

  /** A tentative or final distance; `Infinity` is the source's `INF`. */
  datatype Distance = Infinity | Finite(value: real)

  /** The multiplier of the road `u`-`v`: 1.0 when no callback is given. */
  function Factor(weightFactor: Option<(int, int) -> real>, u: int, v: int): real {
    match weightFactor
    case None => 1.0
    case Some(f) => f(u, v)
  }

  /** The effective cost of the `j`-th record of `u`: `e.w * weight_factor(u, e.to)`. */
  function Cost(adj: seq<seq<Edge>>, wf: Option<(int, int) -> real>, u: int, j: int): real
    requires 0 <= u < |adj| && 0 <= j < |adj[u]|
  {
    adj[u][j].w * Factor(wf, u, adj[u][j].to)
  }

  ghost predicate NonNegativeCosts(adj: seq<seq<Edge>>, wf: Option<(int, int) -> real>) {
    forall u, j :: 0 <= u < |adj| && 0 <= j < |adj[u]| ==> Cost(adj, wf, u, j) >= 0.0
  }

  /** `nd` is strictly better than the current distance (`d[v] > nd` with `INF > x`). */
  predicate Improves(nd: real, cur: Distance) {
    cur.Infinity? || nd < cur.value
  }

  // ---------------------------------------------------------------------------
  // Walks and their costs: the reference definition of a shortest distance.

  /** One step of a walk: leave `from` along its `index`-th adjacency record. */
  datatype Hop = Hop(from: int, index: int)

  ghost predicate ValidHop(adj: seq<seq<Edge>>, h: Hop) {
    0 <= h.from < |adj| && 0 <= h.index < |adj[h.from]|
  }

  /** `hops` leads through `adj` from `s` to `t`. */
  ghost predicate IsWalk(adj: seq<seq<Edge>>, s: int, hops: seq<Hop>, t: int)
    decreases |hops|
  {
    if hops == [] then s == t
    else
      var h := hops[|hops| - 1];
      ValidHop(adj, h) && adj[h.from][h.index].to == t && IsWalk(adj, s, hops[..|hops| - 1], h.from)
  }

  /** The sum of the effective costs of the hops. */
  ghost function WalkCost(adj: seq<seq<Edge>>, wf: Option<(int, int) -> real>, hops: seq<Hop>): real
    decreases |hops|
  {
    if hops == [] then 0.0
    else
      var h := hops[|hops| - 1];
      WalkCost(adj, wf, hops[..|hops| - 1]) + (if ValidHop(adj, h) then Cost(adj, wf, h.from, h.index) else 0.0)
  }

  /** Some walk from `s` to `t` costs exactly `c`. */
  ghost predicate Achieved(adj: seq<seq<Edge>>, wf: Option<(int, int) -> real>, s: int, t: int, c: real) {
    exists hops :: IsWalk(adj, s, hops, t) && WalkCost(adj, wf, hops) == c
  }

  /** Some walk leads from `s` to `t`. */
  ghost predicate Reachable(adj: seq<seq<Edge>>, s: int, t: int) {
    exists hops :: IsWalk(adj, s, hops, t)
  }

  lemma WalkExtend(adj: seq<seq<Edge>>, wf: Option<(int, int) -> real>, s: int, hops: seq<Hop>, u: int, j: int)
    requires IsWalk(adj, s, hops, u) && 0 <= u < |adj| && 0 <= j < |adj[u]|
    ensures IsWalk(adj, s, hops + [Hop(u, j)], adj[u][j].to)
    ensures WalkCost(adj, wf, hops + [Hop(u, j)]) == WalkCost(adj, wf, hops) + Cost(adj, wf, u, j)
  {
    assert (hops + [Hop(u, j)])[..|hops|] == hops;
  }

  /** Every edge leaving a reached node `u` among its first `k` records is relaxed. */
  ghost predicate SettledUpTo(adj: seq<seq<Edge>>, wf: Option<(int, int) -> real>, d: seq<Distance>, u: int, k: int)
    requires 0 <= u < |adj| && |d| == |adj| && WellFormed(adj)
  {
    forall j :: 0 <= j < k && j < |adj[u]| ==> RecordRelaxed(adj, wf, d, u, j)
  }

  /** The `j`-th record of a reached node `u` is relaxed: its far end is within its cost of `u`. */
  ghost predicate RecordRelaxed(adj: seq<seq<Edge>>, wf: Option<(int, int) -> real>, d: seq<Distance>, u: int, j: int)
    requires 0 <= u < |adj| && 0 <= j < |adj[u]| && |d| == |adj| && WellFormed(adj)
  {
    d[u].Finite? && d[adj[u][j].to].Finite? && d[adj[u][j].to].value <= d[u].value + Cost(adj, wf, u, j)
  }

  /** The triangle inequality across every edge out of a reached node. */
  ghost predicate Relaxed(adj: seq<seq<Edge>>, wf: Option<(int, int) -> real>, d: seq<Distance>)
    requires |d| == |adj| && WellFormed(adj)
  {
    forall u, j :: 0 <= u < |adj| && d[u].Finite? && 0 <= j < |adj[u]| ==>
      d[adj[u][j].to].Finite? && d[adj[u][j].to].value <= d[u].value + Cost(adj, wf, u, j)
  }

  /** With the triangle inequality and `d[s] == 0`, no walk from `s` is cheaper than `d`. */
  lemma {:induction false} RelaxedBoundsWalks(adj: seq<seq<Edge>>, wf: Option<(int, int) -> real>, d: seq<Distance>,
                                               s: int, hops: seq<Hop>, t: int)
    requires |d| == |adj| && WellFormed(adj) && Relaxed(adj, wf, d)
    requires 0 <= s < |adj| && d[s] == Finite(0.0)
    requires IsWalk(adj, s, hops, t)
    ensures 0 <= t < |adj| && d[t].Finite? && d[t].value <= WalkCost(adj, wf, hops)
    decreases |hops|
  {
    if hops != [] {
      var h := hops[|hops| - 1];
      RelaxedBoundsWalks(adj, wf, d, s, hops[..|hops| - 1], h.from);
    }
  }

  // ---------------------------------------------------------------------------
  // Parent chains.

  /** Following `parent` from `v` reaches the root `r` (parent -1) within `k` steps. */
  ghost predicate ReachesRoot(parent: seq<int>, v: int, r: int, k: nat)
    decreases k
  {
    0 <= v < |parent| && k > 0 &&
    if parent[v] == -1 then v == r else ReachesRoot(parent, parent[v], r, k - 1)
  }

  ghost predicate ChainEndsAt(parent: seq<int>, v: int, r: int) {
    exists k: nat :: ReachesRoot(parent, v, r, k)
  }

  /** Following `parent` from `v` reaches -1 within `k` steps. */
  ghost predicate Terminates(parent: seq<int>, v: int, k: nat)
    decreases k
  {
    v == -1 || (0 <= v < |parent| && k > 0 && Terminates(parent, parent[v], k - 1))
  }

  ghost predicate ChainTerminates(parent: seq<int>, v: int) {
    exists k: nat :: Terminates(parent, v, k)
  }

  lemma {:induction false} ReachesRootMonotone(parent: seq<int>, v: int, r: int, k: nat, k': nat)
    requires ReachesRoot(parent, v, r, k) && k <= k'
    ensures ReachesRoot(parent, v, r, k')
    decreases k
  {
    if parent[v] != -1 {
      ReachesRootMonotone(parent, parent[v], r, k - 1, k' - 1);
    }
  }

  lemma {:induction false} ReachesRootTerminates(parent: seq<int>, v: int, r: int, k: nat)
    requires ReachesRoot(parent, v, r, k)
    ensures Terminates(parent, v, k)
    decreases k
  {
    if parent[v] != -1 {
      ReachesRootTerminates(parent, parent[v], r, k - 1);
    }
  }

  /** Ranks that strictly grow from parent to child make every chain end at `src`. */
  lemma {:induction false} RankedChainsEnd(parent: seq<int>, rank: map<int, nat>, src: int, x: int)
    requires forall y :: y in rank ==>
      && 0 <= y < |parent|
      && (parent[y] == -1 ==> y == src)
      && (parent[y] != -1 ==> parent[y] in rank && rank[parent[y]] < rank[y])
    requires x in rank
    ensures ReachesRoot(parent, x, src, rank[x] + 1)
    decreases rank[x]
  {
    if parent[x] != -1 {
      var p := parent[x];
      RankedChainsEnd(parent, rank, src, p);
      ReachesRootMonotone(parent, p, src, rank[p] + 1, rank[x]);
    }
  }

  // ---------------------------------------------------------------------------
  // The priority queue.

  /** `e` is what `std::priority_queue` with `std::greater` pops: least distance, then least node. */
  predicate IsLeast(e: (real, int), pq: multiset<(real, int)>) {
    e in pq && forall f :: f in pq ==> e.0 < f.0 || (e.0 == f.0 && e.1 <= f.1)
  }

  lemma LeastExists(pq: multiset<(real, int)>)
    requires pq != multiset{}
    ensures exists e :: IsLeast(e, pq)
    decreases |pq|
  {
    var x :| x in pq;
    var rest := pq - multiset{x};
    if rest == multiset{} {
      assert pq == multiset{x} by { assert pq == rest + multiset{x}; }
      assert IsLeast(x, pq);
    } else {
      LeastExists(rest);
      var m :| IsLeast(m, rest);
      if m.0 < x.0 || (m.0 == x.0 && m.1 <= x.1) {
        assert IsLeast(m, pq);
      } else {
        assert IsLeast(x, pq);
      }
    }
  }

  /** The least pair is unique, so the pop is deterministic. */
  lemma LeastUnique(e: (real, int), f: (real, int), pq: multiset<(real, int)>)
    requires IsLeast(e, pq) && IsLeast(f, pq)
    ensures e == f
  {
    assert e.0 <= f.0 && f.0 <= e.0;
  }

  // ---------------------------------------------------------------------------
  // The search invariant.

  /**
   * Proof bookkeeping for the search: the finalized nodes (`done`) and the rest
   * (`todo`), the order in which nodes were finalized (`rank`, `cnt`), the key
   * last popped (`last`), which record each parent pointer stands for (`via`),
   * and a walk realising each finite distance (`wit`).
   */
  datatype Ledger = Ledger(done: set<int>, todo: set<int>, rank: map<int, nat>, cnt: nat,
                           last: real, via: seq<int>, wit: seq<seq<Hop>>)

  ghost predicate Shape(adj: seq<seq<Edge>>, src: int, d: seq<Distance>, parent: seq<int>, L: Ledger) {
    && |d| == |adj| && |parent| == |adj| && |L.via| == |adj| && |L.wit| == |adj|
    && 0 <= src < |adj| && WellFormed(adj)
    && d[src] == Finite(0.0) && parent[src] == -1
    && (forall x :: 0 <= x < |adj| && d[x].Finite? ==> d[x].value >= 0.0)
    && (forall x :: x in L.done <==> x in L.rank)
    && (forall x :: x in L.done ==> 0 <= x < |adj| && d[x].Finite? && d[x].value <= L.last)
    && (forall x :: x in L.todo <==> 0 <= x < |adj| && x !in L.done)
    && (forall x :: x in L.rank ==> L.rank[x] < L.cnt)
  }

  ghost predicate QueueOk(adj: seq<seq<Edge>>, d: seq<Distance>, pq: multiset<(real, int)>, L: Ledger)
    requires |d| == |adj|
  {
    && (forall e :: e in pq ==> 0 <= e.1 < |adj| && d[e.1].Finite? && d[e.1].value <= e.0 && L.last <= e.0)
    && (forall x :: 0 <= x < |adj| && d[x].Finite? && x !in L.done ==> (d[x].value, x) in pq)
    && (forall x :: 0 <= x < |adj| && d[x].Finite? ==> pq[(d[x].value, x)] <= 1)
    && (forall x :: x in L.done && 0 <= x < |adj| && d[x].Finite? ==> (d[x].value, x) !in pq)
  }

  /** Finalized nodes are settled; `cur` (being processed) only for its first `i` records. */
  ghost predicate DoneOk(adj: seq<seq<Edge>>, wf: Option<(int, int) -> real>, d: seq<Distance>, L: Ledger, cur: int, i: int)
    requires |d| == |adj| && WellFormed(adj)
  {
    forall x :: x in L.done && 0 <= x < |adj| ==> SettledUpTo(adj, wf, d, x, if x == cur then i else |adj[x]|)
  }

  ghost predicate TreeOk(adj: seq<seq<Edge>>, wf: Option<(int, int) -> real>, src: int, d: seq<Distance>, parent: seq<int>, L: Ledger)
    requires |d| == |adj| && |parent| == |adj| && |L.via| == |adj|
  {
    && (forall x :: 0 <= x < |adj| && d[x].Infinity? ==> parent[x] == -1)
    && (forall x :: 0 <= x < |adj| && d[x].Finite? && x != src ==> parent[x] != -1)
    && (forall x :: 0 <= x < |adj| && parent[x] != -1 ==>
          && x != src && parent[x] in L.done && 0 <= parent[x] < |adj|
          && 0 <= L.via[x] < |adj[parent[x]]| && adj[parent[x]][L.via[x]].to == x
          && d[x].Finite? && d[parent[x]].Finite?
          && d[x].value == d[parent[x]].value + Cost(adj, wf, parent[x], L.via[x])
          && (x in L.rank ==> parent[x] in L.rank && L.rank[parent[x]] < L.rank[x]))
  }

  ghost predicate WitnessOk(adj: seq<seq<Edge>>, wf: Option<(int, int) -> real>, src: int, d: seq<Distance>, L: Ledger)
    requires |d| == |adj| && |L.wit| == |adj|
  {
    forall x :: 0 <= x < |adj| && d[x].Finite? ==> IsWalk(adj, src, L.wit[x], x) && WalkCost(adj, wf, L.wit[x]) == d[x].value
  }

  ghost predicate InvAt(adj: seq<seq<Edge>>, wf: Option<(int, int) -> real>, src: int, d: seq<Distance>, parent: seq<int>,
                      pq: multiset<(real, int)>, L: Ledger, cur: int, i: int)
  {
    && Shape(adj, src, d, parent, L)
    && QueueOk(adj, d, pq, L)
    && DoneOk(adj, wf, d, L, cur, i)
    && TreeOk(adj, wf, src, d, parent, L)
    && WitnessOk(adj, wf, src, d, L)
  }

  /** Where the search stands: between two pops, or scanning the records of `u` from the `i`-th on. */
  datatype Phase = Between | Scanning(u: int, i: int)

  /**
   * The search invariant in phase `ph`. (The comparison with `true` keeps each
   * use of it a single proof obligation instead of one per conjunct.)
   */
  ghost predicate Inv(adj: seq<seq<Edge>>, wf: Option<(int, int) -> real>, src: int, d: seq<Distance>, parent: seq<int>,
                      pq: multiset<(real, int)>, L: Ledger, ph: Phase)
  {
    match ph
    case Between => InvAt(adj, wf, src, d, parent, pq, L, -1, 0) == true
    case Scanning(u, i) => InvAt(adj, wf, src, d, parent, pq, L, u, i) == true
  }

  /** The ledger after popping the fresh entry of `u` with key `key`: `u` is final. */
  function Mark(L: Ledger, u: int, key: real): Ledger {
    L.(done := L.done + {u}, todo := L.todo - {u}, rank := L.rank[u := L.cnt], cnt := L.cnt + 1, last := key)
  }

  /** The node indices `0 .. n-1`. */
  function NodeRange(n: nat): (r: set<int>)
    ensures forall x :: x in r <==> 0 <= x < n
  {
    if n == 0 then {} else NodeRange(n - 1) + {n - 1}
  }

  /** `du > d[u]`: the popped key is stale. */
  predicate Exceeds(key: real, cur: Distance) {
    cur.Finite? && key > cur.value
  }

  lemma InitialInv(adj: seq<seq<Edge>>, wf: Option<(int, int) -> real>, src: int)
    requires WellFormed(adj) && 0 <= src < |adj|
    ensures var n := |adj|;
      Inv(adj, wf, src, seq(n, _ => Infinity)[src := Finite(0.0)], seq(n, _ => -1), multiset{(0.0, src)},
          Ledger({}, NodeRange(n), map[], 0, 0.0, seq(n, _ => 0), seq(n, _ => [])), Between)
  {
    var n := |adj|;
    var d := seq(n, _ => Infinity)[src := Finite(0.0)];
    var L := Ledger({}, NodeRange(n), map[], 0, 0.0, seq(n, _ => 0), seq(n, (_: int) => []));
    assert WitnessOk(adj, wf, src, d, L) by {
      forall x | 0 <= x < n && d[x].Finite? ensures IsWalk(adj, src, L.wit[x], x) && WalkCost(adj, wf, L.wit[x]) == d[x].value {
        assert x == src;
      }
    }
  }

  lemma PopStale(adj: seq<seq<Edge>>, wf: Option<(int, int) -> real>, src: int, d: seq<Distance>, parent: seq<int>,
                 pq: multiset<(real, int)>, L: Ledger, e: (real, int))
    requires Inv(adj, wf, src, d, parent, pq, L, Between)
    requires IsLeast(e, pq) && Exceeds(e.0, d[e.1])
    ensures Inv(adj, wf, src, d, parent, pq - multiset{e}, L.(last := e.0), Between)
  {
    var pq', L' := pq - multiset{e}, L.(last := e.0);
    assert QueueOk(adj, d, pq', L') by {
      forall x | 0 <= x < |adj| && d[x].Finite? && x !in L.done ensures (d[x].value, x) in pq' {
        assert (d[x].value, x) != e;
      }
    }
    assert InvAt(adj, wf, src, d, parent, pq', L', -1, 0);
  }

  lemma PopFresh(adj: seq<seq<Edge>>, wf: Option<(int, int) -> real>, src: int, d: seq<Distance>, parent: seq<int>,
                 pq: multiset<(real, int)>, L: Ledger, e: (real, int))
    requires Inv(adj, wf, src, d, parent, pq, L, Between)
    requires IsLeast(e, pq) && !Exceeds(e.0, d[e.1])
    ensures d[e.1].Finite? && e.0 == d[e.1].value
    ensures e.1 in L.todo
    ensures Inv(adj, wf, src, d, parent, pq - multiset{e}, Mark(L, e.1, e.0), Scanning(e.1, 0))
  {
    var u := e.1;
    assert InvAt(adj, wf, src, d, parent, pq, L, -1, 0);
    assert u !in L.done;
    FreshShape(adj, src, d, parent, L, u, e.0);
    FreshQueue(adj, d, pq, L, e);
    FreshDone(adj, wf, d, L, u, e.0);
    FreshTree(adj, wf, src, d, parent, L, u, e.0);
    assert InvAt(adj, wf, src, d, parent, pq - multiset{e}, Mark(L, u, e.0), u, 0);
  }

  lemma FreshShape(adj: seq<seq<Edge>>, src: int, d: seq<Distance>, parent: seq<int>, L: Ledger, u: int, key: real)
    requires Shape(adj, src, d, parent, L)
    requires 0 <= u < |adj| && u !in L.done && d[u].Finite? && d[u].value == key && L.last <= key
    ensures Shape(adj, src, d, parent, Mark(L, u, key))
  {
  }

  lemma FreshQueue(adj: seq<seq<Edge>>, d: seq<Distance>, pq: multiset<(real, int)>, L: Ledger, e: (real, int))
    requires |d| == |adj| && QueueOk(adj, d, pq, L)
    requires IsLeast(e, pq) && 0 <= e.1 < |adj| && d[e.1].Finite? && e.0 == d[e.1].value && e.1 !in L.done
    ensures QueueOk(adj, d, pq - multiset{e}, Mark(L, e.1, e.0))
  {
    var pq', L' := pq - multiset{e}, Mark(L, e.1, e.0);
    forall x | 0 <= x < |adj| && d[x].Finite? && x !in L'.done ensures (d[x].value, x) in pq' {
      assert (d[x].value, x) != e;
    }
    assert pq'[e] == 0;
  }

  lemma FreshDone(adj: seq<seq<Edge>>, wf: Option<(int, int) -> real>, d: seq<Distance>, L: Ledger, u: int, key: real)
    requires |d| == |adj| && WellFormed(adj) && DoneOk(adj, wf, d, L, -1, 0)
    ensures DoneOk(adj, wf, d, Mark(L, u, key), u, 0)
  {
    var L' := Mark(L, u, key);
    forall x | x in L'.done && 0 <= x < |adj|
      ensures SettledUpTo(adj, wf, d, x, if x == u then 0 else |adj[x]|)
    {
      if x != u {
        assert x in L.done;
      }
    }
  }

  lemma FreshTree(adj: seq<seq<Edge>>, wf: Option<(int, int) -> real>, src: int, d: seq<Distance>, parent: seq<int>,
                  L: Ledger, u: int, key: real)
    requires |d| == |adj| && |parent| == |adj| && |L.via| == |adj| && TreeOk(adj, wf, src, d, parent, L)
    requires u !in L.rank && forall x :: x in L.done <==> x in L.rank
    requires forall x :: x in L.rank ==> L.rank[x] < L.cnt
    ensures TreeOk(adj, wf, src, d, parent, Mark(L, u, key))
  {
    var L' := Mark(L, u, key);
    forall x | 0 <= x < |adj| && parent[x] != -1 && x in L'.rank
      ensures parent[x] in L'.rank && L'.rank[parent[x]] < L'.rank[x]
    {
      assert parent[x] in L.done;
      if x != u {
        assert x in L.rank;
      }
    }
  }

  /** The ledger after `t` got its new parent `u` through record `i`. */
  function Record(L: Ledger, u: int, i: int, t: int): Ledger
    requires 0 <= t < |L.via| && 0 <= t < |L.wit| && 0 <= u < |L.wit|
  {
    L.(via := L.via[t := i], wit := L.wit[t := L.wit[u] + [Hop(u, i)]])
  }

  lemma RelaxShape(adj: seq<seq<Edge>>, wf: Option<(int, int) -> real>, src: int, d: seq<Distance>, parent: seq<int>,
                   L: Ledger, u: int, i: int, t: int, nd: real)
    requires Shape(adj, src, d, parent, L)
    requires u in L.done && 0 <= i < |adj[u]| && t == adj[u][i].to && nd >= 0.0
    requires t !in L.done && t != src
    ensures Shape(adj, src, d[t := Finite(nd)], parent[t := u], Record(L, u, i, t))
  {
  }

  /** `RelaxEdge`'s queue part, for the ledger that also records the new parent record of `t`. */
  lemma RelaxQueue(adj: seq<seq<Edge>>, d: seq<Distance>, pq: multiset<(real, int)>, L: Ledger, u: int, i: int, t: int, nd: real)
    requires |d| == |adj| && QueueOk(adj, d, pq, L)
    requires 0 <= t < |adj| && Improves(nd, d[t]) && t !in L.done && L.last <= nd
    requires 0 <= t < |L.via| && 0 <= t < |L.wit| && 0 <= u < |L.wit|
    ensures QueueOk(adj, d[t := Finite(nd)], pq + multiset{(nd, t)}, Record(L, u, i, t))
  {
    LoweredQueue(adj, d, pq, L, t, nd);
  }

  /** Lowering `d[t]` to `nd` and queueing `(nd, t)` keeps the queue consistent with the distances. */
  lemma LoweredQueue(adj: seq<seq<Edge>>, d: seq<Distance>, pq: multiset<(real, int)>, L: Ledger, t: int, nd: real)
    requires |d| == |adj| && QueueOk(adj, d, pq, L)
    requires 0 <= t < |adj| && Improves(nd, d[t]) && t !in L.done && L.last <= nd
    ensures QueueOk(adj, d[t := Finite(nd)], pq + multiset{(nd, t)}, L)
  {
    var d', pq' := d[t := Finite(nd)], pq + multiset{(nd, t)};
    assert pq[(nd, t)] == 0;
    forall f | f in pq' ensures 0 <= f.1 < |adj| && d'[f.1].Finite? && d'[f.1].value <= f.0 && L.last <= f.0 {
      if f != (nd, t) {
        assert f in pq;
      }
    }
    forall x | 0 <= x < |adj| && d'[x].Finite? && x !in L.done ensures (d'[x].value, x) in pq' {
      if x != t {
        assert (d[x].value, x) in pq;
      }
    }
    forall x | 0 <= x < |adj| && d'[x].Finite? ensures pq'[(d'[x].value, x)] <= 1 {
      if x != t {
        assert pq'[(d'[x].value, x)] == pq[(d[x].value, x)];
      }
    }
  }

  /** `RelaxEdge`'s part for the finalized nodes, for the ledger that also records the new parent record of `t`. */
  lemma RelaxDone(adj: seq<seq<Edge>>, wf: Option<(int, int) -> real>, d: seq<Distance>, L: Ledger, u: int, i: int, t: int, nd: real)
    requires |d| == |adj| && WellFormed(adj) && DoneOk(adj, wf, d, L, u, i)
    requires 0 <= u < |adj| && d[u].Finite? && 0 <= i < |adj[u]| && t == adj[u][i].to && nd == d[u].value + Cost(adj, wf, u, i)
    requires Improves(nd, d[t]) && t !in L.done
    requires 0 <= t < |L.via| && 0 <= t < |L.wit| && 0 <= u < |L.wit|
    ensures DoneOk(adj, wf, d[t := Finite(nd)], Record(L, u, i, t), u, i + 1)
  {
    LoweredDone(adj, wf, d, L, u, i, t, nd);
  }

  /** Lowering `d[t]` to the offer through record `i` of `u` keeps the finalized nodes settled, one more record of `u`. */
  lemma LoweredDone(adj: seq<seq<Edge>>, wf: Option<(int, int) -> real>, d: seq<Distance>, L: Ledger, u: int, i: int, t: int, nd: real)
    requires |d| == |adj| && WellFormed(adj) && DoneOk(adj, wf, d, L, u, i)
    requires 0 <= u < |adj| && d[u].Finite? && 0 <= i < |adj[u]| && t == adj[u][i].to && nd == d[u].value + Cost(adj, wf, u, i)
    requires Improves(nd, d[t]) && t !in L.done
    ensures DoneOk(adj, wf, d[t := Finite(nd)], L, u, i + 1)
  {
    var d' := d[t := Finite(nd)];
    forall x | x in L.done && 0 <= x < |adj|
      ensures SettledUpTo(adj, wf, d', x, if x == u then i + 1 else |adj[x]|)
    {
      var k := if x == u then i else |adj[x]|;
      SettledLowered(adj, wf, d, x, k, t, nd);
      if x == u {
        SettledExtend(adj, wf, d', u, i);
      }
    }
  }

  /** Lowering the distance of another node keeps a node's relaxed records relaxed. */
  lemma SettledLowered(adj: seq<seq<Edge>>, wf: Option<(int, int) -> real>, d: seq<Distance>, x: int, k: int, t: int, nd: real)
    requires |d| == |adj| && WellFormed(adj) && 0 <= x < |adj| && 0 <= t < |adj| && x != t
    requires SettledUpTo(adj, wf, d, x, k) && Improves(nd, d[t])
    ensures SettledUpTo(adj, wf, d[t := Finite(nd)], x, k)
  {
    var d' := d[t := Finite(nd)];
    assert d'[x] == d[x];
    forall j | 0 <= j < k && j < |adj[x]| ensures RecordRelaxed(adj, wf, d', x, j) {
      assert RecordRelaxed(adj, wf, d, x, j);
    }
  }

  /** A record whose far end is within its cost of a reached node extends the relaxed prefix by one. */
  lemma SettledExtend(adj: seq<seq<Edge>>, wf: Option<(int, int) -> real>, d: seq<Distance>, u: int, i: int)
    requires |d| == |adj| && WellFormed(adj) && 0 <= u < |adj| && 0 <= i < |adj[u]|
    requires SettledUpTo(adj, wf, d, u, i) && d[u].Finite?
    requires d[adj[u][i].to].Finite? && d[adj[u][i].to].value <= d[u].value + Cost(adj, wf, u, i)
    ensures SettledUpTo(adj, wf, d, u, i + 1)
  {
  }

  lemma RelaxTree(adj: seq<seq<Edge>>, wf: Option<(int, int) -> real>, src: int, d: seq<Distance>, parent: seq<int>,
                  L: Ledger, u: int, i: int, t: int, nd: real)
    requires |d| == |adj| && |parent| == |adj| && |L.via| == |adj| && TreeOk(adj, wf, src, d, parent, L)
    requires u in L.done && 0 <= u < |adj| && d[u].Finite? && 0 <= i < |adj[u]| && t == adj[u][i].to
    requires nd == d[u].value + Cost(adj, wf, u, i)
    requires t !in L.done && t !in L.rank && t != src && t != u && 0 <= t < |adj| && |L.wit| == |adj|
    ensures TreeOk(adj, wf, src, d[t := Finite(nd)], parent[t := u], Record(L, u, i, t))
  {
    var d', parent' := d[t := Finite(nd)], parent[t := u];
    var L' := Record(L, u, i, t);
    forall x | 0 <= x < |adj| && parent'[x] != -1
      ensures && x != src && parent'[x] in L'.done && 0 <= parent'[x] < |adj|
              && 0 <= L'.via[x] < |adj[parent'[x]]| && adj[parent'[x]][L'.via[x]].to == x
              && d'[x].Finite? && d'[parent'[x]].Finite?
              && d'[x].value == d'[parent'[x]].value + Cost(adj, wf, parent'[x], L'.via[x])
              && (x in L'.rank ==> parent'[x] in L'.rank && L'.rank[parent'[x]] < L'.rank[x])
    {
      if x != t {
        TreeEdgeKept(adj, wf, src, d, parent, L, u, i, t, nd, x);
      }
    }
  }

  /** The parent record of a node other than `t` is untouched when `t` gets a new parent. */
  lemma TreeEdgeKept(adj: seq<seq<Edge>>, wf: Option<(int, int) -> real>, src: int, d: seq<Distance>, parent: seq<int>,
                     L: Ledger, u: int, i: int, t: int, nd: real, x: int)
    requires |d| == |adj| && |parent| == |adj| && |L.via| == |adj| && TreeOk(adj, wf, src, d, parent, L)
    requires 0 <= u < |adj| && 0 <= t < |adj| && |L.wit| == |adj| && t !in L.done
    requires 0 <= x < |adj| && x != t && parent[x] != -1
    ensures var d', parent', L' := d[t := Finite(nd)], parent[t := u], Record(L, u, i, t);
      && x != src && parent'[x] in L'.done && 0 <= parent'[x] < |adj|
      && 0 <= L'.via[x] < |adj[parent'[x]]| && adj[parent'[x]][L'.via[x]].to == x
      && d'[x].Finite? && d'[parent'[x]].Finite?
      && d'[x].value == d'[parent'[x]].value + Cost(adj, wf, parent'[x], L'.via[x])
      && (x in L'.rank ==> parent'[x] in L'.rank && L'.rank[parent'[x]] < L'.rank[x])
  {
    var d', parent' := d[t := Finite(nd)], parent[t := u];
    assert d'[x] == d[x] && parent'[x] == parent[x] && Record(L, u, i, t).via[x] == L.via[x];
    assert parent[x] in L.done && d'[parent[x]] == d[parent[x]];
  }

  lemma RelaxWitness(adj: seq<seq<Edge>>, wf: Option<(int, int) -> real>, src: int, d: seq<Distance>,
                     L: Ledger, u: int, i: int, t: int, nd: real)
    requires |d| == |adj| && |L.wit| == |adj| && WitnessOk(adj, wf, src, d, L)
    requires 0 <= u < |adj| && d[u].Finite? && 0 <= i < |adj[u]| && t == adj[u][i].to
    requires nd == d[u].value + Cost(adj, wf, u, i) && 0 <= t < |adj| && |L.via| == |adj|
    ensures WitnessOk(adj, wf, src, d[t := Finite(nd)], Record(L, u, i, t))
  {
    WalkExtend(adj, wf, src, L.wit[u], u, i);
  }

  /** What relaxing the `i`-th record of `u` (far end `t`, offered distance `nd`) does to the state. */
  lemma RelaxEdge(adj: seq<seq<Edge>>, wf: Option<(int, int) -> real>, src: int, d: seq<Distance>, parent: seq<int>,
                  pq: multiset<(real, int)>, L: Ledger, u: int, i: int, t: int, nd: real)
    requires NonNegativeCosts(adj, wf) && WellFormed(adj)
    requires |d| == |adj| && |parent| == |adj| && |L.via| == |adj| && |L.wit| == |adj|
    requires 0 <= u < |adj| && 0 <= i < |adj[u]| && t == adj[u][i].to
    requires Inv(adj, wf, src, d, parent, pq, L, Scanning(u, i))
    requires u in L.done && d[u].Finite? && d[u].value == L.last
    requires nd == d[u].value + Cost(adj, wf, u, i)
    ensures Improves(nd, d[t]) ==> t != u && t !in L.done
    ensures Improves(nd, d[t]) ==>
      Inv(adj, wf, src, d[t := Finite(nd)], parent[t := u], pq + multiset{(nd, t)}, Record(L, u, i, t), Scanning(u, i + 1))
    ensures !Improves(nd, d[t]) ==> Inv(adj, wf, src, d, parent, pq, L, Scanning(u, i + 1))
  {
    assert Cost(adj, wf, u, i) >= 0.0;
    if Improves(nd, d[t]) {
      assert t !in L.done;
      assert t != src;
      RelaxShape(adj, wf, src, d, parent, L, u, i, t, nd);
      RelaxQueue(adj, d, pq, L, u, i, t, nd);
      RelaxDone(adj, wf, d, L, u, i, t, nd);
      RelaxTree(adj, wf, src, d, parent, L, u, i, t, nd);
      RelaxWitness(adj, wf, src, d, L, u, i, t, nd);
    } else {
      RelaxNothing(adj, wf, d, L, u, i);
    }
  }

  lemma RelaxNothing(adj: seq<seq<Edge>>, wf: Option<(int, int) -> real>, d: seq<Distance>, L: Ledger, u: int, i: int)
    requires |d| == |adj| && WellFormed(adj) && DoneOk(adj, wf, d, L, u, i)
    requires 0 <= u < |adj| && d[u].Finite? && 0 <= i < |adj[u]|
    requires !Improves(d[u].value + Cost(adj, wf, u, i), d[adj[u][i].to])
    ensures DoneOk(adj, wf, d, L, u, i + 1)
  {
    forall x | x in L.done && 0 <= x < |adj|
      ensures SettledUpTo(adj, wf, d, x, if x == u then i + 1 else |adj[x]|)
    {
      assert SettledUpTo(adj, wf, d, x, if x == u then i else |adj[x]|);
    }
  }

  lemma FinishNode(adj: seq<seq<Edge>>, wf: Option<(int, int) -> real>, src: int, d: seq<Distance>, parent: seq<int>,
                   pq: multiset<(real, int)>, L: Ledger, u: int)
    requires 0 <= u < |adj|
    requires Inv(adj, wf, src, d, parent, pq, L, Scanning(u, |adj[u]|))
    ensures Inv(adj, wf, src, d, parent, pq, L, Between)
  {
    assert DoneOk(adj, wf, d, L, -1, 0) by {
      forall x | x in L.done && 0 <= x < |adj| ensures SettledUpTo(adj, wf, d, x, |adj[x]|) {
        assert SettledUpTo(adj, wf, d, x, if x == u then |adj[u]| else |adj[x]|);
      }
    }
  }

  /** With the queue empty, the invariant yields everything the search promises. */
  lemma Conclude(adj: seq<seq<Edge>>, wf: Option<(int, int) -> real>, src: int, d: seq<Distance>, parent: seq<int>, L: Ledger)
    requires Inv(adj, wf, src, d, parent, multiset{}, L, Between)
    ensures Relaxed(adj, wf, d)
    ensures forall v, hops :: IsWalk(adj, src, hops, v) ==> 0 <= v < |adj| && d[v].Finite? && d[v].value <= WalkCost(adj, wf, hops)
    ensures forall v :: 0 <= v < |adj| && d[v].Finite? ==> Achieved(adj, wf, src, v, d[v].value)
    ensures forall v :: 0 <= v < |adj| && parent[v] != -1 ==>
      && v != src && 0 <= parent[v] < |adj| && d[v].Finite? && d[parent[v]].Finite?
      && exists j :: 0 <= j < |adj[parent[v]]| && adj[parent[v]][j].to == v
                     && d[v].value == d[parent[v]].value + Cost(adj, wf, parent[v], j)
    ensures forall v :: 0 <= v < |adj| && d[v].Finite? ==> ChainEndsAt(parent, v, src)
    ensures forall v :: 0 <= v < |adj| ==> ChainTerminates(parent, v)
  {
    assert Relaxed(adj, wf, d) by {
      forall u, j | 0 <= u < |adj| && d[u].Finite? && 0 <= j < |adj[u]|
        ensures d[adj[u][j].to].Finite? && d[adj[u][j].to].value <= d[u].value + Cost(adj, wf, u, j)
      {
        assert u in L.done;
        assert SettledUpTo(adj, wf, d, u, |adj[u]|);
        assert RecordRelaxed(adj, wf, d, u, j);
      }
    }
    forall v, hops | IsWalk(adj, src, hops, v)
      ensures 0 <= v < |adj| && d[v].Finite? && d[v].value <= WalkCost(adj, wf, hops)
    {
      RelaxedBoundsWalks(adj, wf, d, src, hops, v);
    }
    assert WitnessOk(adj, wf, src, d, L);
    forall v | 0 <= v < |adj| && d[v].Finite? ensures Achieved(adj, wf, src, v, d[v].value) {
      assert IsWalk(adj, src, L.wit[v], v) && WalkCost(adj, wf, L.wit[v]) == d[v].value;
    }
    forall v | 0 <= v < |adj| && parent[v] != -1
      ensures exists j :: 0 <= j < |adj[parent[v]]| && adj[parent[v]][j].to == v
                          && d[v].value == d[parent[v]].value + Cost(adj, wf, parent[v], j)
    {
      assert L.via[v] < |adj[parent[v]]|;
    }
    forall v | 0 <= v < |adj| && d[v].Finite? ensures ChainEndsAt(parent, v, src) {
      assert v in L.done;
      RankedChainsEnd(parent, L.rank, src, v);
    }
    forall v | 0 <= v < |adj| ensures ChainTerminates(parent, v) {
      if d[v].Finite? {
        var k: nat :| ReachesRoot(parent, v, src, k);
        ReachesRootTerminates(parent, v, src, k);
      } else {
        assert Terminates(parent, parent[v], 0);
        assert Terminates(parent, v, 1);
      }
    }
  }

  /** `mult = weight_factor ? weight_factor(u, e.to) : 1; w = e.w * mult` for the `i`-th record `e` of `u`. */
  method EffectiveWeight(adj: seq<seq<Edge>>, weightFactor: Option<(int, int) -> real>, u: int, i: int) returns (w: real)
    requires 0 <= u < |adj| && 0 <= i < |adj[u]|
    ensures w == Cost(adj, weightFactor, u, i)
  {
    var e := adj[u][i];
    var mult := 1.0;
    if weightFactor.Some? {
      mult := weightFactor.value(u, e.to);
    }
    w := e.w * mult;
  }

  /**
   * One iteration of the inner loop: if going through `u` along its `i`-th
   * record `e` is cheaper than `d[e.to]`, lower `d[e.to]`, make `u` its parent
   * and push the new pair.
   */
  method Relax(adj: seq<seq<Edge>>, weightFactor: Option<(int, int) -> real>, src: int, u: int, i: int,
               d0: seq<Distance>, parent0: seq<int>, pq0: multiset<(real, int)>, ghost L0: Ledger)
    returns (dist: seq<Distance>, parent: seq<int>, pq: multiset<(real, int)>, ghost L: Ledger)
    requires NonNegativeCosts(adj, weightFactor) && 0 <= u < |adj| && 0 <= i < |adj[u]|
    requires Inv(adj, weightFactor, src, d0, parent0, pq0, L0, Scanning(u, i))
    requires u in L0.done && d0[u].Finite? && d0[u].value == L0.last
    ensures Inv(adj, weightFactor, src, dist, parent, pq, L, Scanning(u, i + 1))
    ensures u in L.done && dist[u] == d0[u] && dist[u].value == L.last && L.todo == L0.todo
    ensures |dist| == |d0|
  {
    dist, parent, pq, L := d0, parent0, pq0, L0;
    var e := adj[u][i];
    var w := EffectiveWeight(adj, weightFactor, u, i);
    var nd := dist[u].value + w;
    RelaxEdge(adj, weightFactor, src, dist, parent, pq, L, u, i, e.to, nd);
    if Improves(nd, dist[e.to]) {
      dist := dist[e.to := Finite(nd)];
      parent := parent[e.to := u];
      pq := pq + multiset{(nd, e.to)};
      L := Record(L, u, i, e.to);
    }
  }

  /**
   * The inner loop of the search: relax every record of the freshly popped
   * node `u`, pushing each improved neighbour with its new distance.
   */
  method RelaxNeighbours(adj: seq<seq<Edge>>, weightFactor: Option<(int, int) -> real>, src: int, u: int,
                         d0: seq<Distance>, parent0: seq<int>, pq0: multiset<(real, int)>, ghost L0: Ledger)
    returns (dist: seq<Distance>, parent: seq<int>, pq: multiset<(real, int)>, ghost L: Ledger)
    requires NonNegativeCosts(adj, weightFactor) && 0 <= u < |adj|
    requires Inv(adj, weightFactor, src, d0, parent0, pq0, L0, Scanning(u, 0))
    requires u in L0.done && d0[u].Finite? && d0[u].value == L0.last
    ensures Inv(adj, weightFactor, src, dist, parent, pq, L, Between) && L.todo == L0.todo
    // `u` keeps its own distance
    ensures |dist| == |d0| && dist[u] == d0[u]
  {
    dist, parent, pq, L := d0, parent0, pq0, L0;
    var i := 0;
    while i < |adj[u]|
      invariant 0 <= i <= |adj[u]|
      invariant Inv(adj, weightFactor, src, dist, parent, pq, L, Scanning(u, i))
      invariant u in L.done && dist[u] == d0[u] && dist[u].value == L.last && L.todo == L0.todo
      invariant |dist| == |d0|
    {
      dist, parent, pq, L := Relax(adj, weightFactor, src, u, i, dist, parent, pq, L);
      i := i + 1;
    }
    FinishNode(adj, weightFactor, src, dist, parent, pq, L, u);
  }

  /**
   * `dijkstra(g, src, weight_factor)`: the distances and the parent tree of a
   * shortest-path search from `src`, where the record `e` of `u` costs
   * `e.w * weight_factor(u, e.to)` (or `e.w` when no factor is given).
   */
  method Dijkstra(g: Graph, src: int, weightFactor: Option<(int, int) -> real>) returns (dist: seq<Distance>, parent: seq<int>)
    requires WellFormed(g.adj) && 0 <= src < |g.adj|
    requires NonNegativeCosts(g.adj, weightFactor)
    ensures |dist| == |g.adj| && |parent| == |g.adj|
    ensures dist[src] == Finite(0.0) && parent[src] == -1
    // a node is reached exactly when some walk leads to it, and then at the cost of the cheapest walk
    ensures forall v, hops :: IsWalk(g.adj, src, hops, v) ==>
      0 <= v < |g.adj| && dist[v].Finite? && dist[v].value <= WalkCost(g.adj, weightFactor, hops)
    ensures forall v :: 0 <= v < |g.adj| && dist[v].Finite? ==> Achieved(g.adj, weightFactor, src, v, dist[v].value)
    ensures Relaxed(g.adj, weightFactor, dist)
    // the parent pointers form a tree of tight edges rooted at `src`
    ensures forall v :: 0 <= v < |g.adj| && dist[v].Infinity? ==> parent[v] == -1
    ensures forall v :: 0 <= v < |g.adj| && parent[v] != -1 ==>
      && v != src && 0 <= parent[v] < |g.adj| && dist[v].Finite? && dist[parent[v]].Finite?
      && exists j :: 0 <= j < |g.adj[parent[v]]| && g.adj[parent[v]][j].to == v
                     && dist[v].value == dist[parent[v]].value + Cost(g.adj, weightFactor, parent[v], j)
    ensures forall v :: 0 <= v < |g.adj| && dist[v].Finite? ==> ChainEndsAt(parent, v, src)
    ensures forall v :: 0 <= v < |g.adj| ==> ChainTerminates(parent, v)
  {
    ghost var L;
    dist, parent, L := Search(g.adj, src, weightFactor);
    Conclude(g.adj, weightFactor, src, dist, parent, L);
  }

  /** Initialise `d`, `parent` and the queue, then pop until the queue is empty. */
  method Search(adj: seq<seq<Edge>>, src: int, weightFactor: Option<(int, int) -> real>)
    returns (dist: seq<Distance>, parent: seq<int>, ghost L: Ledger)
    requires WellFormed(adj) && 0 <= src < |adj|
    requires NonNegativeCosts(adj, weightFactor)
    ensures Inv(adj, weightFactor, src, dist, parent, multiset{}, L, Between)
  {
    var n := |adj|;
    dist := seq(n, _ => Infinity)[src := Finite(0.0)];
    parent := seq(n, _ => -1);
    var pq: multiset<(real, int)> := multiset{(0.0, src)};
    L := Ledger({}, NodeRange(n), map[], 0, 0.0, seq(n, _ => 0), seq(n, (_: int) => []));
    InitialInv(adj, weightFactor, src);
    while pq != multiset{}
      invariant Inv(adj, weightFactor, src, dist, parent, pq, L, Between)
      decreases |L.todo|, |pq|
    {
      dist, parent, pq, L := PopAndScan(adj, weightFactor, src, dist, parent, pq, L);
    }
  }

  /**
   * One round of the main loop: pop the least pair `(du, u)`; skip it when it
   * is stale (`du > d[u]`), and otherwise relax every record of `u`.
   */
  method PopAndScan(adj: seq<seq<Edge>>, weightFactor: Option<(int, int) -> real>, src: int,
                    d0: seq<Distance>, parent0: seq<int>, pq0: multiset<(real, int)>, ghost L0: Ledger)
    returns (dist: seq<Distance>, parent: seq<int>, pq: multiset<(real, int)>, ghost L: Ledger)
    requires NonNegativeCosts(adj, weightFactor) && pq0 != multiset{}
    requires Inv(adj, weightFactor, src, d0, parent0, pq0, L0, Between)
    ensures Inv(adj, weightFactor, src, dist, parent, pq, L, Between)
    // either a node was finalized, or a stale pair was dropped
    ensures |L.todo| < |L0.todo| || (L.todo == L0.todo && |pq| < |pq0|)
    // a stale least pair is only removed; a fresh one keeps its node's distance
    ensures forall e :: IsLeast(e, pq0) && Exceeds(e.0, d0[e.1]) ==>
      dist == d0 && parent == parent0 && pq == pq0 - multiset{e}
    ensures forall e :: IsLeast(e, pq0) && !Exceeds(e.0, d0[e.1]) ==>
      0 <= e.1 < |dist| && dist[e.1] == d0[e.1] && dist[e.1] == Finite(e.0)
  {
    LeastExists(pq0);
    var top :| IsLeast(top, pq0);
    forall e | IsLeast(e, pq0) ensures e == top {
      LeastUnique(e, top, pq0);
    }
    var du, u := top.0, top.1;
    if Exceeds(du, d0[u]) {
      PopStale(adj, weightFactor, src, d0, parent0, pq0, L0, top);
      dist, parent, pq, L := d0, parent0, pq0 - multiset{top}, L0.(last := du);
    } else {
      dist, parent, pq, L := ScanFresh(adj, weightFactor, src, d0, parent0, pq0, L0, top);
    }
  }

  /** The fresh least pair `top = (du, u)` is popped: `u` is final, and every record of `u` is relaxed. */
  method ScanFresh(adj: seq<seq<Edge>>, weightFactor: Option<(int, int) -> real>, src: int,
                   d0: seq<Distance>, parent0: seq<int>, pq0: multiset<(real, int)>, ghost L0: Ledger, top: (real, int))
    returns (dist: seq<Distance>, parent: seq<int>, pq: multiset<(real, int)>, ghost L: Ledger)
    requires NonNegativeCosts(adj, weightFactor)
    requires Inv(adj, weightFactor, src, d0, parent0, pq0, L0, Between)
    requires IsLeast(top, pq0) && !Exceeds(top.0, d0[top.1])
    ensures Inv(adj, weightFactor, src, dist, parent, pq, L, Between)
    ensures |L.todo| < |L0.todo|
    ensures 0 <= top.1 < |dist| && dist[top.1] == d0[top.1] && dist[top.1] == Finite(top.0)
  {
    var du, u := top.0, top.1;
    PopFresh(adj, weightFactor, src, d0, parent0, pq0, L0, top);
    assert L0.todo == (L0.todo - {u}) + {u};
    dist, parent, pq, L := RelaxNeighbours(adj, weightFactor, src, u, d0, parent0, pq0 - multiset{top}, Mark(L0, u, du));
  }
}
