/**
 * Incidents: temporary slow-downs on a road, identified by its unordered pair
 * of end nodes. An incident multiplies the road's weight while its remaining
 * time is positive.
 */
module Incidents {
  import opened RoadGraph

  /** An incident on the road `a`-`b` (either order) multiplying its weight by `mult`. */
  datatype Incident = Incident(a: int, b: int, mult: real, tRemaining: real)

  function Min(x: int, y: int): int { if x < y then x else y }
  function Max(x: int, y: int): int { if x < y then y else x }
  function MaxReal(x: real, y: real): real { if x < y then y else x }

  /** The unordered pairs `{a, b}` and `{u, v}` are the same road. */
  predicate SameRoad(a: int, b: int, u: int, v: int) {
    Min(a, b) == Min(u, v) && Max(a, b) == Max(u, v)
  }

  /** `inc` is still running and lies on the road `u`-`v`. */
  predicate Affects(inc: Incident, u: int, v: int) {
    inc.tRemaining > 0.0 && SameRoad(inc.a, inc.b, u, v)
  }

  /**
   * `edge_incident_multiplier(u, v)`: starting from 1.0, the largest `mult`
   * of the running incidents on the road `u`-`v`, scanning in order.
   */
  function Multiplier(incs: seq<Incident>, u: int, v: int): (m: real)
    ensures m >= 1.0
    decreases |incs|
  {
    if incs == [] then 1.0
    else
      var m := Multiplier(incs[..|incs| - 1], u, v);
      var inc := incs[|incs| - 1];
      if Affects(inc, u, v) then MaxReal(m, inc.mult) else m
  }

  lemma SameRoadSymmetric(a: int, b: int, u: int, v: int)
    ensures SameRoad(a, b, u, v) <==> SameRoad(a, b, v, u)
  {
  }

  /** The road `u`-`v` is the road `v`-`u`. */
  lemma {:induction false} MultiplierSymmetric(incs: seq<Incident>, u: int, v: int)
    ensures Multiplier(incs, u, v) == Multiplier(incs, v, u)
    decreases |incs|
  {
    if incs != [] {
      MultiplierSymmetric(incs[..|incs| - 1], u, v);
      var inc := incs[|incs| - 1];
      SameRoadSymmetric(inc.a, inc.b, u, v);
    }
  }

  /** The multiplier bounds every running incident on the road, and is 1.0 or one of their factors. */
  lemma {:induction false} MultiplierIsMax(incs: seq<Incident>, u: int, v: int)
    ensures forall k :: 0 <= k < |incs| && Affects(incs[k], u, v) ==> incs[k].mult <= Multiplier(incs, u, v)
    ensures Multiplier(incs, u, v) == 1.0 ||
            exists k :: 0 <= k < |incs| && Affects(incs[k], u, v) && incs[k].mult == Multiplier(incs, u, v)
    decreases |incs|
  {
    if incs != [] {
      var n := |incs|;
      var init := incs[..n - 1];
      MultiplierIsMax(init, u, v);
      assert forall k :: 0 <= k < n - 1 ==> incs[k] == init[k];
      if Multiplier(incs, u, v) != 1.0 && Multiplier(incs, u, v) != Multiplier(init, u, v) {
        assert incs[n - 1].mult == Multiplier(incs, u, v);
      }
    }
  }

  /** A road no running incident lies on keeps its weight. */
  lemma UnaffectedRoad(incs: seq<Incident>, u: int, v: int)
    requires forall k :: 0 <= k < |incs| ==> !Affects(incs[k], u, v)
    ensures Multiplier(incs, u, v) == 1.0
  {
    MultiplierIsMax(incs, u, v);
  }

  // ---------------------------------------------------------------------------
  // Decay.

  /** The first half of `decay_incidents`: a running incident loses `dt` seconds. */
  function Tick(inc: Incident, dt: real): Incident {
    if inc.tRemaining > 0.0 then inc.(tRemaining := inc.tRemaining - dt) else inc
  }

  function TickAll(incs: seq<Incident>, dt: real): (r: seq<Incident>)
    ensures |r| == |incs| && forall k :: 0 <= k < |incs| ==> r[k] == Tick(incs[k], dt)
  {
    seq(|incs|, k requires 0 <= k < |incs| => Tick(incs[k], dt))
  }

  /** The second half: the incidents whose time is up are erased, the others keep their order. */
  function Running(incs: seq<Incident>): (r: seq<Incident>)
    ensures |r| <= |incs|
    decreases |incs|
  {
    if incs == [] then []
    else
      var rest := Running(incs[..|incs| - 1]);
      if incs[|incs| - 1].tRemaining > 0.0 then rest + [incs[|incs| - 1]] else rest
  }

  /** `Running` keeps exactly the incidents with time left. */
  lemma {:induction false} RunningMembers(incs: seq<Incident>)
    ensures forall x :: x in Running(incs) <==> x in incs && x.tRemaining > 0.0
    decreases |incs|
  {
    if incs != [] {
      var init := incs[..|incs| - 1];
      RunningMembers(init);
      assert incs == init + [incs[|incs| - 1]];
    }
  }

  /** `Running` keeps the relative order of what it keeps. */
  lemma {:induction false} RunningOfAppend(s: seq<Incident>, t: seq<Incident>)
    ensures Running(s + t) == Running(s) + Running(t)
    decreases |t|
  {
    if t == [] {
      assert s + t == s;
    } else {
      var t' := t[..|t| - 1];
      RunningOfAppend(s, t');
      assert (s + t)[..|s + t| - 1] == s + t';
      assert (s + t)[|s + t| - 1] == t[|t| - 1];
    }
  }

  /** The incidents left by `decay_incidents(dt)`. */
  function Decayed(incs: seq<Incident>, dt: real): seq<Incident> {
    Running(TickAll(incs, dt))
  }

  /** Decay works incident by incident, so the survivors keep their relative order. */
  lemma DecayedOfAppend(s: seq<Incident>, t: seq<Incident>, dt: real)
    ensures Decayed(s + t, dt) == Decayed(s, dt) + Decayed(t, dt)
  {
    assert TickAll(s + t, dt) == TickAll(s, dt) + TickAll(t, dt);
    RunningOfAppend(TickAll(s, dt), TickAll(t, dt));
  }

  /** After a decay every incident has time left and is a ticked running incident of before. */
  lemma DecayedMembers(incs: seq<Incident>, dt: real)
    ensures forall x :: x in Decayed(incs, dt) ==> x.tRemaining > 0.0
    ensures forall x :: x in Decayed(incs, dt) <==>
      exists k :: 0 <= k < |incs| && incs[k].tRemaining > 0.0 && x == Tick(incs[k], dt) && x.tRemaining > 0.0
  {
    RunningMembers(TickAll(incs, dt));
  }

  /** An incident whose remaining time is at most `dt` is gone after the decay, and its road is back to factor 1.0. */
  lemma ExpiresOnTime(inc: Incident, dt: real)
    requires inc.tRemaining <= dt
    ensures Decayed([inc], dt) == []
    ensures forall u, v :: Multiplier(Decayed([inc], dt), u, v) == 1.0
  {
    assert TickAll([inc], dt) == [Tick(inc, dt)];
    assert [Tick(inc, dt)][..0] == [];
  }

  /** A decay never raises the factor of a road: only running incidents survive, with their `mult`. */
  lemma {:induction false} DecayNeverSlowsDown(incs: seq<Incident>, dt: real, u: int, v: int)
    ensures Multiplier(Decayed(incs, dt), u, v) <= Multiplier(incs, u, v)
  {
    var r := Decayed(incs, dt);
    DecayedMembers(incs, dt);
    MultiplierIsMax(r, u, v);
    MultiplierIsMax(incs, u, v);
    if Multiplier(r, u, v) != 1.0 {
      var k :| 0 <= k < |r| && Affects(r[k], u, v) && r[k].mult == Multiplier(r, u, v);
      assert r[k] in r;
      var k' :| 0 <= k' < |incs| && incs[k'].tRemaining > 0.0 && r[k] == Tick(incs[k'], dt) && r[k].tRemaining > 0.0;
      assert Affects(incs[k'], u, v);
    }
  }

  // ---------------------------------------------------------------------------
  // The roads an incident may be placed on.

  /** The pairs `(u, e.to)` with `u < e.to` among the records `es` of `u`, in order. */
  function RecordPairs(u: int, es: seq<Edge>): seq<(int, int)>
    decreases |es|
  {
    if es == [] then []
    else
      var rest := RecordPairs(u, es[..|es| - 1]);
      var e := es[|es| - 1];
      if u < e.to then rest + [(u, e.to)] else rest
  }

  /** The pairs of the first `n` adjacency lists. */
  function PairsUpTo(adj: seq<seq<Edge>>, n: int): seq<(int, int)>
    requires 0 <= n <= |adj|
  {
    if n == 0 then [] else PairsUpTo(adj, n - 1) + RecordPairs(n - 1, adj[n - 1])
  }

  /** Every road once, as `(smaller end, larger end)`, the list `add_random_incident` picks from. */
  function RoadPairs(adj: seq<seq<Edge>>): seq<(int, int)> {
    PairsUpTo(adj, |adj|)
  }

  lemma {:induction false} RecordPairsMembers(u: int, es: seq<Edge>)
    ensures forall p :: p in RecordPairs(u, es) <==> p.0 == u && u < p.1 && exists j :: 0 <= j < |es| && es[j].to == p.1
    decreases |es|
  {
    if es != [] {
      var init := es[..|es| - 1];
      RecordPairsMembers(u, init);
      forall p ensures p in RecordPairs(u, es) <==> p.0 == u && u < p.1 && exists j :: 0 <= j < |es| && es[j].to == p.1 {
        if p.0 == u && u < p.1 && (exists j :: 0 <= j < |es| && es[j].to == p.1) {
          var j :| 0 <= j < |es| && es[j].to == p.1;
          if j < |es| - 1 {
            assert init[j].to == p.1;
          }
        }
        if p in RecordPairs(u, init) {
          var j :| 0 <= j < |init| && init[j].to == p.1;
          assert es[j].to == p.1;
        }
      }
    }
  }

  lemma {:induction false} PairsUpToMembers(adj: seq<seq<Edge>>, n: int)
    requires 0 <= n <= |adj|
    ensures forall p :: p in PairsUpTo(adj, n) <==> 0 <= p.0 < n && p.0 < p.1 && HasRecord(adj, p.0, p.1)
    decreases n
  {
    if n > 0 {
      PairsUpToMembers(adj, n - 1);
      RecordPairsMembers(n - 1, adj[n - 1]);
    }
  }

  /** The candidate list holds exactly the records `u -> v` with `u < v`. */
  lemma RoadPairsMembers(adj: seq<seq<Edge>>)
    ensures forall p :: p in RoadPairs(adj) <==> p.0 < p.1 && HasRecord(adj, p.0, p.1)
  {
    PairsUpToMembers(adj, |adj|);
  }

  /** In a symmetric graph the list is empty exactly when there is no road between two different nodes. */
  lemma RoadPairsEmpty(adj: seq<seq<Edge>>)
    requires WellFormed(adj) && Symmetric(adj)
    ensures RoadPairs(adj) == [] <==> forall u, j :: 0 <= u < |adj| && 0 <= j < |adj[u]| ==> adj[u][j].to == u
  {
    RoadPairsMembers(adj);
    forall u, j | 0 <= u < |adj| && 0 <= j < |adj[u]|
      ensures adj[u][j].to == u || (Min(u, adj[u][j].to), Max(u, adj[u][j].to)) in RoadPairs(adj)
    {
      var v := adj[u][j].to;
      if v < u {
        RecordBothWays(adj, u, j);
      }
    }
    if RoadPairs(adj) != [] {
      var p := RoadPairs(adj)[0];
      assert p in RoadPairs(adj);
      var j :| 0 <= j < |adj[p.0]| && adj[p.0][j].to == p.1;
    }
  }

  /** A record `u -> v` has a partner `v -> u`, since both directions carry the same weights. */
  lemma RecordBothWays(adj: seq<seq<Edge>>, u: int, j: int)
    requires WellFormed(adj) && Symmetric(adj) && 0 <= u < |adj| && 0 <= j < |adj[u]|
    ensures HasRecord(adj, adj[u][j].to, u)
  {
    var v := adj[u][j].to;
    WeightsToNonEmpty(adj[u], v);
    assert WeightsTo(adj[u], v) == WeightsTo(adj[v], u);
    WeightsToNonEmpty(adj[v], u);
  }
}
