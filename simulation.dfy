/**
 * The simulation state machine: a fixed road graph, the cars driving on it,
 * the incident registry and the two timers that trigger incidents and
 * rerouting. Random draws are nondeterministic choices within the bounds of
 * their distributions.
 */
module Sim {
  import opened Wrappers
  import opened RoadGraph
  import opened Router
  import opened Routes
  import opened Incidents
  import opened Traffic

  /** The tunable parameters of a run. */
  datatype SimConfig = SimConfig(carCount: int, dt: real, trafficBias: real, rerouteInterval: real,
                                 incidentInterval: real, incidentDuration: real, incidentMultiplier: real)

  /** The parameters a run starts with unless told otherwise. */
  const DefaultConfig: SimConfig := SimConfig(15, 0.016, 1.0, 3.0, 8.0, 10.0, 2.5)

  /** What a run needs of its parameters: routing costs and time never run backwards. */
  predicate ConfigOk(cfg: SimConfig) {
    cfg.trafficBias >= 0.0 && cfg.dt >= 0.0
  }

  /** A run with the default parameters can be started. */
  lemma DefaultConfigOk()
    ensures ConfigOk(DefaultConfig)
  {
  }

  /** A new car's base speed is drawn from `[0.35, 0.65)`. */
  predicate SpeedRange(x: real) {
    0.35 <= x < 0.65
  }

  /** Every node can reach every node. */
  ghost predicate Connected(adj: seq<seq<Edge>>) {
    forall s, t :: 0 <= s < |adj| && 0 <= t < |adj| ==> Reachable(adj, s, t)
  }

  /** A car in a consistent state: on a route between its endpoints, within its segment. */
  ghost predicate CarOk(adj: seq<seq<Edge>>, c: Car) {
    IsRoute(adj, c.path, c.src, c.dst) && c.src != c.dst && CarLike(c) && SpeedRange(c.baseSpeed)
  }

  /** A car as `spawn_cars` creates it: at the start of its route, at its base speed. */
  ghost predicate FreshCar(adj: seq<seq<Edge>>, c: Car) {
    CarOk(adj, c) && c.alive && c.segmentIdx == 0 && c.tAlong == 0.0 && c.speed == c.baseSpeed
      && c.minGap == DefaultMinGap
  }

  /** Car `c` drives a cheapest route between its endpoints under the costs `wf`. */
  ghost predicate OnShortestRoute(adj: seq<seq<Edge>>, wf: Option<(int, int) -> real>, c: Car) {
    ShortestRoute(adj, wf, c.path, c.src, c.dst)
  }

  /**
   * What `recompute_routes` does to car `c` under the routing costs `wf`: when
   * its destination is reachable it gets a new cheapest route from the start,
   * and otherwise it is left alone.
   */
  ghost predicate Rerouted(adj: seq<seq<Edge>>, wf: Option<(int, int) -> real>, c: Car, r: Car) {
    if Reachable(adj, c.src, c.dst) then
      r == c.(path := r.path, segmentIdx := 0, tAlong := 0.0) && IsRoute(adj, r.path, c.src, c.dst)
        && OnShortestRoute(adj, wf, r)
    else r == c
  }

  /**
   * What `add_random_incident` does to the registry: nothing when the graph has
   * no road between two different nodes, and otherwise it appends one incident
   * on such a road, written smaller end first, with the configured factor and
   * duration.
   */
  ghost predicate IncidentAdded(adj: seq<seq<Edge>>, cfg: SimConfig, before: seq<Incident>, after: seq<Incident>) {
    if RoadPairs(adj) == [] then after == before
    else
      |after| == |before| + 1 && after[..|before|] == before &&
      var inc := after[|before|];
      inc.a < inc.b && HasRecord(adj, inc.a, inc.b)
        && inc.mult == cfg.incidentMultiplier && inc.tRemaining == cfg.incidentDuration
  }

  /** The weight factor routing uses: the traffic bias times the road's incident factor. */
  function RouteFactor(bias: real, incs: seq<Incident>): (int, int) -> real {
    (u: int, v: int) => bias * Multiplier(incs, u, v)
  }

  /** The routing costs of a run with traffic bias `bias` under the incidents `incs`. */
  function LiveCost(bias: real, incs: seq<Incident>): Option<(int, int) -> real> {
    Some(RouteFactor(bias, incs))
  }

  /** With a non-negative bias, routing never sees a negative cost. */
  lemma RouteFactorNonNegative(adj: seq<seq<Edge>>, bias: real, incs: seq<Incident>)
    requires NonNegativeWeights(adj) && bias >= 0.0
    ensures NonNegativeCosts(adj, Some(RouteFactor(bias, incs)))
  {
    forall u, j | 0 <= u < |adj| && 0 <= j < |adj[u]|
      ensures Cost(adj, Some(RouteFactor(bias, incs)), u, j) >= 0.0
    {
      var m := Multiplier(incs, u, adj[u][j].to);
      assert RouteFactor(bias, incs)(u, adj[u][j].to) == bias * m;
      assert bias * m >= 0.0;
      assert adj[u][j].w * (bias * m) >= 0.0;
    }
  }

  /** The car loop keeps every car consistent. */
  lemma SweepValid(adj: seq<seq<Edge>>, cars: seq<Car>, incs: seq<Incident>, dt: real)
    requires dt >= 0.0 && forall k :: 0 <= k < |cars| ==> CarOk(adj, cars[k])
    ensures forall k :: 0 <= k < |cars| ==> CarOk(adj, Sweep(cars, |cars|, incs, dt)[k])
  {
    SweepKeeps(cars, |cars|, incs, dt);
  }

  class Simulation {
    const g: Graph
    const cfg: SimConfig
    var cars: seq<Car>
    var incidents: seq<Incident>
    var tAccumReroute: real
    var tAccumIncident: real

    /** The state invariant: a well-formed graph with non-negative weights and consistent cars. */
    ghost predicate Valid()
      reads this, g
    {
      && g.Valid() && NonNegativeWeights(g.adj)
      && ConfigOk(cfg)
      && forall k :: 0 <= k < |cars| ==> CarOk(g.adj, cars[k])
    }

    /** A simulation over the road graph `g`, with no cars and no incidents yet. */
    constructor (g: Graph, cfg: SimConfig)
      requires g.Valid() && NonNegativeWeights(g.adj) && ConfigOk(cfg)
      ensures Valid()
      ensures this.g == g && this.cfg == cfg
      ensures cars == [] && incidents == [] && tAccumReroute == 0.0 && tAccumIncident == 0.0
    {
      this.g := g;
      this.cfg := cfg;
      cars := [];
      incidents := [];
      tAccumReroute := 0.0;
      tAccumIncident := 0.0;
    }

    // -------------------------------------------------------------------------
    // Queries.

    /** `edge_density(u, v)`. */
    method EdgeDensity(u: int, v: int) returns (count: int)
      requires forall k :: 0 <= k < |cars| ==> cars[k].segmentIdx >= 0
      ensures count == Density(cars, u, v)
    {
      var a, b := Min(u, v), Max(u, v);
      count := 0;
      var k := 0;
      while k < |cars|
        invariant 0 <= k <= |cars|
        invariant count == Density(cars[..k], u, v)
      {
        var c := cars[k];
        assert cars[..k + 1][..k] == cars[..k];
        if !(!c.alive || c.segmentIdx >= |c.path| - 1) {
          var cu, cv := c.path[c.segmentIdx], c.path[c.segmentIdx + 1];
          var aa, bb := Min(cu, cv), Max(cu, cv);
          if aa == a && bb == b {
            count := count + 1;
          }
        }
        k := k + 1;
      }
      assert cars[..k] == cars;
    }

    /** `edge_incident_multiplier(u, v)`. */
    method EdgeIncidentMultiplier(u: int, v: int) returns (mult: real)
      ensures mult == Multiplier(incidents, u, v)
    {
      var a, b := Min(u, v), Max(u, v);
      mult := 1.0;
      var k := 0;
      while k < |incidents|
        invariant 0 <= k <= |incidents|
        invariant mult == Multiplier(incidents[..k], u, v)
      {
        var inc := incidents[k];
        assert incidents[..k + 1][..k] == incidents[..k];
        if inc.tRemaining > 0.0 {
          var ia, ib := Min(inc.a, inc.b), Max(inc.a, inc.b);
          if ia == a && ib == b {
            mult := MaxReal(mult, inc.mult);
          }
        }
        k := k + 1;
      }
      assert incidents[..k] == incidents;
    }

    /** The gap check of car `i`: `speed`, held to `GapSpeed` when a car is too close ahead. */
    method CapForGap(i: int, speed: real) returns (s: real)
      requires 0 <= i < |cars|
      ensures s == GapSpeedFor(Blocked(cars, i), speed)
    {
      var c := cars[i];
      var myPos := c.tAlong;
      s := speed;
      var j := 0;
      while j < |cars|
        invariant 0 <= j <= |cars|
        invariant s == GapSpeedFor(exists j' :: 0 <= j' < j && Ahead(cars, i, j'), speed)
      {
        if j != i {
          var o := cars[j];
          if o.alive && o.segmentIdx == c.segmentIdx && o.path == c.path {
            var gap := o.tAlong - myPos;
            if gap > 0.0 && gap < c.minGap {
              s := MinReal(s, GapSpeed);
            }
          }
        }
        assert (exists j' :: 0 <= j' < j + 1 && Ahead(cars, i, j')) <==>
               (exists j' :: 0 <= j' < j && Ahead(cars, i, j')) || Ahead(cars, i, j);
        j := j + 1;
      }
    }

    // -------------------------------------------------------------------------
    // Incidents.

    /** The candidate roads of `add_random_incident`: each record `u -> v` with `u < v`. */
    method CandidateRoads() returns (edges: seq<(int, int)>)
      ensures edges == RoadPairs(g.adj)
    {
      edges := [];
      var u := 0;
      while u < |g.adj|
        invariant 0 <= u <= |g.adj|
        invariant edges == PairsUpTo(g.adj, u)
      {
        var k := 0;
        while k < |g.adj[u]|
          invariant 0 <= k <= |g.adj[u]|
          invariant edges == PairsUpTo(g.adj, u) + RecordPairs(u, g.adj[u][..k])
        {
          var e := g.adj[u][k];
          assert g.adj[u][..k + 1][..k] == g.adj[u][..k];
          if u < e.to {
            edges := edges + [(u, e.to)];
          }
          k := k + 1;
        }
        assert g.adj[u][..k] == g.adj[u];
        u := u + 1;
      }
    }

    /** `add_random_incident`: put a new incident on a road picked at random. */
    method AddRandomIncident()
      modifies this`incidents
      ensures IncidentAdded(g.adj, cfg, old(incidents), incidents)
    {
      var edges := CandidateRoads();
      if |edges| == 0 {
        return;
      }
      var pick :| 0 <= pick < |edges|;
      var (a, b) := edges[pick];
      RoadPairsMembers(g.adj);
      assert edges[pick] in RoadPairs(g.adj);
      incidents := incidents + [Incident(a, b, cfg.incidentMultiplier, cfg.incidentDuration)];
    }

    /** `decay_incidents(dt)`: running incidents lose `dt`, and those whose time is up are erased. */
    method DecayIncidents(dt: real)
      modifies this`incidents
      ensures incidents == Decayed(old(incidents), dt)
    {
      ghost var before := incidents;
      var k := 0;
      while k < |incidents|
        invariant 0 <= k <= |incidents| == |before|
        invariant forall j :: 0 <= j < k ==> incidents[j] == Tick(before[j], dt)
        invariant forall j :: k <= j < |incidents| ==> incidents[j] == before[j]
      {
        var inc := incidents[k];
        if inc.tRemaining > 0.0 {
          incidents := incidents[k := inc.(tRemaining := inc.tRemaining - dt)];
        }
        k := k + 1;
      }
      assert incidents == TickAll(before, dt);
      incidents := Running(incidents);
    }

    // -------------------------------------------------------------------------
    // Routing.

    /**
     * One search and path reconstruction from `s` to `d != s` under the current
     * incidents: a cheapest route exactly when `d` is reachable from `s`, and
     * `[]` otherwise.
     */
    method Route(s: int, d: int) returns (path: seq<int>)
      requires Valid() && 0 <= s < |g.adj| && 0 <= d < |g.adj| && s != d
      ensures path != [] <==> Reachable(g.adj, s, d)
      ensures path != [] ==> IsRoute(g.adj, path, s, d)
      ensures path != [] ==> ShortestRoute(g.adj, LiveCost(cfg.trafficBias, incidents), path, s, d)
    {
      var f := RouteFactor(cfg.trafficBias, incidents);
      RouteFactorNonNegative(g.adj, cfg.trafficBias, incidents);
      var dist, parent := Dijkstra(g, s, Some(f));
      assert TightParents(g.adj, Some(f), dist, parent);
      path := ReconstructPath(s, d, parent);
      TreeRoute(g.adj, Some(f), s, d, dist, parent, path);
    }

    /**
     * `spawn_cars(n)`: `n` new cars, each between two different nodes drawn at
     * random, on the route found for them, with a random base speed.
     */
    method SpawnCars(n: int)
      requires Valid() && Connected(g.adj) && |g.adj| >= 2
      modifies this`cars
      ensures Valid()
      ensures |cars| == |old(cars)| + (if n > 0 then n else 0)
      ensures cars[..|old(cars)|] == old(cars)
      ensures forall k :: |old(cars)| <= k < |cars| ==> FreshCar(g.adj, cars[k])
      ensures forall k :: |old(cars)| <= k < |cars| ==> OnShortestRoute(g.adj, LiveCost(cfg.trafficBias, incidents), cars[k])
    {
      var i := 0;
      while i < n
        invariant 0 <= i <= (if n > 0 then n else 0)
        invariant Valid()
        invariant |cars| == |old(cars)| + i
        invariant cars[..|old(cars)|] == old(cars)
        invariant forall k :: |old(cars)| <= k < |cars| ==> FreshCar(g.adj, cars[k])
        invariant forall k :: |old(cars)| <= k < |cars| ==> OnShortestRoute(g.adj, LiveCost(cfg.trafficBias, incidents), cars[k])
      {
        var c := NewCar();
        cars := cars + [c];
        i := i + 1;
      }
    }

    /** One car of `spawn_cars`: two different nodes drawn at random, the route found between them, a random base speed. */
    method NewCar() returns (c: Car)
      requires Valid() && Connected(g.adj) && |g.adj| >= 2
      ensures FreshCar(g.adj, c) && OnShortestRoute(g.adj, LiveCost(cfg.trafficBias, incidents), c)
    {
      var nodes := |g.adj|;
      var s :| 0 <= s < nodes;
      assert 0 <= (if s == 0 then 1 else 0) < nodes;
      var d :| 0 <= d < nodes && d != s;
      var path := Route(s, d);
      assert Reachable(g.adj, s, d);
      if |path| < 2 {
        assert false;
      }
      assert SpeedRange(0.5);
      var baseSpeed :| SpeedRange(baseSpeed);
      c := Car(path, 0, 0.0, baseSpeed, baseSpeed, DefaultMinGap, s, d, true);
      assert SpeedRange(baseSpeed) && baseSpeed >= 0.0;
    }

    /** `recompute_routes`: every car whose destination is reachable gets a fresh route. */
    method RecomputeRoutes()
      requires Valid()
      modifies this`cars
      ensures Valid()
      ensures |cars| == |old(cars)|
      ensures forall k :: 0 <= k < |cars| ==> Rerouted(g.adj, LiveCost(cfg.trafficBias, incidents), old(cars)[k], cars[k])
    {
      var k := 0;
      while k < |cars|
        invariant 0 <= k <= |cars| == |old(cars)|
        invariant Valid()
        invariant forall j :: 0 <= j < k ==> Rerouted(g.adj, LiveCost(cfg.trafficBias, incidents), old(cars)[j], cars[j])
        invariant forall j :: k <= j < |cars| ==> cars[j] == old(cars)[j]
      {
        RerouteCar(k);
        k := k + 1;
      }
    }

    /** Car `k`'s turn in `recompute_routes`: a fresh route from its origin, when one is found. */
    method RerouteCar(k: int)
      requires Valid() && 0 <= k < |cars|
      modifies this`cars
      ensures Valid()
      ensures |cars| == |old(cars)| && cars == old(cars)[k := cars[k]]
      ensures Rerouted(g.adj, LiveCost(cfg.trafficBias, incidents), old(cars)[k], cars[k])
    {
      var c := cars[k];
      assert CarOk(g.adj, c);
      RouteEnds(g.adj, c.path, c.src, c.dst);
      var path := Route(c.src, c.dst);
      if |path| >= 2 {
        cars := cars[k := c.(path := path, segmentIdx := 0, tAlong := 0.0)];
      }
    }

    // -------------------------------------------------------------------------
    // The tick.

    /** The congestion and incident slowdown of a car with base speed `baseSpeed`. */
    static method Cruise(baseSpeed: real, density: int, incMult: real) returns (speed: real)
      requires density >= 1
      ensures speed == CruiseSpeed(baseSpeed, density, incMult)
    {
      var slowFactor := 1.0 / (1.0 + CongestionPenalty * ((density - 1) as real));
      speed := MaxReal(MinSpeed, baseSpeed * slowFactor);
      assert slowFactor == SlowFactor(density);
      assert speed == MaxReal(MinSpeed, baseSpeed * SlowFactor(density));
      speed := speed / MaxReal(1.0, incMult - IncidentRelief);
    }

    /** The speed car `i` adopts in its turn. */
    method AdoptSpeed(i: int) returns (speed: real)
      requires 0 <= i < |cars| && InTransit(cars[i]) && forall k :: 0 <= k < |cars| ==> cars[k].segmentIdx >= 0
      ensures speed == TurnSpeed(cars, i, incidents)
    {
      var c := cars[i];
      var u, v := c.path[c.segmentIdx], c.path[c.segmentIdx + 1];
      var density := EdgeDensity(u, v);
      DensityCountsSelf(cars, i);
      var incMult := EdgeIncidentMultiplier(u, v);
      speed := Cruise(c.baseSpeed, density, incMult);
      speed := CapForGap(i, speed);
    }

    /** Car `i`'s turn in the car loop of `step`. */
    method AdvanceCar(i: int)
      requires 0 <= i < |cars| && forall k :: 0 <= k < |cars| ==> cars[k].segmentIdx >= 0
      modifies this`cars
      ensures cars == old(cars)[i := MoveCar(old(cars), i, incidents, cfg.dt)]
    {
      var c := cars[i];
      if !c.alive || c.segmentIdx >= |c.path| - 1 {
        cars := cars[i := c.(alive := false)];
        return;
      }
      assert InTransit(c);
      var speed := AdoptSpeed(i);
      assert speed == TurnSpeed(cars, i, incidents);
      var t := c.tAlong + speed * cfg.dt;
      var r: Car;
      if t >= 1.0 {
        r := c.(speed := speed, tAlong := 0.0, segmentIdx := c.segmentIdx + 1);
        if r.segmentIdx >= |r.path| - 1 {
          r := r.(alive := false);
        }
      } else {
        r := c.(speed := speed, tAlong := t);
      }
      assert r == MoveCar(cars, i, incidents, cfg.dt);
      cars := cars[i := r];
    }

    /** The car loop of `step`: every car takes its turn, in order. */
    method MoveCars()
      requires cfg.dt >= 0.0 && forall k :: 0 <= k < |cars| ==> CarLike(cars[k])
      modifies this`cars
      ensures cars == Sweep(old(cars), |old(cars)|, incidents, cfg.dt)
    {
      ghost var before := cars;
      var i := 0;
      while i < |cars|
        invariant 0 <= i <= |cars| == |before|
        invariant cars == Sweep(before, i, incidents, cfg.dt)
      {
        SweepKeeps(before, i, incidents, cfg.dt);
        AdvanceCar(i);
        i := i + 1;
      }
    }

    /** The number of dead cars after the car loop. */
    method CountDead() returns (dead: int)
      ensures dead == DeadCount(cars)
    {
      dead := 0;
      var k := 0;
      while k < |cars|
        invariant 0 <= k <= |cars|
        invariant dead == DeadCount(cars[..k])
      {
        assert cars[..k + 1][..k] == cars[..k];
        if !cars[k].alive {
          dead := dead + 1;
        }
        k := k + 1;
      }
      assert cars[..k] == cars;
    }

    /**
     * The car loop of `step` and the replacement of the cars that arrived: the
     * cars still alive after their turns keep their order and are followed by
     * as many fresh cars as were removed.
     */
    method Drive()
      requires Valid() && Connected(g.adj) && |g.adj| >= 2
      modifies this`cars
      ensures Valid()
      ensures |cars| == |old(cars)|
      ensures forall k :: 0 <= k < |cars| ==> cars[k].alive
      ensures var kept := Survivors(Sweep(old(cars), |old(cars)|, incidents, cfg.dt));
        && cars[..|kept|] == kept
        && forall k :: |kept| <= k < |cars| ==>
             FreshCar(g.adj, cars[k]) && OnShortestRoute(g.adj, LiveCost(cfg.trafficBias, incidents), cars[k])
    {
      ghost var before := cars;
      MoveCars();
      SweepValid(g.adj, before, incidents, cfg.dt);
      ReplaceArrived();
    }

    /** Remove the dead cars, keeping the order of the others, and spawn as many new ones. */
    method ReplaceArrived()
      requires Valid() && Connected(g.adj) && |g.adj| >= 2
      modifies this`cars
      ensures Valid()
      ensures |cars| == |old(cars)|
      ensures forall k :: 0 <= k < |cars| ==> cars[k].alive
      ensures cars[..|Survivors(old(cars))|] == Survivors(old(cars))
      ensures forall k :: |Survivors(old(cars))| <= k < |cars| ==> FreshCar(g.adj, cars[k])
      ensures forall k :: |Survivors(old(cars))| <= k < |cars| ==>
        OnShortestRoute(g.adj, LiveCost(cfg.trafficBias, incidents), cars[k])
    {
      var dead := CountDead();
      SurvivorsCount(cars);
      NoneDead(cars);
      if dead == 0 {
        AllSurvive(cars);
      }
      if dead > 0 {
        cars := Survivors(cars);
        SpawnCars(dead);
      }
    }

    /**
     * `step`: advance the timers, maybe add an incident, move every car,
     * replace the cars that arrived by as many new ones, maybe reroute, and
     * let the incidents decay.
     */
    method Step()
      requires Valid() && Connected(g.adj) && |g.adj| >= 2
      modifies this
      ensures Valid()
      ensures |cars| == |old(cars)|
      ensures forall k :: 0 <= k < |cars| ==> cars[k].alive
      ensures tAccumIncident == if old(tAccumIncident) + cfg.dt >= cfg.incidentInterval then 0.0 else old(tAccumIncident) + cfg.dt
      ensures tAccumReroute == if old(tAccumReroute) + cfg.dt >= cfg.rerouteInterval then 0.0 else old(tAccumReroute) + cfg.dt
      ensures exists mid :: (if old(tAccumIncident) + cfg.dt >= cfg.incidentInterval
                             then IncidentAdded(g.adj, cfg, old(incidents), mid) else mid == old(incidents))
                            && incidents == Decayed(mid, cfg.dt)
    {
      tAccumReroute := tAccumReroute + cfg.dt;
      tAccumIncident := tAccumIncident + cfg.dt;

      if tAccumIncident >= cfg.incidentInterval {
        tAccumIncident := 0.0;
        AddRandomIncident();
      }
      ghost var mid := incidents;

      Drive();

      if tAccumReroute >= cfg.rerouteInterval {
        tAccumReroute := 0.0;
        RecomputeRoutes();
      }

      DecayIncidents(cfg.dt);
    }
  }
}
