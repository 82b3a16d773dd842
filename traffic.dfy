/**
 * Cars and one tick of their movement: the occupancy of a road, the speed a
 * car adopts for congestion, incidents and the gap to the car ahead, and the
 * advance along its route.
 */
module Traffic {
  import opened RoadGraph
  import opened Incidents

  /**
   * A car following `path`, currently on the segment `path[segmentIdx]` ->
   * `path[segmentIdx + 1]`, a fraction `tAlong` of the way along it.
   */
  datatype Car = Car(path: seq<int>, segmentIdx: int, tAlong: real, speed: real, baseSpeed: real,
                     minGap: real, src: int, dst: int, alive: bool)

  /** The default gap a car keeps to the car ahead on its segment. */
  const DefaultMinGap: real := 0.025
  /** The floor on a congested car's speed before the incident slowdown. */
  const MinSpeed: real := 0.15
  /** The slowdown per further car sharing the road. */
  const CongestionPenalty: real := 0.15
  /** The speed of a car that is too close to the car ahead. */
  const GapSpeed: real := 0.1
  /** An incident's factor is eased by this much before it divides the speed. */
  const IncidentRelief: real := 0.5

  function MinReal(x: real, y: real): real { if x < y then x else y }

  /** The car is alive and has a segment left to drive. */
  predicate InTransit(c: Car) {
    c.alive && 0 <= c.segmentIdx < |c.path| - 1
  }

  /** The car is in transit on the road `u`-`v`, in either direction. */
  predicate OnRoad(c: Car, u: int, v: int) {
    InTransit(c) && SameRoad(c.path[c.segmentIdx], c.path[c.segmentIdx + 1], u, v)
  }

  // ---------------------------------------------------------------------------
  // Occupancy.

  /** `edge_density(u, v)`: the number of cars in transit on the road `u`-`v`. */
  function Density(cars: seq<Car>, u: int, v: int): (n: nat)
    ensures n <= |cars|
    decreases |cars|
  {
    if cars == [] then 0
    else Density(cars[..|cars| - 1], u, v) + (if OnRoad(cars[|cars| - 1], u, v) then 1 else 0)
  }

  /** Occupancy is a property of the road, not of its direction. */
  lemma {:induction false} DensitySymmetric(cars: seq<Car>, u: int, v: int)
    ensures Density(cars, u, v) == Density(cars, v, u)
    decreases |cars|
  {
    if cars != [] {
      DensitySymmetric(cars[..|cars| - 1], u, v);
      var c := cars[|cars| - 1];
      if InTransit(c) {
        SameRoadSymmetric(c.path[c.segmentIdx], c.path[c.segmentIdx + 1], u, v);
      }
    }
  }

  /** A road is occupied exactly when some car is in transit on it. */
  lemma {:induction false} DensityPositive(cars: seq<Car>, u: int, v: int)
    ensures Density(cars, u, v) > 0 <==> exists k :: 0 <= k < |cars| && OnRoad(cars[k], u, v)
    decreases |cars|
  {
    if cars != [] {
      var init := cars[..|cars| - 1];
      DensityPositive(init, u, v);
      assert forall k :: 0 <= k < |init| ==> init[k] == cars[k];
    }
  }

  /** A car in transit counts itself on its own segment. */
  lemma DensityCountsSelf(cars: seq<Car>, i: int)
    requires 0 <= i < |cars| && InTransit(cars[i])
    ensures Density(cars, cars[i].path[cars[i].segmentIdx], cars[i].path[cars[i].segmentIdx + 1]) >= 1
  {
    var c := cars[i];
    assert OnRoad(c, c.path[c.segmentIdx], c.path[c.segmentIdx + 1]);
    DensityPositive(cars, c.path[c.segmentIdx], c.path[c.segmentIdx + 1]);
  }

  // ---------------------------------------------------------------------------
  // Speed.

  /**
   * Car `j` is another alive car on the same route and segment as car `i`,
   * ahead of it by less than car `i`'s minimum gap.
   */
  predicate Ahead(cars: seq<Car>, i: int, j: int)
    requires 0 <= i < |cars| && 0 <= j < |cars|
  {
    j != i && cars[j].alive && cars[j].segmentIdx == cars[i].segmentIdx && cars[j].path == cars[i].path
      && 0.0 < cars[j].tAlong - cars[i].tAlong < cars[i].minGap
  }

  /** Some car is too close ahead of car `i`. */
  predicate Blocked(cars: seq<Car>, i: int)
    requires 0 <= i < |cars|
  {
    exists j :: 0 <= j < |cars| && Ahead(cars, i, j)
  }

  /** The congestion slowdown `1 / (1 + 0.15 (density - 1))`. */
  function SlowFactor(density: int): real
    requires density >= 1
  {
    1.0 / (1.0 + CongestionPenalty * ((density - 1) as real))
  }

  /** The speed for congestion and incidents, before the gap check. */
  function CruiseSpeed(baseSpeed: real, density: int, mult: real): real
    requires density >= 1
  {
    MaxReal(MinSpeed, baseSpeed * SlowFactor(density)) / MaxReal(1.0, mult - IncidentRelief)
  }

  /** The gap check: a blocked car is held to `GapSpeed` at most. */
  function GapSpeedFor(blocked: bool, speed: real): real {
    if blocked then MinReal(speed, GapSpeed) else speed
  }

  lemma SlowFactorBounds(density: int)
    requires density >= 1
    ensures 0.0 < SlowFactor(density) <= 1.0
    ensures SlowFactor(density) == 1.0 <==> density == 1
  {
  }

  /** Dividing by more gives less. */
  lemma DivAntitone(s: real, q1: real, q2: real)
    requires s >= 0.0 && 0.0 < q1 <= q2
    ensures s / q2 <= s / q1
  {
    var a, b := s / q2, s / q1;
    assert a * q2 == s && b * q1 == s;
    assert a * q1 <= a * q2;
    assert (b - a) * q1 >= 0.0;
  }

  /** Dividing more gives more. */
  lemma DivMonotone(s1: real, s2: real, q: real)
    requires s1 <= s2 && q > 0.0
    ensures s1 / q <= s2 / q
  {
    assert (s1 / q) * q == s1 && (s2 / q) * q == s2;
  }

  /** More cars on the road never make the slowdown milder. */
  lemma SlowFactorAntitone(d1: int, d2: int)
    requires 1 <= d1 <= d2
    ensures SlowFactor(d2) <= SlowFactor(d1)
  {
    DivAntitone(1.0, 1.0 + CongestionPenalty * ((d1 - 1) as real), 1.0 + CongestionPenalty * ((d2 - 1) as real));
  }

  /**
   * The cruise speed is positive, never above the larger of `MinSpeed` and the
   * base speed, and equal to it on a road with no other car and no incident.
   */
  lemma CruiseSpeedBounds(baseSpeed: real, density: int, mult: real)
    requires baseSpeed >= 0.0 && density >= 1
    ensures 0.0 < CruiseSpeed(baseSpeed, density, mult) <= MaxReal(MinSpeed, baseSpeed)
    ensures density == 1 && mult <= 1.5 ==> CruiseSpeed(baseSpeed, density, mult) == MaxReal(MinSpeed, baseSpeed)
  {
    SlowFactorBounds(density);
    var s := MaxReal(MinSpeed, baseSpeed * SlowFactor(density));
    assert baseSpeed * SlowFactor(density) <= baseSpeed;
    DivAntitone(s, 1.0, MaxReal(1.0, mult - IncidentRelief));
  }

  /** Congestion and incidents never make a car faster. */
  lemma CruiseSpeedAntitone(baseSpeed: real, d1: int, d2: int, m1: real, m2: real)
    requires baseSpeed >= 0.0 && 1 <= d1 <= d2 && m1 <= m2
    ensures CruiseSpeed(baseSpeed, d2, m2) <= CruiseSpeed(baseSpeed, d1, m1)
  {
    SlowFactorAntitone(d1, d2);
    SlowFactorBounds(d2);
    var s1 := MaxReal(MinSpeed, baseSpeed * SlowFactor(d1));
    var s2 := MaxReal(MinSpeed, baseSpeed * SlowFactor(d2));
    var q1 := MaxReal(1.0, m1 - IncidentRelief);
    var q2 := MaxReal(1.0, m2 - IncidentRelief);
    assert baseSpeed * SlowFactor(d2) <= baseSpeed * SlowFactor(d1);
    DivAntitone(s2, q1, q2);
    DivMonotone(s2, s1, q1);
  }

  // ---------------------------------------------------------------------------
  // One car's turn in a tick.

  /**
   * Car `i`'s turn in `step`, taken in the state `cars` left by the turns of
   * the cars before it: a car that is dead or has no segment left is marked
   * dead; any other car adopts its speed and advances, moving to the next
   * segment (and dying after the last one) once it has covered the segment.
   */
  function MoveCar(cars: seq<Car>, i: int, incs: seq<Incident>, dt: real): Car
    requires 0 <= i < |cars|
  {
    var c := cars[i];
    if !InTransit(c) then c.(alive := false)
    else
      var speed := TurnSpeed(cars, i, incs);
      var t := c.tAlong + speed * dt;
      if t >= 1.0 then
        c.(speed := speed, tAlong := 0.0, segmentIdx := c.segmentIdx + 1, alive := c.segmentIdx + 1 < |c.path| - 1)
      else
        c.(speed := speed, tAlong := t)
  }

  /** The speed car `i` adopts in its turn, for the density and incidents on its segment and the car ahead. */
  function TurnSpeed(cars: seq<Car>, i: int, incs: seq<Incident>): real
    requires 0 <= i < |cars| && InTransit(cars[i])
  {
    var c := cars[i];
    var u, v := c.path[c.segmentIdx], c.path[c.segmentIdx + 1];
    DensityCountsSelf(cars, i);
    GapSpeedFor(Blocked(cars, i), CruiseSpeed(c.baseSpeed, Density(cars, u, v), Multiplier(incs, u, v)))
  }

  /** A car's route, endpoints, base speed and gap are never changed by its turn. */
  predicate SameTrip(c: Car, r: Car) {
    r.path == c.path && r.src == c.src && r.dst == c.dst && r.baseSpeed == c.baseSpeed && r.minGap == c.minGap
  }

  /**
   * What a turn does to a car: a car not in transit only dies; a car in
   * transit either stays on its segment and alive, having moved `speed * dt`,
   * or enters the next segment at its start, dying exactly when that was its
   * last segment.
   */
  lemma MoveCarEffect(cars: seq<Car>, i: int, incs: seq<Incident>, dt: real)
    requires 0 <= i < |cars|
    ensures SameTrip(cars[i], MoveCar(cars, i, incs, dt))
    ensures !InTransit(cars[i]) ==> MoveCar(cars, i, incs, dt) == cars[i].(alive := false)
    ensures InTransit(cars[i]) ==>
      var c, r := cars[i], MoveCar(cars, i, incs, dt);
      || (r.segmentIdx == c.segmentIdx && r.alive && r.tAlong == c.tAlong + r.speed * dt && r.tAlong < 1.0)
      || (r.segmentIdx == c.segmentIdx + 1 && r.tAlong == 0.0 && (r.alive <==> r.segmentIdx < |c.path| - 1)
          && c.tAlong + r.speed * dt >= 1.0)
  {
  }

  /**
   * The speed a car adopts: positive, at most the larger of `MinSpeed` and its
   * base speed, at most `GapSpeed` when blocked by the car ahead, and the
   * undisturbed speed when alone on a road without incidents and not blocked.
   */
  lemma MoveCarSpeed(cars: seq<Car>, i: int, incs: seq<Incident>, dt: real)
    requires 0 <= i < |cars| && InTransit(cars[i]) && cars[i].baseSpeed >= 0.0
    ensures 0.0 < MoveCar(cars, i, incs, dt).speed <= MaxReal(MinSpeed, cars[i].baseSpeed)
    ensures Blocked(cars, i) ==> MoveCar(cars, i, incs, dt).speed <= GapSpeed
    ensures
      var c := cars[i];
      var u, v := c.path[c.segmentIdx], c.path[c.segmentIdx + 1];
      Density(cars, u, v) == 1 && Multiplier(incs, u, v) == 1.0 && !Blocked(cars, i) ==>
        MoveCar(cars, i, incs, dt).speed == MaxReal(MinSpeed, c.baseSpeed)
  {
    var c := cars[i];
    var u, v := c.path[c.segmentIdx], c.path[c.segmentIdx + 1];
    DensityCountsSelf(cars, i);
    CruiseSpeedBounds(c.baseSpeed, Density(cars, u, v), Multiplier(incs, u, v));
  }

  /** A turn keeps a car's position on its segment in `[0, 1)` when time runs forward. */
  lemma MoveCarPosition(cars: seq<Car>, i: int, incs: seq<Incident>, dt: real)
    requires 0 <= i < |cars| && 0.0 <= cars[i].tAlong < 1.0 && cars[i].baseSpeed >= 0.0 && dt >= 0.0
    ensures 0.0 <= MoveCar(cars, i, incs, dt).tAlong < 1.0
    ensures cars[i].segmentIdx <= MoveCar(cars, i, incs, dt).segmentIdx <= cars[i].segmentIdx + 1
  {
    if InTransit(cars[i]) {
      MoveCarSpeed(cars, i, incs, dt);
      var s := MoveCar(cars, i, incs, dt).speed;
      assert s * dt >= 0.0;
    }
  }

  // ---------------------------------------------------------------------------
  // The car loop of a tick.

  /** The cars after the turns of the first `n` of them, each taken in order. */
  function Sweep(cars: seq<Car>, n: int, incs: seq<Incident>, dt: real): (r: seq<Car>)
    requires 0 <= n <= |cars|
    ensures |r| == |cars|
    decreases n
  {
    if n == 0 then cars
    else
      var p := Sweep(cars, n - 1, incs, dt);
      p[n - 1 := MoveCar(p, n - 1, incs, dt)]
  }

  /**
   * Every car takes exactly one turn, in the state where the cars before it
   * have taken theirs and it has not: after `n` turns the cars from `n` on are
   * untouched and car `k < n` is what its own turn made of it.
   */
  lemma {:induction false} SweepTurns(cars: seq<Car>, n: int, incs: seq<Incident>, dt: real)
    requires 0 <= n <= |cars|
    ensures forall k :: n <= k < |cars| ==> Sweep(cars, n, incs, dt)[k] == cars[k]
    ensures forall k :: 0 <= k < n ==> Sweep(cars, n, incs, dt)[k] == Sweep(cars, k + 1, incs, dt)[k]
    decreases n
  {
    if n > 0 {
      SweepTurns(cars, n - 1, incs, dt);
    }
  }

  /** The property every car keeps through its turn. */
  ghost predicate CarLike(c: Car) {
    c.segmentIdx >= 0 && 0.0 <= c.tAlong < 1.0 && c.baseSpeed >= 0.0
  }

  /**
   * Through the car loop each car keeps its trip and position bounds, and a
   * car that has taken its turn is alive only if it is still in transit.
   */
  lemma SweepKeeps(cars: seq<Car>, n: int, incs: seq<Incident>, dt: real)
    requires 0 <= n <= |cars| && dt >= 0.0
    requires forall k :: 0 <= k < |cars| ==> CarLike(cars[k])
    ensures forall k :: 0 <= k < |cars| ==>
      var r := Sweep(cars, n, incs, dt)[k];
      SameTrip(cars[k], r) && CarLike(r) && (k < n && r.alive ==> InTransit(r))
  {
    SweepTurns(cars, n, incs, dt);
    forall k | 0 <= k < n
      ensures var r := Sweep(cars, n, incs, dt)[k];
        SameTrip(cars[k], r) && CarLike(r) && (r.alive ==> InTransit(r))
    {
      var p := Sweep(cars, k, incs, dt);
      SweepTurns(cars, k, incs, dt);
      assert p[k] == cars[k];
      MoveCarEffect(p, k, incs, dt);
      MoveCarPosition(p, k, incs, dt);
    }
  }

  // ---------------------------------------------------------------------------
  // Replacing the cars that arrived.

  /** The cars still alive, in order: what `remove_if` keeps. */
  function Survivors(cars: seq<Car>): (r: seq<Car>)
    ensures |r| <= |cars|
    decreases |cars|
  {
    if cars == [] then []
    else
      var rest := Survivors(cars[..|cars| - 1]);
      if cars[|cars| - 1].alive then rest + [cars[|cars| - 1]] else rest
  }

  /** The number of dead cars. */
  function DeadCount(cars: seq<Car>): nat
    decreases |cars|
  {
    if cars == [] then 0
    else DeadCount(cars[..|cars| - 1]) + (if cars[|cars| - 1].alive then 0 else 1)
  }

  /** Removing the dead cars removes exactly `DeadCount` cars and keeps exactly the alive ones. */
  lemma {:induction false} SurvivorsCount(cars: seq<Car>)
    ensures |Survivors(cars)| + DeadCount(cars) == |cars|
    ensures forall c :: c in Survivors(cars) <==> c in cars && c.alive
    decreases |cars|
  {
    if cars != [] {
      var init := cars[..|cars| - 1];
      SurvivorsCount(init);
      assert cars == init + [cars[|cars| - 1]];
    }
  }

  /** No car is dead exactly when every car is alive. */
  lemma {:induction false} NoneDead(cars: seq<Car>)
    ensures DeadCount(cars) == 0 <==> forall k :: 0 <= k < |cars| ==> cars[k].alive
    decreases |cars|
  {
    if cars != [] {
      var init := cars[..|cars| - 1];
      NoneDead(init);
      assert forall k :: 0 <= k < |init| ==> init[k] == cars[k];
    }
  }

  /** When every car is alive, removing the dead cars changes nothing. */
  lemma {:induction false} AllSurvive(cars: seq<Car>)
    requires forall k :: 0 <= k < |cars| ==> cars[k].alive
    ensures Survivors(cars) == cars
    decreases |cars|
  {
    if cars != [] {
      var init := cars[..|cars| - 1];
      assert forall k :: 0 <= k < |init| ==> init[k] == cars[k];
      AllSurvive(init);
      assert cars == init + [cars[|cars| - 1]];
    }
  }
}
