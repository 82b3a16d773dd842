# Road-network traffic simulation, modelled in Dafny

This project models the routing-and-traffic engine of a small road-network
simulator and proves properties of that model. The engine has three layers:

- **The road graph** (`RoadGraph`, graph.dfy). An adjacency-list graph whose
  `add_edge` ignores out-of-range endpoints. For valid endpoints it appends one
  record in each direction, both with the same weight. The class invariant says
  that, for every pair of nodes, the multiset of weights recorded from `u` to
  `v` equals the multiset recorded from `v` to `u`. Self-loops carry every
  weight an even number of times.
- **The router** (`Router`, dijkstra.dfy). Dijkstra's algorithm with a
  min-priority queue of (distance, node) pairs, modelled as a multiset from which
  the lexicographically least pair is popped. Stale pairs are discarded. Each
  relaxed record costs its weight times an optional caller-supplied factor. The
  result is proved to give, for every node:
  - the cost of the cheapest walk from the source, or `Infinity` exactly when no
    walk exists;
  - parent pointers forming a tree of tight edges rooted at the source.
- **The simulation** (`Routes`, `Incidents`, `Traffic`, `Sim`).
  - `Routes`: path reconstruction from parent pointers. The reconstructed path
    drives a cheapest walk from the source to the destination.
  - `Incidents`: the incident registry, with its max-multiplier query,
    decay-and-erase, and the candidate roads for random injection.
  - `Traffic`: the cars, road occupancy and one car's turn in a tick.
  - `Sim`: the `Simulation` class with `spawn_cars`, `recompute_routes` and
    `step`.

Every loop of the source is a `while` loop in a method, except the redraw of `d` in `spawn_cars`, which becomes a single draw (see "Left out"). Most of these methods
are proved equal to a specification function, such as `Density`, `Multiplier`,
`RoadPairs`, `Decayed`, `MoveCar` or `Sweep`. The properties the program relies
on are proved as lemmas about those functions. The others are specified by the
relation they establish:
- the search loops keep the search invariant;
- `ReconstructPath` gives a parent chain;
- `SpawnCars` gives fresh cars on cheapest routes (`FreshCar`, `OnShortestRoute`);
- `RecomputeRoutes` relates each car to its old self (`Rerouted`).

The car loop of `step` updates cars in place, in order. So car `i`'s density
count and gap check see the cars before it already moved, or already marked
dead. `Sweep` models exactly that.

Routing multiplies each road's weight by the traffic bias and the road's
current incident factor. Every route a car receives, at spawn or when it is
rerouted, is a cheapest route under those costs at that moment.

Rerouting computes each car's route from its origin `src`. On success it resets
the car to the start of the new route. The model does the same.

Random draws are nondeterministic choices within the bounds of their
distributions:
- two different nodes;
- a base speed in `[0.35, 0.65)`;
- an index into the candidate roads.

## Model

| member | source | states |
|---|---|---|
| RoadGraph.Graph.constructor | graph.hpp:21 | `Graph(n)` has `n` nodes and `n` empty adjacency lists, and satisfies the invariant |
| RoadGraph.Graph.AddEdge | graph.hpp:23-27 | the lists become `WithEdge` of the old ones. Nodes are unchanged. The paired-records invariant is kept, and so are non-negative weights when `w >= 0` |
| RoadGraph.WithEdge | graph.hpp:24-26 | an out-of-range endpoint leaves the lists unchanged. Otherwise `{v,w}` ends `adj[u]` and `{u,w}` ends `adj[v]`; for `u == v` the list grows by two; every other list is unchanged |
| RoadGraph.WithEdgePreservesSymmetry | graph.hpp:25-26 | adding a road keeps the weights from `x` to `y` equal to those from `y` to `x` for all `x, y`, and keeps self-loop weights paired |
| RoadGraph.WithEdgeWellFormed | graph.hpp:24-26 | adding a road keeps every record's target a node of the graph |
| RoadGraph.WithEdgeNonNegative | graph.hpp:25-26 | a road of non-negative weight keeps all weights non-negative |
| RoadGraph.WeightsToNonEmpty | graph.hpp:19 | a list contributes a weight towards `v` exactly when one of its records points at `v` |
| Router.EffectiveWeight | dijkstra.hpp:29-31 | the relaxed cost is `e.w` times `weight_factor(u, e.to)`, with factor 1.0 when none is supplied |
| Router.LeastExists | dijkstra.hpp:26 | a non-empty queue has a lexicographically least pair, which is what `priority_queue` with `greater` pops |
| Router.InitialInv | dijkstra.hpp:15-23 | all distances infinite except `d[src] = 0`, all parents -1, and `(0, src)` queued. This satisfies the search invariant |
| Router.PopStale | dijkstra.hpp:27 | dropping a pair whose key exceeds the node's distance keeps the invariant |
| Router.PopFresh | dijkstra.hpp:26-27 | popping a non-stale least pair settles its node at its final distance and keeps the invariant |
| Router.RelaxEdge | dijkstra.hpp:32-36 | one relaxation keeps the invariant, whether it improves `d[e.to]` or not. On improvement it sets the distance and parent and queues the pair |
| Router.Relax | dijkstra.hpp:29-36 | one iteration of the inner loop restores the invariant for the next record and leaves the scanned node settled |
| Router.RelaxNeighbours | dijkstra.hpp:28-37 | scanning all records of a settled node keeps the invariant and does not change that node's distance |
| Router.LeastUnique | dijkstra.hpp:26 | the least pair of a queue is unique, so the pop is deterministic |
| Router.PopAndScan | dijkstra.hpp:26-37 | one outer iteration keeps the invariant. Either a node leaves the unsettled set, or the queue shrinks with that set unchanged, so the loop terminates. A stale least pair (key above its node's distance) is only removed, with distances and parents unchanged. After a fresh pop, the popped node's distance equals its key and is unchanged |
| Router.ScanFresh | dijkstra.hpp:26-37 | popping a fresh least pair and relaxing all its node's records keeps the invariant, settles one more node, and leaves that node's distance equal to the popped key |
| Router.Search | dijkstra.hpp:15-38 | the loop ends with an empty queue and the invariant |
| Router.RelaxedBoundsWalks | dijkstra.hpp:32-35 | when no record can be relaxed and `d[src] = 0`, no walk from `src` is cheaper than `d` at its end |
| Router.Conclude | dijkstra.hpp:25-38 | with an empty queue, the result has the following properties. `d` is relaxed. It is a lower bound on every walk, and achieved by a walk. A parent pointer is a tight road from a finite node. Chains of finite nodes end at `src`, and every chain terminates |
| Router.Dijkstra | dijkstra.hpp:13-40 | `dist` and `parent` have one entry per node, with `dist[src] = 0` and `parent[src] = -1`. Each `dist[v]` is the cheapest walk cost, or `Infinity` with parent -1 exactly when `v` is unreachable. Each parent pointer is a road `parent[v] -> v` with `dist[v] = dist[parent[v]] + cost` and `v != src`. Every chain of parents ends at `src` |
| Routes.Reverse | simulation.cpp:8 | the result is the input backwards |
| Routes.ChainStep | simulation.cpp:7 | one step up the parent chain keeps the root it reaches |
| Routes.ReconstructPath | simulation.cpp:5-11 | the result is non-empty exactly when `dst`'s parent chain ends at `src`. A non-empty result starts at `src`, ends at `dst`, and each node is the parent of the next. For `src` with no parent, `src` to itself gives `[src]` |
| Routes.ParentChainUnique | simulation.cpp:7-10 | two parent chains ending at the same node are equal, so a destination has one route |
| Routes.RouteEnds | simulation.cpp:62 | a route's endpoints are nodes of the graph |
| Routes.TreeWalk | simulation.cpp:5-11 | a parent chain from `s` over tight parent records is driven by a walk. Each hop adds exactly its cost to the distance, so the walk costs the distance of the chain's last node |
| Routes.TracesExtend | simulation.cpp:7-8 | a walk driving the first nodes of a path, followed by a hop to the next node, drives one more node |
| Routes.TreeRoute | simulation.cpp:60-63 | after a search from `s`, the reconstructed path to `d != s` is non-empty exactly when `d` is reachable. When non-empty, it follows roads, has at least two nodes, and is driven by a walk costing `dist[d]`. No walk from `s` to `d` is cheaper |
| Incidents.Multiplier | simulation.cpp:103-113 | the incident factor of a road is at least 1.0 |
| Incidents.SameRoadSymmetric | simulation.cpp:104 | the unordered comparison of end nodes ignores direction |
| Incidents.MultiplierSymmetric | simulation.cpp:104-109 | the factor of `u`-`v` equals that of `v`-`u` |
| Incidents.MultiplierIsMax | simulation.cpp:105-111 | the factor bounds every running incident's `mult` on the road, and is either 1.0 or one of those factors |
| Incidents.UnaffectedRoad | simulation.cpp:105-112 | a road without running incidents has factor exactly 1.0 |
| Incidents.RunningMembers | simulation.cpp:136-137 | erasing keeps exactly the incidents with positive remaining time |
| Incidents.RunningOfAppend | simulation.cpp:136-137 | erasing works element-wise, so kept incidents keep their relative order |
| Incidents.DecayedOfAppend | simulation.cpp:132-138 | decaying a concatenation decays each part, so survivors keep their order |
| Incidents.DecayedMembers | simulation.cpp:132-138 | after a decay every incident has positive remaining time. Each is exactly an incident that was running, with `dt` subtracted and `a`, `b`, `mult` unchanged |
| Incidents.ExpiresOnTime | simulation.cpp:134-137 | an incident with at most `dt` left is gone after the decay, and its road is back to 1.0; reaching exactly 0 counts as expired |
| Incidents.DecayNeverSlowsDown | simulation.cpp:132-138 | no road's incident factor rises through a decay |
| Incidents.RoadPairsMembers | simulation.cpp:116-119 | the candidate list holds exactly the pairs `(u, v)` with `u < v` and a record `u -> v` |
| Incidents.RoadPairsEmpty | simulation.cpp:116-120 | in a graph with paired records, the candidate list is empty exactly when every record is a self-loop |
| Incidents.RecordBothWays | graph.hpp:25-26 | in a graph with paired records, a record `u -> v` has a partner `v -> u` |
| Traffic.Density | simulation.cpp:91-101 | the occupancy count never exceeds the number of cars |
| Traffic.DensitySymmetric | simulation.cpp:92-98 | occupancy of `u`-`v` equals occupancy of `v`-`u` |
| Traffic.DensityPositive | simulation.cpp:94-99 | a road's count is positive exactly when some alive car has that road as its current segment, in either direction |
| Traffic.DensityCountsSelf | simulation.cpp:159 | a car in transit counts itself, so its density is at least 1 |
| Traffic.SlowFactorBounds | simulation.cpp:160 | the congestion factor is in `(0, 1]`, and is 1.0 exactly at density 1 |
| Traffic.SlowFactorAntitone | simulation.cpp:160 | a higher density never gives a milder factor |
| Traffic.CruiseSpeedBounds | simulation.cpp:160-164 | the speed after congestion and incidents is positive and at most `max(0.15, base_speed)`. With density 1 and a factor of at most 1.5 it equals `max(0.15, base_speed)` |
| Traffic.CruiseSpeedAntitone | simulation.cpp:159-164 | more density or a larger incident factor never makes a car faster |
| Traffic.MoveCarEffect | simulation.cpp:154-182 | path, endpoints, base speed and gap are unchanged. A car not in transit is only marked dead. A car in transit either stays on its segment, alive, advanced by `speed * dt`, or starts its next segment at 0 and dies exactly when that was the last |
| Traffic.MoveCarSpeed | simulation.cpp:159-172 | the adopted speed is positive and at most `max(0.15, base_speed)`, and at most 0.1 when a car is too close ahead. Alone, without incident and unblocked, it is `max(0.15, base_speed)` |
| Traffic.MoveCarPosition | simulation.cpp:176-182 | with `dt >= 0` the position stays in `[0, 1)` and the segment index grows by at most one |
| Traffic.SweepTurns | simulation.cpp:152-153 | each car takes exactly one turn, seeing the cars before it moved and itself untouched |
| Traffic.SweepKeeps | simulation.cpp:152-183 | through the car loop every car keeps its trip and bounds, and a car that took its turn is alive only while in transit |
| Traffic.SurvivorsCount | simulation.cpp:185-188 | erasing the dead removes exactly the counted dead cars and keeps exactly the alive ones |
| Traffic.NoneDead | simulation.cpp:186-187 | the dead count is 0 exactly when every car is alive |
| Traffic.AllSurvive | simulation.cpp:188 | erasing dead cars from an all-alive list changes nothing |
| Sim.RouteFactorNonNegative | simulation.cpp:53-55 | with a non-negative bias and non-negative weights, the cost `w * bias * multiplier` is never negative |
| Sim.SweepValid | simulation.cpp:152-183 | the car loop keeps every car on a route between its endpoints, within its segment |
| Sim.Simulation.constructor | simulation.hpp:35-43 | a run starts with no cars, no incidents and zeroed timers |
| Sim.Simulation.EdgeDensity | simulation.cpp:91-101 | the counting loop returns `Density` of the current cars |
| Sim.Simulation.EdgeIncidentMultiplier | simulation.cpp:103-113 | the scanning loop returns `Multiplier` of the current incidents |
| Sim.Simulation.CapForGap | simulation.cpp:166-174 | the gap loop caps the speed at 0.1 exactly when some other alive car with an equal path is on the same segment, ahead by `0 < gap < min_gap` |
| Sim.Simulation.CandidateRoads | simulation.cpp:116-119 | the nested loop builds `RoadPairs` of the graph |
| Sim.Simulation.AddRandomIncident | simulation.cpp:115-130 | with no candidate road the registry is unchanged. Otherwise exactly one incident is appended, on a road `a < b` with a record `a -> b`, with the configured factor and duration |
| Sim.Simulation.DecayIncidents | simulation.cpp:132-138 | the registry becomes `Decayed` of the old one |
| Sim.DefaultConfigOk | simulation.hpp:25-33 | the default parameters meet what a run requires of its configuration |
| Sim.Simulation.Route | simulation.cpp:53-63 | the search and reconstruction give a route from `s` to `d` exactly when `d` is reachable, and `[]` otherwise. A returned route is a cheapest one under the costs `w * traffic_bias * incident factor` |
| Sim.Simulation.SpawnCars | simulation.cpp:49-74 | exactly `n` cars are appended (none for `n <= 0`) and existing cars are untouched. Each new car is alive with `src != dst`, on a cheapest route from `src` to `dst` of at least two nodes under the current costs. It starts at segment 0, position 0, with `speed == base_speed` in `[0.35, 0.65)` |
| Sim.Simulation.NewCar | simulation.cpp:58-72 | one car between two different nodes, on a cheapest route between them under the current costs. It starts at the route's start, alive, with `speed == base_speed` in `[0.35, 0.65)` |
| Sim.Simulation.RecomputeRoutes | simulation.cpp:76-89 | the number of cars is kept. A car with a reachable destination gets a new cheapest route from `src` to `dst` under the current costs. It restarts at segment 0, position 0, keeping everything else. Any other car is unchanged |
| Sim.Simulation.RerouteCar | simulation.cpp:80-88 | one car is rerouted as above, and no other car changes |
| Sim.Simulation.Cruise | simulation.cpp:160-164 | the arithmetic computes `CruiseSpeed` |
| Sim.Simulation.AdoptSpeed | simulation.cpp:156-174 | the density, incident and gap computations give `TurnSpeed` of the current cars |
| Sim.Simulation.AdvanceCar | simulation.cpp:153-182 | car `i` becomes `MoveCar` of the current cars and no other car changes |
| Sim.Simulation.MoveCars | simulation.cpp:152-183 | the car loop gives `Sweep` of the cars |
| Sim.Simulation.CountDead | simulation.cpp:185-186 | the loop counts `DeadCount` of the cars |
| Sim.Simulation.ReplaceArrived | simulation.cpp:185-190 | the alive cars keep their order and are followed by as many fresh cars as were dead, each on a cheapest route. So the count is kept and every car is alive |
| Sim.Simulation.Drive | simulation.cpp:152-190 | after the car loop and replacement, the cars still alive after their turns come first, in order. They are followed by fresh cars on cheapest routes. The count is unchanged and every car is alive |
| Sim.Simulation.Step | simulation.cpp:140-198 | the invariant is kept, the number of cars is unchanged and every car is alive. Both timers advance by `dt` and reset to 0 on reaching their interval. The registry is the decay of the old one, with an injected incident when the incident timer fired |

## Left out

- `build_demo_graph` (simulation.cpp:13-47) and `Graph::dist` (graph.hpp:29-32): node coordinates and `sqrt` geometry. `Sim.Simulation.constructor` accepts any graph satisfying the invariant with non-negative weights. The demo adds roads (6,7) and (7,8) twice, so those appear twice in the candidate list; `RoadPairs` models that and does not de-duplicate.
- main.cpp is not part of this model: window, input, drawing and heat colouring.
- Floating point: `float` quantities are `real`, so rounding is not modelled. `INF` is `Distance.Infinity`. Node indices are unbounded integers; `size_t`/`int` conversions and overflow are not modelled.
- `std::mt19937` and its distributions: draws are nondeterministic choices within the distribution's range. The resampling `while (d==s)` in `spawn_cars` becomes a single draw of `d != s`.
- Sim.Simulation.SpawnCars: requires a connected graph with at least two nodes. Under that condition the retry `--i; continue` (simulation.cpp:63) is unreachable. The source's retry loop need not terminate otherwise.
- Sim.Simulation.Step: requires the same connectivity, because it spawns cars. Its contract states the invariant, the car count, liveness, the timers and the registry, but not each car's value. `Drive`, `ReplaceArrived`, `RecomputeRoutes` and the `MoveCar` lemmas state those.
- Router.Dijkstra: requires non-negative effective costs (`w * factor`). The source runs with any factor, but its shortest-path results rely on this. The weight factor is a total function `(int, int) -> real` instead of a possibly empty `std::function`, modelled as `Option`.
- Router.Relax: states the search invariant it restores and the settled node's distance, not the exact new arrays.
- Sim.Simulation.constructor: requires `ConfigOk(cfg)`, a non-negative traffic bias and time step. The source accepts any configuration. The struct's default configuration meets it (`DefaultConfigOk`), and so does the one main.cpp sets up (traffic bias 1.0, time step 1/60).
- Sim.Simulation.EdgeDensity, Sim.Simulation.AdoptSpeed and Sim.Simulation.AdvanceCar: require every car's `segmentIdx >= 0`. The source skips a car whose index is past its last segment (simulation.cpp:95, 154), but never checks for a negative index. The simulation invariant guarantees `segmentIdx >= 0`.
- The routing weight factor `RouteFactor` uses the specification `Multiplier`, because a Dafny function value cannot call a method. `EdgeIncidentMultiplier` is proved equal to it.
- `DijkstraResult` is returned as the two out-parameters `dist` and `parent`.
- The `Car` default member values (simulation.hpp:8-17) are not modelled, except `min_gap = 0.025` (`DefaultMinGap`) and `alive = true`, which `spawn_cars` relies on. Every other field is set by `spawn_cars`.
- `SimConfig.car_count` is only read by main.cpp, so it is carried but unused.
- Three behaviours of the code that the model keeps as they are:
  - the gap check compares paths by value and only requires the other car to be alive, not in transit;
  - `decay_incidents` only decrements incidents whose time is still positive;
  - the candidate roads are the records `u -> v` with `u < v`, so a road added twice is counted twice.
