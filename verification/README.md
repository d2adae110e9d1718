# Uniform-cost search on the road map of Romania

A Dafny model of the route finder in `other.py`: the road map of twenty
Romanian cities (`romania_map`) and `uniform_cost_search(start, goal)`,
which returns a cheapest route between two cities with its length, or the
sentinel `(None, inf)` when there is none.

The project has three modules:

- `Graphs` (`graphs.dfy`): a road map is a `map<N, map<N, nat>>` from a
  city to its neighbors and road lengths. A city missing from the map has
  no roads, as `romania_map.get(city, {})` does. The module defines paths,
  their cost, cheapest routes and well-formed maps (two-way roads,
  positive lengths, every neighbor a key). It also defines potentials:
  functions on cities whose rise along any road is at most the road's
  length, which therefore bound every route's cost from below.
- `Ucs` (`ucs.dfy`): the search itself, for any node type and any map.
  - The heap is a multiset of `Entry(cost, city, path)` triples.
  - `heappop` takes any entry of least cost.
  - `visited` is a set, and one loop turn (`Turn`) is the body of the
    `while queue:` loop.
  - Ghost state alongside records each settled city's cost, the costs
    popped in order, and the cities settled in order.
  - The proofs are Dijkstra's argument: every popped, unvisited entry
    carries the cost of a cheapest route to its city.
- `Romania` (`romania.dfy`): the twenty cities as a datatype and the map
  exactly as listed. It proves the map well formed and proves what the
  search returns from Arad to every city. The concrete runs from Arad to
  Bucharest and from Arad to Neamt are corollaries.

The heap may yield any entry of least cost, and every contract of
`UniformCostSearch` holds whichever it yields. The cost returned never
depends on that choice. The route can: when a map has several cheapest
routes, which one is returned follows the order in which equally cheap
entries leave the heap. On the Romania map, cheapest routes from Arad are
unique (`CheapestFromAradIsAradRoute`), so the route from Arad is fully
determined.

On the Romania map, the cheapest Arad–Neamt route passes through Rimnicu
Vilcea, Pitesti, Bucharest, Urziceni, Vaslui and Iasi, for 824. The route
through Fagaras and Bucharest costs 856, so the search does not return it.
The model follows the distances in `romania_map`.

## Model

| member | source | states |
|---|---|---|
| Ucs.UniformCostSearch | other.py:42-62 | The search always terminates (the loop decreases the number of unsettled cities, then the heap size). A `Found` result is a route from `start` to `goal` along roads of the map. Its cost is the sum of its road lengths and no route is cheaper. It repeats no city. The result is `NoPath` exactly when `goal` is unreachable from `start`. When `start == goal` the result is `([start], 0)`, even for a city the map does not list. The ghost record of the run ties the rest to the search. `popped` holds the costs taken off the heap, in order, and they never decrease. `expanded` holds the cities settled, in order, with no city twice. Every settled city is reachable from `start` and is `start` or a city the map mentions. On `Found`, the last popped cost is the returned cost and the last settled city is `goal`. On `NoPath`, every city reachable from `start` was settled: the search exhausted the component of `start`. |
| Ucs.Turn | other.py:46-60 | One turn either stops with a cheapest, repeat-free route to the goal, or keeps the search invariant. Continuing strictly decreases the unsettled cities or, when the popped entry is skipped, the heap size. With `start == goal` the first turn stops with `([start], 0)`. Every turn takes a cheapest entry off the heap (the ghost output `taken`) and appends exactly that entry's cost to the popped record. The settled record either stays as it was or gains that entry's city, and every settled city is reachable. When it stops, the last popped cost is the returned cost and the last settled city is the goal. |
| Ucs.ExtractMin | other.py:47 | The entry taken off the heap is on it and costs no more than any other entry. Exactly one copy of it is removed. |
| Ucs.PushNeighbors | other.py:58-60 | After the loop the heap holds the old entries plus exactly one entry per neighbor not yet visited. That entry's cost is the current cost plus the road length, and its path is the route to the current city. |
| Ucs.SkipKeepsInv | other.py:49-50 | Dropping an entry whose city is already visited loses no information: the search invariant still holds. |
| Ucs.PoppedIsShortest | other.py:47-53 | The first time a city comes off the heap as a cheapest entry, no route from `start` to that city is cheaper than the entry's cost. |
| Ucs.PoppedIsCheapestRoute | other.py:47-53 | If that entry also records a route with its true cost, as every heap entry of the search does, then its route plus its city is a cheapest route from `start` to the city, at the entry's cost. |
| Ucs.ExpandKeepsInv | other.py:52-60 | Visiting the popped city and pushing its unvisited neighbors keeps every heap entry a genuine, repeat-free route with its true cost. Settled costs stay cheapest and every road out of the settled cities stays covered. Nothing left on the heap is cheaper than the city just settled. |
| Ucs.PushedEntriesOk | other.py:58-60 | Every pushed entry extends the popped route by one road of the map, records that route's exact cost, and passes only visited cities. |
| Ucs.GoalEntryIsAnswer | other.py:52-56 | The route returned when the goal is popped is a cheapest route from `start` to the goal and repeats no city. When `start == goal` it is the initial entry `(0, start, [])`. |
| Ucs.ExhaustedMeansUnreachable | other.py:62 | When the heap runs empty before the goal is popped, every road out of the visited cities stays inside them, so the goal cannot be reached from `start`. |
| Ucs.ExhaustedLoopInv | other.py:62 | At the `(None, inf)` return the goal is unreachable and differs from `start`, and every city reachable from `start` has been settled. |
| Ucs.SettleReaches | other.py:52-53 | A city added to `visited` is reachable from `start`, because its heap entry records a route to it. |
| Ucs.InitialLoopInv | other.py:43-44 | The initial heap `[(0, start, [])]` with nothing visited satisfies the loop invariant. |
| Ucs.MinExists | other.py:47 | A non-empty heap always has an entry of least cost, so `heappop` cannot fail inside the loop. |
| Graphs.Neighbors | other.py:58 | `romania_map.get(city, {})`: a listed city's roads are exactly its entry, with the same lengths. A city the map does not list has no roads, and the lookup never fails. |
| Graphs.Nodes | other.py:9-30 | The cities a map mentions contain every key and both ends of every road. Every one of them is a key or the end of some road. |
| Graphs.UnlistedStartReachesNothing | other.py:58 | A start city the map does not list has no roads (`.get(city, {})`), so no other city is reachable from it. With `UniformCostSearch` the result is `NoPath`. |
| Graphs.UnmentionedTargetUnreachable | other.py:58-60 | A goal no road leads to, whether or not the map lists it as a key, is unreachable from any other city, so the search returns `NoPath`. |
| Graphs.PrefixCostLe | other.py:58-60 | Because road lengths are non-negative, a route's prefix never costs more than the route. This is why the first pop of a city is final. |
| Graphs.ExtendPath | other.py:60 | Extending a route by one road adds exactly that road's length to its cost. |
| Graphs.PotentialLowerBound | other.py:9-30 | A function on cities that never rises by more than a road's length across that road bounds the cost of every route from below. |
| Graphs.BoundMetIsTight | other.py:9-30 | A route whose cost meets that bound uses only roads on which the function rises by exactly their length. |
| Graphs.ExitIndex | other.py:58-62 | A route that starts inside a set of cities and ends outside it leaves the set along some road. |
| Romania.Roads | other.py:10-29 | The roads out of each city, one source line per city. No road leads back to its own city, and every length is positive. `RomaniaMap` maps each of the twenty cities to its `Roads`. |
| Romania.NeighborsAreRoads | other.py:9-30 | Each of the twenty cities is a key of `RomaniaMap`, with exactly its listed roads. |
| Romania.RomaniaMapWellFormed | other.py:9-30 | Every road of the map appears in both directions with the same length, every length is positive, and every neighbor is a city of the map. |
| Romania.AradDistFeasible | other.py:9-30 | The tabulated distances from Arad never rise by more than a road's length across any road, so they bound every route from Arad from below. |
| Romania.AradRouteIsCheapest | other.py:9-30 | The route built by following each city's predecessor back to Arad is a route of the map, costs the tabulated distance, and is a cheapest route. |
| Romania.CheapestFromAradIsAradRoute | other.py:9-30 | Every cheapest route from Arad to a city is that predecessor route, at the tabulated cost: cheapest routes from Arad are unique on this map. |
| Romania.SearchFromArad | other.py:42-62 | The search from Arad to any city returns the predecessor route at the tabulated distance, whatever order the heap gives equally cheap entries. |
| Romania.AradToBucharest | other.py:42-62 | From Arad to Bucharest the search returns Arad, Sibiu, Rimnicu Vilcea, Pitesti, Bucharest at cost 418. |
| Romania.AradToNeamt | other.py:42-62 | From Arad to Neamt the search returns Arad, Sibiu, Rimnicu Vilcea, Pitesti, Bucharest, Urziceni, Vaslui, Iasi, Neamt at cost 824. |
| Romania.RoadFacts | other.py:10-29 | Each listed road is listed again from its other end with the same positive length, and it respects the tabulated distances from Arad. |

## Left out

- The Tkinter window (`UCSVisualizer`), the networkx/matplotlib drawing and the `pos` table of city positions are left out. They are presentation only.
- The input checks and blanket exception handler of `run_ucs` are left out. They belong to the user interface and only decide which message is shown.
- The failure value `(None, float('inf'))` is the `NoPath` variant. Floating point is not modelled.
- Cities are a datatype of twenty constructors rather than strings. A name outside the map is covered by the generic lemmas in `Graphs` and the contracts of `UniformCostSearch`, which work for any node type and any map.
- The search takes the map as a parameter instead of reading the module-level `romania_map`. `Romania` instantiates it with that map.
- `heapq` breaks cost ties by comparing city names and then paths. The model lets the heap yield any entry of least cost, so every contract holds for Python's choice too. Python's tie-break order itself is not modelled.
- The Python list that holds the binary heap is modelled as a multiset of entries. The heap's array layout is not modelled.
- Road lengths are natural numbers. The search works for any map but is modelled only for non-negative lengths, which every length in `romania_map` is. With a negative length, the first pop of a city would no longer be its cheapest cost.
