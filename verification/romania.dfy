/** The road map of Romania the search runs on, and what the search returns
    on it. */
module Romania {
  import opened Graphs
  import opened Ucs

  datatype City =
    | Arad | Zerind | Oradea | Timisoara | Lugoj | Mehadia | Dobreta | Craiova
    | Sibiu | Fagaras | RimnicuVilcea | Pitesti | Bucharest | Giurgiu | Urziceni
    | Hirsova | Eforie | Vaslui | Iasi | Neamt

  const AllCities: set<City> := {
    Arad, Zerind, Oradea, Timisoara, Lugoj, Mehadia, Dobreta, Craiova,
    Sibiu, Fagaras, RimnicuVilcea, Pitesti, Bucharest, Giurgiu, Urziceni,
    Hirsova, Eforie, Vaslui, Iasi, Neamt
  }

  /** Every city with the length of each road leaving it. */
  const RomaniaMap: Graph<City> := map c | c in AllCities :: Roads(c)

  /** The roads out of `c`, one case per city. No road leads back to its
      own city, and every length is positive. */
  function Roads(c: City): (r: map<City, nat>)
    ensures c !in r
    ensures forall v | v in r :: r[v] > 0
  {
    match c
    case Arad => map[Zerind := 75, Timisoara := 118, Sibiu := 140]
    case Zerind => map[Oradea := 71, Arad := 75]
    case Oradea => map[Zerind := 71, Sibiu := 151]
    case Timisoara => map[Arad := 118, Lugoj := 111]
    case Lugoj => map[Timisoara := 111, Mehadia := 70]
    case Mehadia => map[Lugoj := 70, Dobreta := 75]
    case Dobreta => map[Mehadia := 75, Craiova := 120]
    case Craiova => map[Dobreta := 120, RimnicuVilcea := 146, Pitesti := 138]
    case Sibiu => map[Oradea := 151, Arad := 140, Fagaras := 99, RimnicuVilcea := 80]
    case Fagaras => map[Sibiu := 99, Bucharest := 211]
    case RimnicuVilcea => map[Sibiu := 80, Craiova := 146, Pitesti := 97]
    case Pitesti => map[RimnicuVilcea := 97, Craiova := 138, Bucharest := 101]
    case Bucharest => map[Fagaras := 211, Pitesti := 101, Giurgiu := 90, Urziceni := 85]
    case Giurgiu => map[Bucharest := 90]
    case Urziceni => map[Bucharest := 85, Vaslui := 142, Hirsova := 98]
    case Hirsova => map[Urziceni := 98, Eforie := 86]
    case Eforie => map[Hirsova := 86]
    case Vaslui => map[Urziceni := 142, Iasi := 92]
    case Iasi => map[Vaslui := 92, Neamt := 87]
    case Neamt => map[Iasi := 87]
  }

  /** The length of a cheapest route from Arad to each city. */
  function AradDist(c: City): int
  {
    match c
    case Arad => 0
    case Zerind => 75
    case Oradea => 146
    case Timisoara => 118
    case Lugoj => 229
    case Mehadia => 299
    case Dobreta => 374
    case Craiova => 366
    case Sibiu => 140
    case Fagaras => 239
    case RimnicuVilcea => 220
    case Pitesti => 317
    case Bucharest => 418
    case Giurgiu => 508
    case Urziceni => 503
    case Hirsova => 601
    case Eforie => 687
    case Vaslui => 645
    case Iasi => 737
    case Neamt => 824
  }

  /** The city just before `c` on the cheapest route from Arad. */
  function AradParent(c: City): (p: City)
    requires c != Arad
    ensures AradDist(p) < AradDist(c)
  {
    match c
    case Zerind => Arad
    case Oradea => Zerind
    case Timisoara => Arad
    case Lugoj => Timisoara
    case Mehadia => Lugoj
    case Dobreta => Mehadia
    case Craiova => RimnicuVilcea
    case Sibiu => Arad
    case Fagaras => Sibiu
    case RimnicuVilcea => Sibiu
    case Pitesti => RimnicuVilcea
    case Bucharest => Pitesti
    case Giurgiu => Bucharest
    case Urziceni => Bucharest
    case Hirsova => Urziceni
    case Eforie => Hirsova
    case Vaslui => Urziceni
    case Iasi => Vaslui
    case Neamt => Iasi
  }

  /** Every city is a key of the map, and its entry is its case of `Roads`. */
  lemma NeighborsAreRoads(c: City)
    ensures c in RomaniaMap && Neighbors(RomaniaMap, c) == Roads(c)
  {
    assert c in AllCities by {
      match c
      case Arad =>
      case Zerind =>
      case Oradea =>
      case Timisoara =>
      case Lugoj =>
      case Mehadia =>
      case Dobreta =>
      case Craiova =>
      case Sibiu =>
      case Fagaras =>
      case RimnicuVilcea =>
      case Pitesti =>
      case Bucharest =>
      case Giurgiu =>
      case Urziceni =>
      case Hirsova =>
      case Eforie =>
      case Vaslui =>
      case Iasi =>
      case Neamt =>
    }
  }

  /** The road map is well formed: roads are two-way and equally long both
      ways, every length is positive, and every neighbor is a city of the map. */
  lemma RomaniaMapWellFormed()
    ensures WellFormed(RomaniaMap)
  {
    forall u, v | IsEdge(RomaniaMap, u, v)
      ensures IsEdge(RomaniaMap, v, u) && Weight(RomaniaMap, v, u) == Weight(RomaniaMap, u, v)
      ensures Weight(RomaniaMap, u, v) > 0 && v in RomaniaMap
    {
      NeighborsAreRoads(u);
      NeighborsAreRoads(v);
      RoadFacts(u, v);
    }
  }

  /** `AradDist` never rises by more than a road's length across that road. */
  lemma AradDistFeasible()
    ensures Feasible(RomaniaMap, AradDist)
  {
    forall u, v | IsEdge(RomaniaMap, u, v)
      ensures AradDist(v) <= AradDist(u) + Weight(RomaniaMap, u, v)
    {
      NeighborsAreRoads(u);
      RoadFacts(u, v);
    }
  }

  /** The only road on which `AradDist` rises by exactly its length into a
      city is the one from that city's `AradParent`. */
  lemma TightRoadIsFromParent(u: City, v: City)
    requires Tight(RomaniaMap, AradDist, u, v)
    ensures v != Arad && u == AradParent(v)
  {
    NeighborsAreRoads(u);
    RoadFacts(u, v);
  }

  /** The road from `AradParent(c)` into `c` exists and `AradDist` rises by
      exactly its length. */
  lemma ParentRoad(c: City)
    requires c != Arad
    ensures c in Roads(AradParent(c))
    ensures AradDist(c) == AradDist(AradParent(c)) + Roads(AradParent(c))[c]
  {
  }

  /** The route from Arad to `c` that follows `AradParent` backwards. */
  function AradRoute(c: City): seq<City>
    decreases AradDist(c)
  {
    if c == Arad then [Arad] else AradRoute(AradParent(c)) + [c]
  }

  /** `AradRoute(c)` is a route from Arad to `c` costing `AradDist(c)`. */
  lemma {:induction false} AradRouteIsRoute(c: City)
    ensures IsPathBetween(RomaniaMap, AradRoute(c), Arad, c)
    ensures PathCost(RomaniaMap, AradRoute(c)) == AradDist(c)
    decreases AradDist(c)
  {
    if c != Arad {
      var u := AradParent(c);
      ParentRoad(c);
      RoadFacts(u, c);
      NeighborsAreRoads(u);
      AradRouteIsRoute(u);
      ExtendPath(RomaniaMap, AradRoute(u), c);
    }
  }

  /** `AradRoute(c)` is a cheapest route from Arad to `c`. */
  lemma AradRouteIsCheapest(c: City)
    ensures IsCheapestRoute(RomaniaMap, Arad, c, AradRoute(c), AradDist(c))
  {
    AradRouteIsRoute(c);
    AradDistFeasible();
    forall p | IsPathBetween(RomaniaMap, p, Arad, c)
      ensures AradDist(c) <= PathCost(RomaniaMap, p)
    {
      PotentialLowerBound(RomaniaMap, AradDist, p);
    }
  }

  /** `u` is the city `v` is entered from on the cheapest route from Arad. */
  predicate IsParentOf(u: City, v: City)
  {
    v != Arad && u == AradParent(v)
  }

  /** Each city of `p` after the first is entered from its `AradParent`. */
  predicate FollowsParents(p: seq<City>)
  {
    forall i | 0 <= i < |p| - 1 :: IsParentOf(p[i], p[i + 1])
  }

  /** A route from Arad that uses only roads on which `AradDist` rises by
      exactly their length enters every city from its `AradParent`. */
  lemma TightRouteFollowsParents(p: seq<City>)
    requires TightPath(RomaniaMap, AradDist, p)
    ensures FollowsParents(p)
  {
    forall i | 0 <= i < |p| - 1
      ensures IsParentOf(p[i], p[i + 1])
    {
      TightRoadIsFromParent(p[i], p[i + 1]);
    }
  }

  /** A route from Arad that enters every city from its `AradParent` is the
      `AradRoute` to its last city. */
  lemma {:induction false} ParentRouteIsAradRoute(p: seq<City>)
    requires |p| > 0 && p[0] == Arad && FollowsParents(p)
    ensures p == AradRoute(p[|p| - 1])
    decreases |p|
  {
    if |p| == 1 {
      assert p == [Arad];
    } else {
      var q, v := p[..|p| - 1], p[|p| - 1];
      assert FollowsParents(q) by {
        forall i | 0 <= i < |q| - 1
          ensures IsParentOf(q[i], q[i + 1])
        {
          assert q[i] == p[i] && q[i + 1] == p[i + 1];
        }
      }
      ParentRouteIsAradRoute(q);
      assert p == q + [v];
    }
  }

  /** Every cheapest route from Arad is the `AradRoute`, at cost `AradDist`:
      on this map cheapest routes from Arad are unique. */
  lemma CheapestFromAradIsAradRoute(c: City, p: seq<City>, cost: nat)
    requires IsCheapestRoute(RomaniaMap, Arad, c, p, cost)
    ensures p == AradRoute(c) && cost == AradDist(c)
  {
    AradRouteIsRoute(c);
    AradDistFeasible();
    PotentialLowerBound(RomaniaMap, AradDist, p);
    BoundMetIsTight(RomaniaMap, AradDist, p);
    TightRouteFollowsParents(p);
    ParentRouteIsAradRoute(p);
  }

  // ---------------------------------------------------------------------
  // The search on this map

  /** Searching from Arad finds the `AradRoute` to any city at cost
      `AradDist`, whichever of equally cheap entries the frontier yields. */
  method SearchFromArad(goal: City) returns (r: SearchResult<City>)
    ensures r == Found(AradRoute(goal), AradDist(goal))
  {
    ghost var popped, expanded;
    r, popped, expanded := UniformCostSearch(RomaniaMap, Arad, goal);
    AradRouteIsCheapest(goal);
    assert Reachable(RomaniaMap, Arad, goal);
    CheapestFromAradIsAradRoute(goal, r.path, r.cost);
  }

  method AradToBucharest() returns (r: SearchResult<City>)
    ensures r == Found([Arad, Sibiu, RimnicuVilcea, Pitesti, Bucharest], 418)
  {
    r := SearchFromArad(Bucharest);
  }

  method AradToNeamt() returns (r: SearchResult<City>)
    ensures r == Found([Arad, Sibiu, RimnicuVilcea, Pitesti, Bucharest, Urziceni, Vaslui, Iasi, Neamt], 824)
  {
    r := SearchFromArad(Neamt);
  }

  /** The road from `u` to `v` is listed again, equally long, from `v`, and
      has positive length; `AradDist` never rises by more than its length
      across it, and rises by exactly that only on the road from
      `AradParent(v)`. */
  predicate RoadOk(u: City, v: City)
  {
    && v in Roads(u)
    && u in Roads(v) && Roads(v)[u] == Roads(u)[v] && Roads(u)[v] > 0
    && AradDist(v) <= AradDist(u) + Roads(u)[v]
    && (AradDist(v) == AradDist(u) + Roads(u)[v] ==> v != Arad && u == AradParent(v))
  }

  /** Every road in `Roads` is listed again, equally long, from its other
      end, and has positive length; `AradDist` never rises by more than a
      road's length across it, and rises by exactly that only on the road
      from `AradParent`. The twenty cities are split into four groups of
      five, in the order `romania_map` lists them, to keep each proof small. */
  lemma RoadFacts(u: City, v: City)
    requires v in Roads(u)
    ensures RoadOk(u, v)
  {
    if u == Arad || u == Zerind || u == Oradea || u == Timisoara || u == Lugoj {
      RoadFactsPart1(u, v);
    } else if u == Mehadia || u == Dobreta || u == Craiova || u == Sibiu || u == Fagaras {
      RoadFactsPart2(u, v);
    } else if u == RimnicuVilcea || u == Pitesti || u == Bucharest || u == Giurgiu || u == Urziceni {
      RoadFactsPart3(u, v);
    } else {
      RoadFactsPart4(u, v);
    }
  }

  lemma RoadFactsPart1(u: City, v: City)
    requires u == Arad || u == Zerind || u == Oradea || u == Timisoara || u == Lugoj
    requires v in Roads(u)
    ensures RoadOk(u, v)
  {
    match u
    case Arad => assert v in {Zerind, Timisoara, Sibiu};
    case Zerind => assert v in {Oradea, Arad};
    case Oradea => assert v in {Zerind, Sibiu};
    case Timisoara => assert v in {Arad, Lugoj};
    case Lugoj => assert v in {Timisoara, Mehadia};
  }

  lemma RoadFactsPart2(u: City, v: City)
    requires u == Mehadia || u == Dobreta || u == Craiova || u == Sibiu || u == Fagaras
    requires v in Roads(u)
    ensures RoadOk(u, v)
  {
    match u
    case Mehadia => assert v in {Lugoj, Dobreta};
    case Dobreta => assert v in {Mehadia, Craiova};
    case Craiova => assert v in {Dobreta, RimnicuVilcea, Pitesti};
    case Sibiu => assert v in {Oradea, Arad, Fagaras, RimnicuVilcea};
    case Fagaras => assert v in {Sibiu, Bucharest};
  }

  lemma RoadFactsPart3(u: City, v: City)
    requires u == RimnicuVilcea || u == Pitesti || u == Bucharest || u == Giurgiu || u == Urziceni
    requires v in Roads(u)
    ensures RoadOk(u, v)
  {
    match u
    case RimnicuVilcea => assert v in {Sibiu, Craiova, Pitesti};
    case Pitesti => assert v in {RimnicuVilcea, Craiova, Bucharest};
    case Bucharest => assert v in {Fagaras, Pitesti, Giurgiu, Urziceni};
    case Giurgiu => assert v in {Bucharest};
    case Urziceni => assert v in {Bucharest, Vaslui, Hirsova};
  }

  lemma RoadFactsPart4(u: City, v: City)
    requires u == Hirsova || u == Eforie || u == Vaslui || u == Iasi || u == Neamt
    requires v in Roads(u)
    ensures RoadOk(u, v)
  {
    match u
    case Hirsova => assert v in {Urziceni, Eforie};
    case Eforie => assert v in {Hirsova};
    case Vaslui => assert v in {Urziceni, Iasi};
    case Iasi => assert v in {Vaslui, Neamt};
    case Neamt => assert v in {Iasi};
  }
}
