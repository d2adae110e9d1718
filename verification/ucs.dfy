/** Uniform-cost search: repeatedly take a cheapest entry off the frontier,
    skip it if its city is already settled, otherwise settle the city and
    push one entry per unsettled neighbor. */
module Ucs {
  import opened Graphs

  /** A frontier entry: the cost so far, the city it reaches, and the cities
      passed on the way there (the city itself not included). */
  datatype Entry<N> = Entry(cost: nat, city: N, path: seq<N>)

  /** What a search returns: a route with its cost, or the "no path" sentinel. */
  datatype SearchResult<N> = Found(path: seq<N>, cost: nat) | NoPath

  // ---------------------------------------------------------------------
  // The frontier

  predicate IsMinIn<N(==,!new)>(e: Entry<N>, frontier: multiset<Entry<N>>)
  {
    e in frontier && forall x | x in frontier :: e.cost <= x.cost
  }

  lemma MinExists<N(!new)>(frontier: multiset<Entry<N>>)
    requires frontier != multiset{}
    ensures exists e :: IsMinIn(e, frontier)
    decreases |frontier|
  {
    var x :| x in frontier;
    var rest := frontier - multiset{x};
    assert frontier == rest + multiset{x};
    if rest != multiset{} {
      MinExists(rest);
      var m :| IsMinIn(m, rest);
      if m.cost <= x.cost {
        assert IsMinIn(m, frontier);
      } else {
        assert IsMinIn(x, frontier);
      }
    } else {
      assert IsMinIn(x, frontier);
    }
  }

  /** Remove one entry of least cost; which one, among equally cheap entries,
      is left open. */
  method ExtractMin<N(==,!new)>(frontier: multiset<Entry<N>>) returns (e: Entry<N>, rest: multiset<Entry<N>>)
    requires frontier != multiset{}
    ensures IsMinIn(e, frontier)
    ensures rest == frontier - multiset{e} && |rest| == |frontier| - 1
  {
    MinExists(frontier);
    e :| IsMinIn(e, frontier);
    rest := frontier - multiset{e};
    assert frontier == rest + multiset{e};
  }

  /** The entries that expanding `city`, reached at `cost` along `route`
      (ending in `city`), pushes for the neighbors in `among`: one per
      neighbor that is not yet visited. */
  function Successors<N(==,!new)>(g: Graph<N>, visited: set<N>, cost: nat, city: N, route: seq<N>, among: set<N>)
    : set<Entry<N>>
  {
    set n | n in among && n in Neighbors(g, city) && n !in visited
      :: Entry(cost + Neighbors(g, city)[n], n, route)
  }

  /** Push an entry for every unvisited neighbor of `city`, in any order. */
  method PushNeighbors<N(==,!new)>(g: Graph<N>, frontier: multiset<Entry<N>>, visited: set<N>,
                           cost: nat, city: N, route: seq<N>)
    returns (f: multiset<Entry<N>>)
    ensures f == frontier + multiset(Successors(g, visited, cost, city, route, Neighbors(g, city).Keys))
  {
    var nbrs := Neighbors(g, city);
    f := frontier;
    var todo := nbrs.Keys;
    while todo != {}
      invariant todo <= nbrs.Keys
      invariant f == frontier + multiset(Successors(g, visited, cost, city, route, nbrs.Keys - todo))
      decreases todo
    {
      var n :| n in todo;
      ghost var before := Successors(g, visited, cost, city, route, nbrs.Keys - todo);
      ghost var after := Successors(g, visited, cost, city, route, nbrs.Keys - (todo - {n}));
      if n !in visited {
        var e := Entry(cost + nbrs[n], n, route);
        assert e !in before;
        assert after == before + {e};
        assert multiset(after) == multiset(before) + multiset{e};
        f := f + multiset{e};
      } else {
        assert after == before;
      }
      todo := todo - {n};
    }
    assert nbrs.Keys - todo == nbrs.Keys;
  }

  // ---------------------------------------------------------------------
  // Loop invariants of the search

  /** An entry on the frontier records a genuine route from `start` and its
      true cost; every city before the last one is already visited, none twice. */
  ghost predicate EntryOk<N(!new)>(g: Graph<N>, start: N, visited: set<N>, e: Entry<N>)
  {
    && IsPathBetween(g, e.path + [e.city], start, e.city)
    && e.cost == PathCost(g, e.path + [e.city])
    && Distinct(e.path)
    && (forall c | c in e.path :: c in visited)
  }

  /** Every settled city carries a cost no route to it undercuts. */
  ghost predicate Settled<N(!new)>(g: Graph<N>, start: N, dist: map<N, nat>)
  {
    forall u | u in dist :: NoCheaperPath(g, start, u, dist[u])
  }

  /** Every road from a settled city to an unsettled one is covered by an
      entry on the frontier at most as expensive as going along that road. */
  ghost predicate Covered<N(!new)>(g: Graph<N>, dist: map<N, nat>, frontier: multiset<Entry<N>>)
  {
    forall u, v | u in dist && IsEdge(g, u, v) && v !in dist ::
      exists f | f in frontier :: f.city == v && f.cost <= dist[u] + Weight(g, u, v)
  }

  /** The state of the search between two iterations. `dist` records, for
      every visited city, the cost at which it was settled. */
  ghost predicate SearchInv<N(!new)>(g: Graph<N>, start: N, goal: N, universe: set<N>,
                                     visited: set<N>, dist: map<N, nat>, frontier: multiset<Entry<N>>)
  {
    && visited == dist.Keys && visited <= universe
    && goal !in visited
    && (start in visited || frontier == multiset{Entry(0, start, [])})
    && (forall e | e in frontier :: e.city in universe && EntryOk(g, start, visited, e))
    && Settled(g, start, dist)
    && Covered(g, dist, frontier)
  }

  /** `s` is non-empty and `x` is its last element. */
  predicate EndsWith<T(==)>(s: seq<T>, x: T)
  {
    |s| > 0 && s[|s| - 1] == x
  }

  ghost predicate Sorted(s: seq<nat>)
  {
    forall i, j | 0 <= i < j < |s| :: s[i] <= s[j]
  }

  /** What the loop records about its own history: the costs popped so far
      never decrease and never exceed a cost still on the frontier, and the
      expanded cities are exactly the visited ones, each listed once. */
  ghost predicate HistoryInv<N(!new)>(popped: seq<nat>, expanded: seq<N>, visited: set<N>,
                                      frontier: multiset<Entry<N>>)
  {
    && Sorted(popped)
    && (|popped| > 0 ==> forall f | f in frontier :: popped[|popped| - 1] <= f.cost)
    && Distinct(expanded)
    && (forall c :: c in expanded <==> c in visited)
  }

  /** Taking a cheapest entry off the frontier keeps the popped costs sorted. */
  lemma PopKeepsHistory<N(!new)>(popped: seq<nat>, expanded: seq<N>, visited: set<N>,
                                 frontier: multiset<Entry<N>>, e: Entry<N>, rest: multiset<Entry<N>>)
    requires HistoryInv(popped, expanded, visited, frontier)
    requires IsMinIn(e, frontier) && rest == frontier - multiset{e}
    ensures HistoryInv(popped + [e.cost], expanded, visited, rest)
  {
    forall f | f in rest
      ensures e.cost <= f.cost
    {
      assert f in frontier;
    }
  }

  /** Settling a city no one settled before, at the cost just popped, keeps
      `expanded` free of repeats, provided nothing on the new frontier is
      cheaper than that cost. */
  lemma SettleKeepsHistory<N(!new)>(popped: seq<nat>, expanded: seq<N>, visited: set<N>,
                                    rest: multiset<Entry<N>>, frontier': multiset<Entry<N>>, x: N)
    requires HistoryInv(popped, expanded, visited, rest) && |popped| > 0
    requires forall f | f in frontier' :: popped[|popped| - 1] <= f.cost
    requires x !in visited
    ensures HistoryInv(popped, expanded + [x], visited + {x}, frontier')
  {
    DistinctAppend(expanded, x);
  }

  /** Going to a settled city `p[i - 1]` at its settled cost and then along
      the road to `p[i]` is no dearer than following `p` all the way. */
  lemma SettledPrefixBound<N(!new)>(g: Graph<N>, start: N, dist: map<N, nat>, p: seq<N>, i: nat)
    requires IsPath(g, p) && p[0] == start && 0 < i < |p|
    requires p[i - 1] in dist && Settled(g, start, dist)
    ensures IsEdge(g, p[i - 1], p[i])
    ensures dist[p[i - 1]] + Weight(g, p[i - 1], p[i]) <= PathCost(g, p)
  {
    var u, v := p[i - 1], p[i];
    assert IsEdge(g, u, v);
    PrefixCostLe(g, p, i + 1);
    PrefixIsPath(g, p, i);
    assert p[..i + 1] == p[..i] + [v];
    ExtendPath(g, p[..i], v);
    assert IsPathBetween(g, p[..i], start, u);
  }

  /** No route from `start` to the city of a cheapest entry not settled yet
      is cheaper than that entry's cost. */
  lemma PoppedIsShortest<N(!new)>(g: Graph<N>, start: N, dist: map<N, nat>,
                                  frontier: multiset<Entry<N>>, e: Entry<N>)
    requires IsMinIn(e, frontier) && e.city !in dist
    requires start in dist || frontier == multiset{Entry(0, start, [])}
    requires Settled(g, start, dist) && Covered(g, dist, frontier)
    ensures NoCheaperPath(g, start, e.city, e.cost)
  {
    forall p | IsPathBetween(g, p, start, e.city)
      ensures e.cost <= PathCost(g, p)
    {
      if start in dist {
        var i := ExitIndex(p, dist.Keys);
        SettledPrefixBound(g, start, dist, p, i);
        var f :| f in frontier && f.city == p[i] && f.cost <= dist[p[i - 1]] + Weight(g, p[i - 1], p[i]);
      }
    }
  }

  /** A cheapest entry whose city is not settled yet, and which records a
      route with its true cost, records a cheapest route to its city. */
  lemma PoppedIsCheapestRoute<N(!new)>(g: Graph<N>, start: N, dist: map<N, nat>,
                                       frontier: multiset<Entry<N>>, e: Entry<N>)
    requires IsMinIn(e, frontier) && e.city !in dist
    requires start in dist || frontier == multiset{Entry(0, start, [])}
    requires Settled(g, start, dist) && Covered(g, dist, frontier)
    requires EntryOk(g, start, dist.Keys, e)
    ensures IsCheapestRoute(g, start, e.city, e.path + [e.city], e.cost)
  {
    PoppedIsShortest(g, start, dist, frontier, e);
  }

  /** Dropping an entry whose city is already settled keeps the invariant. */
  lemma SkipKeepsInv<N(!new)>(g: Graph<N>, start: N, goal: N, universe: set<N>,
                              visited: set<N>, dist: map<N, nat>, frontier: multiset<Entry<N>>, e: Entry<N>)
    requires SearchInv(g, start, goal, universe, visited, dist, frontier)
    requires e in frontier && e.city in visited
    ensures SearchInv(g, start, goal, universe, visited, dist, frontier - multiset{e})
  {
    var rest := frontier - multiset{e};
    forall u, v | u in dist && IsEdge(g, u, v) && v !in dist
      ensures exists f | f in rest :: f.city == v && f.cost <= dist[u] + Weight(g, u, v)
    {
      var f :| f in frontier && f.city == v && f.cost <= dist[u] + Weight(g, u, v);
      assert f != e;
      assert f in rest;
    }
  }

  /** The entries pushed when `e`'s city is settled are themselves
      well formed, and reach cities the graph mentions. */
  lemma PushedEntriesOk<N(!new)>(g: Graph<N>, start: N, visited: set<N>, e: Entry<N>)
    requires EntryOk(g, start, visited, e) && e.city !in visited
    ensures forall f | f in Successors(g, visited + {e.city}, e.cost, e.city, e.path + [e.city], Neighbors(g, e.city).Keys)
              :: IsEdge(g, e.city, f.city) && EntryOk(g, start, visited + {e.city}, f)
  {
    var x, route := e.city, e.path + [e.city];
    var visited' := visited + {x};
    assert x !in e.path;
    assert Distinct(route);
    forall f | f in Successors(g, visited', e.cost, x, route, Neighbors(g, x).Keys)
      ensures IsEdge(g, x, f.city) && EntryOk(g, start, visited', f)
    {
      var n := f.city;
      assert IsEdge(g, x, n);
      ExtendPath(g, route, n);
    }
  }

  /** Settling `e`'s city at `e.cost` and pushing its unvisited neighbors
      leaves every road out of the settled cities covered. */
  lemma CoveredAfterExpand<N(!new)>(g: Graph<N>, visited: set<N>, dist: map<N, nat>,
                                    frontier: multiset<Entry<N>>, e: Entry<N>, rest: multiset<Entry<N>>)
    requires Covered(g, dist, frontier) && visited == dist.Keys
    requires e in frontier && e.city !in dist && rest == frontier - multiset{e}
    ensures
      var x := e.city;
      Covered(g, dist[x := e.cost],
              rest + multiset(Successors(g, visited + {x}, e.cost, x, e.path + [x], Neighbors(g, x).Keys)))
  {
    var x, route := e.city, e.path + [e.city];
    var dist' := dist[x := e.cost];
    var pushed := Successors(g, visited + {x}, e.cost, x, route, Neighbors(g, x).Keys);
    var frontier' := rest + multiset(pushed);
    forall u, v | u in dist' && IsEdge(g, u, v) && v !in dist'
      ensures exists f: Entry<N> | f in frontier' :: f.city == v && f.cost <= dist'[u] + Weight(g, u, v)
    {
      if u == x {
        var f := Entry(e.cost + Neighbors(g, x)[v], v, route);
        assert f in pushed;
        assert f in frontier';
      } else {
        var f :| f in frontier && f.city == v && f.cost <= dist[u] + Weight(g, u, v);
        assert f != e;
        assert f in rest;
        assert f in frontier';
      }
    }
  }

  /** Settling the city of a cheapest unsettled entry at that entry's cost
      keeps every settled cost a cheapest one. */
  lemma SettleKeepsSettled<N(!new)>(g: Graph<N>, start: N, dist: map<N, nat>,
                                    frontier: multiset<Entry<N>>, e: Entry<N>)
    requires IsMinIn(e, frontier) && e.city !in dist
    requires start in dist || frontier == multiset{Entry(0, start, [])}
    requires Settled(g, start, dist) && Covered(g, dist, frontier)
    ensures Settled(g, start, dist[e.city := e.cost])
  {
    PoppedIsShortest(g, start, dist, frontier, e);
  }

  /** After settling the city of a cheapest entry, the frontier left plus the
      pushed entries holds only well-formed entries, none cheaper than it. */
  lemma FrontierAfterExpand<N(!new)>(g: Graph<N>, start: N, universe: set<N>, visited: set<N>,
                                     frontier: multiset<Entry<N>>, e: Entry<N>, rest: multiset<Entry<N>>)
    requires Encloses(g, start, universe)
    requires forall f | f in frontier :: f.city in universe && EntryOk(g, start, visited, f)
    requires IsMinIn(e, frontier) && rest == frontier - multiset{e} && e.city !in visited
    ensures
      var x := e.city;
      forall f | f in rest + multiset(Successors(g, visited + {x}, e.cost, x, e.path + [x], Neighbors(g, x).Keys))
        :: f.city in universe && EntryOk(g, start, visited + {x}, f) && e.cost <= f.cost
  {
    var x, route := e.city, e.path + [e.city];
    var visited' := visited + {x};
    var pushed := Successors(g, visited', e.cost, x, route, Neighbors(g, x).Keys);
    PushedEntriesOk(g, start, visited, e);
    forall f: Entry<N> | f in rest + multiset(pushed)
      ensures f.city in universe && EntryOk(g, start, visited', f) && e.cost <= f.cost
    {
      if f in rest {
        assert f in frontier;
      } else {
        assert f in pushed;
      }
    }
  }

  /** Settling the city of a frontier entry keeps the settled cities those
      with a recorded cost, inside the universe, short of the goal, and
      makes sure `start` is among them. */
  lemma SettleKeepsBookkeeping<N>(start: N, goal: N, universe: set<N>, visited: set<N>,
                                  dist: map<N, nat>, frontier: multiset<Entry<N>>, e: Entry<N>)
    requires visited == dist.Keys && visited <= universe && goal !in visited
    requires start in visited || frontier == multiset{Entry(0, start, [])}
    requires e in frontier && e.city in universe && e.city != goal
    ensures visited + {e.city} == dist[e.city := e.cost].Keys
    ensures visited + {e.city} <= universe && goal !in visited + {e.city}
    ensures start in visited + {e.city}
  {
  }

  /** Settling the city of a cheapest unsettled entry and pushing its
      unvisited neighbors keeps the invariant, and every entry left on the
      frontier costs at least as much as the one just settled. */
  lemma ExpandKeepsInv<N(!new)>(g: Graph<N>, start: N, goal: N, universe: set<N>,
                                visited: set<N>, dist: map<N, nat>, frontier: multiset<Entry<N>>,
                                e: Entry<N>, rest: multiset<Entry<N>>)
    requires SearchInv(g, start, goal, universe, visited, dist, frontier)
    requires Encloses(g, start, universe)
    requires IsMinIn(e, frontier) && rest == frontier - multiset{e}
    requires e.city !in visited && e.city != goal
    ensures
      var x := e.city;
      var frontier' := rest + multiset(Successors(g, visited + {x}, e.cost, x, e.path + [x], Neighbors(g, x).Keys));
      && SearchInv(g, start, goal, universe, visited + {x}, dist[x := e.cost], frontier')
      && (forall f | f in frontier' :: e.cost <= f.cost)
  {
    SettleKeepsBookkeeping(start, goal, universe, visited, dist, frontier, e);
    SettleKeepsSettled(g, start, dist, frontier, e);
    CoveredAfterExpand(g, visited, dist, frontier, e, rest);
    FrontierAfterExpand(g, start, universe, visited, frontier, e, rest);
  }

  /** When the goal's entry is the cheapest unsettled one, its route is a
      cheapest route to the goal and repeats no city. */
  lemma GoalEntryIsAnswer<N(!new)>(g: Graph<N>, start: N, goal: N, universe: set<N>,
                                   visited: set<N>, dist: map<N, nat>, frontier: multiset<Entry<N>>, e: Entry<N>)
    requires SearchInv(g, start, goal, universe, visited, dist, frontier)
    requires IsMinIn(e, frontier) && e.city == goal
    ensures IsCheapestRoute(g, start, goal, e.path + [goal], e.cost)
    ensures Distinct(e.path + [goal])
    ensures start == goal ==> e == Entry(0, start, [])
  {
    assert EntryOk(g, start, visited, e);
    assert goal !in e.path;
    PoppedIsShortest(g, start, dist, frontier, e);
  }

  /** Once the frontier is empty the settled cities are closed under roads,
      so nothing outside them can be reached from `start`. */
  lemma ExhaustedMeansUnreachable<N(!new)>(g: Graph<N>, start: N, goal: N, dist: map<N, nat>)
    requires start in dist && goal !in dist
    requires Covered(g, dist, multiset{})
    ensures !Reachable(g, start, goal)
  {
    if p :| IsPathBetween(g, p, start, goal) {
      var i := ExitIndex(p, dist.Keys);
      assert false;
    }
  }

  // ---------------------------------------------------------------------
  // The search

  /** `universe` holds `start` and every city a road leads to: every city
      the search can ever push. */
  ghost predicate Encloses<N(!new)>(g: Graph<N>, start: N, universe: set<N>)
  {
    start in universe && forall u, v | IsEdge(g, u, v) :: v in universe
  }

  /** The loop invariant: the search state and its recorded history. */
  ghost predicate LoopInv<N(!new)>(g: Graph<N>, start: N, goal: N, universe: set<N>,
                                   visited: set<N>, dist: map<N, nat>, frontier: multiset<Entry<N>>,
                                   popped: seq<nat>, expanded: seq<N>)
  {
    SearchInv(g, start, goal, universe, visited, dist, frontier) && HistoryInv(popped, expanded, visited, frontier)
  }

  /** Every city in `expanded` can be reached from `start`. */
  ghost predicate AllReached<N(!new)>(g: Graph<N>, start: N, expanded: seq<N>)
  {
    forall c | c in expanded :: Reachable(g, start, c)
  }

  /** The city of a frontier entry is reachable: the entry records a route to it. */
  lemma SettleReaches<N(!new)>(g: Graph<N>, start: N, goal: N, universe: set<N>, visited: set<N>,
                               dist: map<N, nat>, frontier: multiset<Entry<N>>, expanded: seq<N>, e: Entry<N>)
    requires SearchInv(g, start, goal, universe, visited, dist, frontier)
    requires e in frontier && AllReached(g, start, expanded)
    ensures AllReached(g, start, expanded + [e.city])
  {
    assert EntryOk(g, start, visited, e);
    assert IsPathBetween(g, e.path + [e.city], start, e.city);
  }

  lemma InitialLoopInv<N(!new)>(g: Graph<N>, start: N, goal: N, universe: set<N>)
    requires start in universe
    ensures LoopInv(g, start, goal, universe, {}, map[], multiset{Entry(0, start, [])}, [], [])
  {
    assert [] + [start] == [start];
    assert EntryOk(g, start, {}, Entry(0, start, []));
  }

  /** With the frontier empty and the goal never reached, the goal is
      unreachable, and the history says what the search promises about it. */
  lemma ExhaustedLoopInv<N(!new)>(g: Graph<N>, start: N, goal: N, universe: set<N>, visited: set<N>,
                                  dist: map<N, nat>, popped: seq<nat>, expanded: seq<N>)
    requires Encloses(g, start, universe)
    requires LoopInv(g, start, goal, universe, visited, dist, multiset{}, popped, expanded)
    ensures !Reachable(g, start, goal) && start != goal
    ensures Sorted(popped)
    ensures Distinct(expanded) && forall c | c in expanded :: c in universe
    ensures forall c | Reachable(g, start, c) :: c in expanded
  {
    ExhaustedMeansUnreachable(g, start, goal, dist);
    forall c | Reachable(g, start, c)
      ensures c in expanded
    {
      if c !in dist {
        ExhaustedMeansUnreachable(g, start, c, dist);
      }
    }
  }

  /** One turn of the search loop: take a cheapest entry off the frontier;
      skip it if its city is visited; otherwise visit the city and either
      stop (it is the goal) or push its unvisited neighbors. `done` says
      the search stopped with the answer `r`; `taken` is the entry taken
      off the frontier. */
  method Turn<N(==,!new)>(g: Graph<N>, start: N, goal: N, ghost universe: set<N>,
                          frontier: multiset<Entry<N>>, visited: set<N>, ghost dist: map<N, nat>,
                          ghost popped: seq<nat>, ghost expanded: seq<N>)
    returns (done: bool, r: SearchResult<N>, frontier': multiset<Entry<N>>, visited': set<N>,
             ghost dist': map<N, nat>, ghost popped': seq<nat>, ghost expanded': seq<N>,
             ghost taken: Entry<N>)
    requires Encloses(g, start, universe)
    requires frontier != multiset{}
    requires LoopInv(g, start, goal, universe, visited, dist, frontier, popped, expanded)
    requires AllReached(g, start, expanded)
    ensures AllReached(g, start, expanded')
    ensures IsMinIn(taken, frontier) && popped' == popped + [taken.cost]
    ensures expanded' == expanded || expanded' == expanded + [taken.city]
    ensures done ==> r.Found? && IsCheapestRoute(g, start, goal, r.path, r.cost) && Distinct(r.path)
    ensures done ==> r.Found? && EndsWith(popped', r.cost) && EndsWith(expanded', goal)
    ensures done ==> Sorted(popped') && Distinct(expanded')
    ensures done ==> forall c | c in expanded' :: c in universe
    ensures start == goal ==> done && r == Found([start], 0)
    ensures !done ==> LoopInv(g, start, goal, universe, visited', dist', frontier', popped', expanded')
    ensures !done ==> || |universe - visited'| < |universe - visited|
                      || (visited' == visited && |frontier'| < |frontier|)
  {
    var e, rest := ExtractMin(frontier);
    taken := e;
    PopKeepsHistory(popped, expanded, visited, frontier, e, rest);
    popped' := popped + [e.cost];
    if e.city in visited {
      SkipKeepsInv(g, start, goal, universe, visited, dist, frontier, e);
      done, r := false, NoPath;
      frontier', visited', dist', expanded' := rest, visited, dist, expanded;
    } else {
      var route := e.path + [e.city];
      SettleReaches(g, start, goal, universe, visited, dist, frontier, expanded, e);
      visited', dist', expanded' := visited + {e.city}, dist[e.city := e.cost], expanded + [e.city];
      if e.city == goal {
        GoalEntryIsAnswer(g, start, goal, universe, visited, dist, frontier, e);
        done, r, frontier' := true, Found(route, e.cost), rest;
      } else {
        ExpandKeepsInv(g, start, goal, universe, visited, dist, frontier, e, rest);
        CardinalityDrops(universe, visited, e.city);
        frontier' := PushNeighbors(g, rest, visited', e.cost, e.city, route);
        done, r := false, NoPath;
      }
      SettleKeepsHistory(popped', expanded, visited, rest, frontier', e.city);
    }
  }

  /** Settling one more city of the universe leaves fewer unsettled. */
  lemma CardinalityDrops<N>(universe: set<N>, visited: set<N>, x: N)
    requires x in universe && x !in visited
    ensures |universe - (visited + {x})| < |universe - visited|
  {
    assert universe - (visited + {x}) == (universe - visited) - {x};
  }

  /** Uniform-cost search from `start` to `goal` over `g`.
      `popped` lists the costs of the entries taken off the frontier, in
      order; `expanded` lists the cities settled, in the order they were
      settled. */
  method UniformCostSearch<N(==,!new)>(g: Graph<N>, start: N, goal: N)
    returns (r: SearchResult<N>, ghost popped: seq<nat>, ghost expanded: seq<N>)
    ensures r.Found? ==> IsCheapestRoute(g, start, goal, r.path, r.cost) && Distinct(r.path)
    ensures r.NoPath? <==> !Reachable(g, start, goal)
    ensures start == goal ==> r == Found([start], 0)
    ensures Sorted(popped)
    ensures Distinct(expanded) && forall c | c in expanded :: c in Nodes(g) || c == start
    ensures r.Found? ==> EndsWith(popped, r.cost) && EndsWith(expanded, goal)
    ensures forall c | c in expanded :: Reachable(g, start, c)
    ensures r.NoPath? ==> forall c | Reachable(g, start, c) :: c in expanded
  {
    var frontier := multiset{Entry(0, start, [])};
    var visited: set<N> := {};
    ghost var dist: map<N, nat> := map[];
    ghost var universe := Nodes(g) + {start};
    popped := [];
    expanded := [];
    InitialLoopInv(g, start, goal, universe);
    while frontier != multiset{}
      invariant LoopInv(g, start, goal, universe, visited, dist, frontier, popped, expanded)
      invariant AllReached(g, start, expanded)
      decreases |universe - visited|, |frontier|
    {
      var done;
      ghost var taken;
      done, r, frontier, visited, dist, popped, expanded, taken :=
        Turn(g, start, goal, universe, frontier, visited, dist, popped, expanded);
      if done {
        return;
      }
    }
    ExhaustedLoopInv(g, start, goal, universe, visited, dist, popped, expanded);
    r := NoPath;
  }
}
