/** Weighted road graphs: neighbor lookup, paths, what a path costs, and
    lower bounds on path cost. */
module Graphs {

  /** A graph maps each node to its neighbors and the length of the road to
      each of them. */
  type Graph<N> = map<N, map<N, nat>>

  /** The roads leaving `u`. A node the graph does not list has none: the
      lookup never fails. */
  function Neighbors<N(!new)>(g: Graph<N>, u: N): (r: map<N, nat>)
    ensures forall v :: v in r <==> u in g && v in g[u]
    ensures forall v | v in r :: r[v] == g[u][v]
  {
    if u in g then g[u] else map[]
  }

  predicate IsEdge<N(!new)>(g: Graph<N>, u: N, v: N)
  {
    v in Neighbors(g, u)
  }

  function Weight<N(!new)>(g: Graph<N>, u: N, v: N): nat
    requires IsEdge(g, u, v)
  {
    Neighbors(g, u)[v]
  }

  /** Every node the graph mentions, as a key or as a neighbor. */
  ghost function Nodes<N(!new)>(g: Graph<N>): (ns: set<N>)
    ensures g.Keys <= ns
    ensures forall u, v | IsEdge(g, u, v) :: u in ns && v in ns
    ensures forall n | n in ns :: n in g || exists u :: IsEdge(g, u, n)
  {
    g.Keys + set u, v | u in g && v in g[u] && IsEdge(g, u, v) :: v
  }

  // ---------------------------------------------------------------------
  // Well-formed road maps

  /** Roads are two-way and equally long in both directions. */
  ghost predicate Symmetric<N(!new)>(g: Graph<N>)
  {
    forall u, v | IsEdge(g, u, v) :: IsEdge(g, v, u) && Weight(g, v, u) == Weight(g, u, v)
  }

  ghost predicate PositiveWeights<N(!new)>(g: Graph<N>)
  {
    forall u, v | IsEdge(g, u, v) :: Weight(g, u, v) > 0
  }

  /** Every neighbor is itself listed as a key. */
  ghost predicate Closed<N(!new)>(g: Graph<N>)
  {
    forall u, v | IsEdge(g, u, v) :: v in g
  }

  ghost predicate WellFormed<N(!new)>(g: Graph<N>)
  {
    Symmetric(g) && PositiveWeights(g) && Closed(g)
  }

  // ---------------------------------------------------------------------
  // Paths and their cost

  /** A non-empty walk in which every consecutive pair is a road. */
  ghost predicate IsPath<N(!new)>(g: Graph<N>, p: seq<N>)
  {
    |p| > 0 && forall i | 0 <= i < |p| - 1 :: IsEdge(g, p[i], p[i + 1])
  }

  ghost predicate IsPathBetween<N(!new)>(g: Graph<N>, p: seq<N>, s: N, t: N)
  {
    IsPath(g, p) && p[0] == s && p[|p| - 1] == t
  }

  ghost predicate Reachable<N(!new)>(g: Graph<N>, s: N, t: N)
  {
    exists p :: IsPathBetween(g, p, s, t)
  }

  predicate Distinct<N(==)>(p: seq<N>)
  {
    forall i, j | 0 <= i < j < |p| :: p[i] != p[j]
  }

  lemma DistinctAppend<N>(p: seq<N>, x: N)
    requires Distinct(p) && x !in p
    ensures Distinct(p + [x])
  {
  }

  /** The sum of the road lengths along `p`. */
  ghost function PathCost<N(!new)>(g: Graph<N>, p: seq<N>): nat
    requires IsPath(g, p)
    decreases |p|
  {
    if |p| == 1 then 0
    else
      assert IsPath(g, p[..|p| - 1]) by { PrefixIsPath(g, p, |p| - 1); }
      PathCost(g, p[..|p| - 1]) + Weight(g, p[|p| - 2], p[|p| - 1])
  }

  /** No route from `s` to `t` is cheaper than `d`. */
  ghost predicate NoCheaperPath<N(!new)>(g: Graph<N>, s: N, t: N, d: nat)
  {
    forall p | IsPathBetween(g, p, s, t) :: d <= PathCost(g, p)
  }

  /** `p` is a route from `s` to `t` that costs `c`, and no route is cheaper. */
  ghost predicate IsCheapestRoute<N(!new)>(g: Graph<N>, s: N, t: N, p: seq<N>, c: nat)
  {
    IsPathBetween(g, p, s, t) && c == PathCost(g, p) && NoCheaperPath(g, s, t, c)
  }

  lemma PrefixIsPath<N(!new)>(g: Graph<N>, p: seq<N>, k: nat)
    requires IsPath(g, p) && 1 <= k <= |p|
    ensures IsPath(g, p[..k])
  {
    forall i | 0 <= i < k - 1
      ensures IsEdge(g, p[..k][i], p[..k][i + 1])
    {
      assert p[..k][i] == p[i] && p[..k][i + 1] == p[i + 1];
    }
  }

  /** Extending a path by one road adds exactly that road's length. */
  lemma ExtendPath<N(!new)>(g: Graph<N>, p: seq<N>, v: N)
    requires IsPath(g, p) && IsEdge(g, p[|p| - 1], v)
    ensures IsPath(g, p + [v])
    ensures PathCost(g, p + [v]) == PathCost(g, p) + Weight(g, p[|p| - 1], v)
  {
    var q := p + [v];
    forall i | 0 <= i < |q| - 1
      ensures IsEdge(g, q[i], q[i + 1])
    {
      if i < |p| - 1 {
        assert q[i] == p[i] && q[i + 1] == p[i + 1];
      }
    }
    assert q[..|q| - 1] == p;
  }

  /** With non-negative road lengths a prefix never costs more than the whole path. */
  lemma {:induction false} PrefixCostLe<N(!new)>(g: Graph<N>, p: seq<N>, k: nat)
    requires IsPath(g, p) && 1 <= k <= |p|
    ensures IsPath(g, p[..k])
    ensures PathCost(g, p[..k]) <= PathCost(g, p)
    decreases |p|
  {
    PrefixIsPath(g, p, k);
    if k < |p| {
      var q := p[..|p| - 1];
      PrefixIsPath(g, p, |p| - 1);
      PrefixCostLe(g, q, k);
      assert q[..k] == p[..k];
    } else {
      assert p[..k] == p;
    }
  }

  /** A path that starts inside `inside` and ends outside it has a road that
      leaves the set: the index returned is the first node outside. */
  ghost function ExitIndex<N(!new)>(p: seq<N>, inside: set<N>): (i: nat)
    requires |p| > 0 && p[0] in inside && p[|p| - 1] !in inside
    ensures 0 < i < |p| && p[i - 1] in inside && p[i] !in inside
    ensures forall j | 0 <= j < i :: p[j] in inside
    decreases |p|
  {
    if p[1] !in inside then 1
    else 1 + ExitIndex(p[1..], inside)
  }

  /** A node the graph does not list as a key has no roads out, so it
      reaches no other node. */
  lemma UnlistedStartReachesNothing<N(!new)>(g: Graph<N>, s: N, t: N)
    requires s !in g && s != t
    ensures !Reachable(g, s, t)
  {
    forall p | IsPath(g, p) && |p| > 1
      ensures p[0] in g
    {
      assert IsEdge(g, p[0], p[1]);
    }
  }

  /** A node no road leads to cannot be reached from another node, whether
      or not the graph lists it as a key. */
  lemma UnmentionedTargetUnreachable<N(!new)>(g: Graph<N>, s: N, t: N)
    requires (forall u :: !IsEdge(g, u, t)) && s != t
    ensures !Reachable(g, s, t)
  {
    forall p | IsPath(g, p) && |p| > 1
      ensures p[|p| - 1] != t
    {
      assert IsEdge(g, p[|p| - 2], p[|p| - 1]);
    }
  }

  // ---------------------------------------------------------------------
  // Potentials: lower bounds on the cost of every path

  /** `d` never drops by more than a road's length across that road. */
  ghost predicate Feasible<N(!new)>(g: Graph<N>, d: N -> int)
  {
    forall u, v | IsEdge(g, u, v) :: d(v) <= d(u) + Weight(g, u, v)
  }

  /** A feasible potential bounds the cost of every path from below. */
  lemma {:induction false} PotentialLowerBound<N(!new)>(g: Graph<N>, d: N -> int, p: seq<N>)
    requires Feasible(g, d) && IsPath(g, p)
    ensures d(p[|p| - 1]) - d(p[0]) <= PathCost(g, p)
    decreases |p|
  {
    if |p| > 1 {
      var q := p[..|p| - 1];
      PrefixIsPath(g, p, |p| - 1);
      PotentialLowerBound(g, d, q);
      assert IsEdge(g, p[|p| - 2], p[|p| - 1]);
    }
  }

  /** A road on which the potential rises by exactly its length. */
  ghost predicate Tight<N(!new)>(g: Graph<N>, d: N -> int, u: N, v: N)
  {
    IsEdge(g, u, v) && d(v) == d(u) + Weight(g, u, v)
  }

  /** Every road along `p` is tight. */
  ghost predicate TightPath<N(!new)>(g: Graph<N>, d: N -> int, p: seq<N>)
  {
    forall i | 0 <= i < |p| - 1 :: Tight(g, d, p[i], p[i + 1])
  }

  /** A path whose cost meets the potential's bound uses only tight roads. */
  lemma {:induction false} BoundMetIsTight<N(!new)>(g: Graph<N>, d: N -> int, p: seq<N>)
    requires Feasible(g, d) && IsPath(g, p)
    requires PathCost(g, p) == d(p[|p| - 1]) - d(p[0])
    ensures TightPath(g, d, p)
    decreases |p|
  {
    if |p| > 1 {
      var q := p[..|p| - 1];
      PrefixIsPath(g, p, |p| - 1);
      PotentialLowerBound(g, d, q);
      assert IsEdge(g, p[|p| - 2], p[|p| - 1]);
      BoundMetIsTight(g, d, q);
      forall i | 0 <= i < |p| - 1
        ensures Tight(g, d, p[i], p[i + 1])
      {
        if i < |p| - 2 {
          assert q[i] == p[i] && q[i + 1] == p[i + 1];
        }
      }
    }
  }
}
