// The link graph under the hero diagram (www/mesh.js): nodes, bidirectional
// links, a distance between any two nodes, and walks over the links that are
// currently usable.
module MeshGraph {

  /** `edges` lists the links by their two endpoints; `dist(a, b)` is the length
      of a leg between `a` and `b`. */
  datatype Topology = Topology(n: nat, edges: seq<(nat, nat)>, dist: (nat, nat) -> real, src: nat, dst: nat)
  {
    ghost predicate Valid()
    {
      && src < n && dst < n && src != dst
      && (forall i :: 0 <= i < |edges| ==> edges[i].0 < n && edges[i].1 < n && edges[i].0 != edges[i].1)
      && (forall a, b :: dist(a, b) == dist(b, a))
      && (forall a, b :: a != b ==> dist(a, b) > 0.0)
    }
  }

  /** Link `i` connects `u` and `v`, in either direction. */
  predicate Connects(g: Topology, i: nat, u: nat, v: nat)
    requires i < |g.edges|
  {
    (g.edges[i].0 == u && g.edges[i].1 == v) || (g.edges[i].0 == v && g.edges[i].1 == u)
  }

  /** Some link outside `blocked` connects `u` and `v`. */
  ghost predicate Joined(g: Topology, blocked: set<int>, u: nat, v: nat)
  {
    exists i :: 0 <= i < |g.edges| && i !in blocked && Connects(g, i, u, v)
  }

  /** Step `i` of `p` is over a usable link. */
  ghost predicate Leg(g: Topology, blocked: set<int>, p: seq<nat>, i: int)
    requires 0 <= i < |p| - 1
  {
    Joined(g, blocked, p[i], p[i + 1])
  }

  /** A non-empty sequence of nodes, each joined to the next. */
  ghost predicate Walk(g: Topology, blocked: set<int>, p: seq<nat>)
  {
    && |p| > 0
    && (forall i :: 0 <= i < |p| ==> p[i] < g.n)
    && (forall i :: 0 <= i < |p| - 1 ==> Leg(g, blocked, p, i))
  }

  ghost predicate WalkTo(g: Topology, blocked: set<int>, p: seq<nat>, u: nat, v: nat)
  {
    Walk(g, blocked, p) && p[0] == u && p[|p| - 1] == v
  }

  ghost predicate Reaches(g: Topology, blocked: set<int>, u: nat, v: nat)
  {
    exists p :: WalkTo(g, blocked, p, u, v)
  }

  /** The length of a walk: the sum of its legs. */
  ghost function Cost(g: Topology, p: seq<nat>): real
    decreases |p|
  {
    if |p| <= 1 then 0.0
    else Cost(g, p[..|p| - 1]) + g.dist(p[|p| - 2], p[|p| - 1])
  }

  /** `p` leads from `u` to `v` over usable links and no walk does so for less. */
  ghost predicate Shortest(g: Topology, blocked: set<int>, p: seq<nat>, u: nat, v: nat)
    requires g.Valid()
  {
    && WalkTo(g, blocked, p, u, v)
    && forall q :: WalkTo(g, blocked, q, u, v) ==> Cost(g, p) <= Cost(g, q)
  }

  /** `d` is the distance from `u` to `v` over usable links. */
  ghost predicate Distance(g: Topology, blocked: set<int>, u: nat, v: nat, d: real)
    requires g.Valid()
  {
    exists p :: Shortest(g, blocked, p, u, v) && Cost(g, p) == d
  }

  // --------------------------------------------------------------- walk algebra

  lemma JoinedNodes(g: Topology, blocked: set<int>, u: nat, v: nat)
    requires g.Valid() && Joined(g, blocked, u, v)
    ensures u < g.n && v < g.n && u != v && g.dist(u, v) > 0.0
  {
  }

  lemma WalkMonotone(g: Topology, more: set<int>, fewer: set<int>, p: seq<nat>)
    requires fewer <= more && Walk(g, more, p)
    ensures Walk(g, fewer, p)
  {
    forall i | 0 <= i < |p| - 1 ensures Leg(g, fewer, p, i) {
      assert Leg(g, more, p, i);
    }
  }

  /** A walk splits at its first leg. */
  lemma {:induction false} CostFront(g: Topology, p: seq<nat>)
    requires |p| >= 2
    ensures Cost(g, p) == g.dist(p[0], p[1]) + Cost(g, p[1..])
    decreases |p|
  {
    var t := p[..|p| - 1];
    if |p| == 2 {
      assert Cost(g, t) == 0.0;
      assert Cost(g, p[1..]) == 0.0;
    } else {
      CostFront(g, t);
      assert p[1..][..|p[1..]| - 1] == t[1..];
    }
  }

  lemma {:induction false} CostNonNegative(g: Topology, blocked: set<int>, p: seq<nat>)
    requires g.Valid() && Walk(g, blocked, p)
    ensures Cost(g, p) >= 0.0
    ensures |p| >= 2 ==> Cost(g, p) > 0.0
    decreases |p|
  {
    if |p| >= 2 {
      var t := p[..|p| - 1];
      assert Leg(g, blocked, p, |p| - 2);
      JoinedNodes(g, blocked, p[|p| - 2], p[|p| - 1]);
      WalkPrefix(g, blocked, p, |p| - 1);
      CostNonNegative(g, blocked, t);
    }
  }

  lemma WalkPrefix(g: Topology, blocked: set<int>, p: seq<nat>, k: nat)
    requires Walk(g, blocked, p) && 0 < k <= |p|
    ensures Walk(g, blocked, p[..k])
  {
    forall i | 0 <= i < k - 1 ensures Leg(g, blocked, p[..k], i) {
      assert Leg(g, blocked, p, i);
    }
  }

  lemma WalkSuffix(g: Topology, blocked: set<int>, p: seq<nat>, k: nat)
    requires Walk(g, blocked, p) && k < |p|
    ensures Walk(g, blocked, p[k..])
  {
    forall i | 0 <= i < |p| - k - 1 ensures Leg(g, blocked, p[k..], i) {
      assert Leg(g, blocked, p, k + i);
    }
  }

  lemma WalkPrepend(g: Topology, blocked: set<int>, u: nat, q: seq<nat>)
    requires g.Valid() && Walk(g, blocked, q) && Joined(g, blocked, u, q[0])
    ensures Walk(g, blocked, [u] + q)
    ensures Cost(g, [u] + q) == g.dist(u, q[0]) + Cost(g, q)
  {
    JoinedNodes(g, blocked, u, q[0]);
    var p := [u] + q;
    forall i | 0 <= i < |p| - 1 ensures Leg(g, blocked, p, i) {
      if i > 0 {
        assert Leg(g, blocked, q, i - 1);
      }
    }
    CostFront(g, p);
    assert p[1..] == q;
  }

  /** A bound that no usable leg can undercut bounds every walk: if `best` grows
      along each usable leg out of a reached node by at most the leg's length,
      then it is a lower bound on the cost of every walk from where it is zero. */
  lemma {:induction false} PotentialBound(g: Topology, blocked: set<int>, p: seq<nat>, best: map<nat, real>)
    requires g.Valid() && Walk(g, blocked, p)
    requires p[0] in best && best[p[0]] == 0.0
    requires forall u: nat, v: nat :: u in best && Joined(g, blocked, u, v) ==>
                              v in best && best[v] <= best[u] + g.dist(u, v)
    ensures p[|p| - 1] in best && best[p[|p| - 1]] <= Cost(g, p)
    decreases |p|
  {
    if |p| > 1 {
      var k := |p| - 1;
      WalkPrefix(g, blocked, p, k);
      PotentialBound(g, blocked, p[..k], best);
      assert Leg(g, blocked, p, k - 1);
    }
  }

  // ------------------------------------------------------ optimal substructure

  /** What is left of a shortest path after its first leg is itself shortest, and
      is shorter by exactly that leg. */
  lemma ShortestTail(g: Topology, blocked: set<int>, p: seq<nat>, u: nat, v: nat)
    requires g.Valid() && Shortest(g, blocked, p, u, v) && |p| >= 2
    ensures Shortest(g, blocked, p[1..], p[1], v)
    ensures Cost(g, p) == g.dist(u, p[1]) + Cost(g, p[1..])
    ensures g.dist(u, p[1]) > 0.0
  {
    var t := p[1..];
    CostFront(g, p);
    WalkSuffix(g, blocked, p, 1);
    assert Leg(g, blocked, p, 0);
    JoinedNodes(g, blocked, p[0], p[1]);
    forall q | WalkTo(g, blocked, q, p[1], v) ensures Cost(g, t) <= Cost(g, q) {
      WalkPrepend(g, blocked, u, q);
      assert WalkTo(g, blocked, [u] + q, u, v);
    }
  }

  lemma DistanceUnique(g: Topology, blocked: set<int>, u: nat, v: nat, d: real, e: real)
    requires g.Valid() && Distance(g, blocked, u, v, d) && Distance(g, blocked, u, v, e)
    ensures d == e
  {
  }

  /** At the destination, and only there, nothing is left to travel. */
  lemma DistanceZero(g: Topology, blocked: set<int>, u: nat, v: nat, d: real)
    requires g.Valid() && u < g.n && Distance(g, blocked, u, v, d)
    ensures d >= 0.0
    ensures d == 0.0 <==> u == v
  {
    var p :| Shortest(g, blocked, p, u, v) && Cost(g, p) == d;
    CostNonNegative(g, blocked, p);
    if u == v {
      assert WalkTo(g, blocked, [u], u, v);
      assert Cost(g, [u]) == 0.0;
    } else {
      assert |p| >= 2;
    }
  }
}
