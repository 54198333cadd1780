// The shortest-path search of the hero diagram (www/mesh.js, `route`): Dijkstra
// over the links that are up, on arrays, with the path read back from `prev`.
module MeshRoute {
  import opened Finite
  import opened MeshGraph
  import opened Wrappers

  /** A tentative distance; `Infinite` is JavaScript's `Infinity`. */
  datatype Tentative = Infinite | Finite(cost: real)
  {
    predicate Less(other: Tentative)
    {
      Finite? && (other.Infinite? || cost < other.cost)
    }
  }

  /** The link indices the search must not use: those down, and `exclude`. */
  function Blocked(down: seq<nat>, exclude: int): set<int>
  {
    (set i: int | i in down) + {exclude}
  }

  /** The search state the proof talks about. `rank` is the order in which nodes
      were settled and `c` the number settled so far; both are proof-only. */
  datatype Search = Search(best: seq<Tentative>, prev: seq<int>, seen: seq<bool>, rank: seq<nat>, c: nat)
  {
    ghost predicate Shape(g: Topology)
    {
      |best| == g.n && |prev| == g.n && |seen| == g.n && |rank| == g.n
    }
  }

  /** Where a tentative distance came from: a settled predecessor, one leg back. */
  ghost predicate Chained(g: Topology, blocked: set<int>, s: Search, v: nat)
    requires g.Valid() && s.Shape(g) && v < g.n
  {
    && s.best[v].Finite?
    && 0 <= s.prev[v] < g.n
    && var u := s.prev[v];
    && s.seen[u] && s.best[u].Finite?
    && Joined(g, blocked, u, v)
    && s.best[v].cost == s.best[u].cost + g.dist(u, v)
    && s.rank[u] < (if s.seen[v] then s.rank[v] else s.c)
  }

  /** Every node's label is a real walk's length, and settled nodes are nearest. */
  ghost predicate Sound(g: Topology, blocked: set<int>, from: nat, s: Search)
    requires g.Valid() && from < g.n
  {
    && s.Shape(g)
    && s.best[from] == Finite(0.0) && s.prev[from] == -1
    && (forall v :: 0 <= v < g.n && s.best[v].Finite? ==> s.best[v].cost >= 0.0)
    && (forall v {:trigger Chained(g, blocked, s, v)} ::
          0 <= v < g.n && s.best[v].Finite? && v != from ==> Chained(g, blocked, s, v))
    && (forall v :: 0 <= v < g.n && s.seen[v] ==> s.best[v].Finite? && s.rank[v] < s.c)
    && (forall u, v :: 0 <= u < g.n && 0 <= v < g.n && s.seen[u] && !s.seen[v] && s.best[v].Finite? ==>
                         s.best[u].cost <= s.best[v].cost)
  }

  /** No link out of settled node `u` can improve the label at its far end. */
  ghost predicate Relaxed(g: Topology, blocked: set<int>, s: Search, u: nat)
    requires g.Valid() && s.Shape(g) && u < g.n
  {
    && s.best[u].Finite?
    && forall v: nat {:trigger Joined(g, blocked, u, v)} :: v < g.n && Joined(g, blocked, u, v) ==>
                     s.best[v].Finite? && s.best[v].cost <= s.best[u].cost + g.dist(u, v)
  }

  ghost predicate AllRelaxed(g: Topology, blocked: set<int>, s: Search)
    requires g.Valid() && s.Shape(g)
  {
    forall u {:trigger Relaxed(g, blocked, s, u)} :: 0 <= u < g.n && s.seen[u] ==> Relaxed(g, blocked, s, u)
  }

  ghost predicate AllRelaxedBut(g: Topology, blocked: set<int>, s: Search, u: nat)
    requires g.Valid() && s.Shape(g)
  {
    forall w {:trigger Relaxed(g, blocked, s, w)} ::
      0 <= w < g.n && s.seen[w] && w != u ==> Relaxed(g, blocked, s, w)
  }

  /** Node `u` has just been settled: it is the farthest settled node. */
  ghost predicate Frontier(g: Topology, s: Search, u: nat)
    requires g.Valid() && s.Shape(g) && u < g.n
  {
    && s.seen[u] && s.best[u].Finite?
    && (forall v :: 0 <= v < g.n && s.seen[v] ==> s.best[v].Finite? && s.best[v].cost <= s.best[u].cost)
  }

  /** The first `k` links have been relaxed from `u`. */
  ghost predicate RelaxedUpTo(g: Topology, blocked: set<int>, s: Search, u: nat, k: nat)
    requires g.Valid() && s.Shape(g) && u < g.n && k <= |g.edges|
  {
    && s.best[u].Finite?
    && forall i, v: nat {:trigger Connects(g, i, u, v)} ::
         0 <= i < k && i !in blocked && v < g.n && Connects(g, i, u, v) ==>
           s.best[v].Finite? && s.best[v].cost <= s.best[u].cost + g.dist(u, v)
  }

  // ------------------------------------------------------------- proof steps

  /** Only the start is labelled and nothing is settled. */
  ghost function Start(g: Topology, blocked: set<int>, from: nat): (s: Search)
    requires g.Valid() && from < g.n
    ensures Sound(g, blocked, from, s) && AllRelaxed(g, blocked, s)
    ensures s.best == seq(g.n, _ => Infinite)[from := Finite(0.0)]
    ensures s.prev == seq(g.n, _ => -1) && s.seen == seq(g.n, _ => false)
  {
    Search(seq(g.n, _ => Infinite)[from := Finite(0.0)], seq(g.n, _ => -1), seq(g.n, _ => false), seq(g.n, _ => 0), 0)
  }

  lemma SettleKeeps(g: Topology, blocked: set<int>, from: nat, s: Search, u: nat)
    requires g.Valid() && from < g.n && Sound(g, blocked, from, s) && AllRelaxed(g, blocked, s)
    requires u < g.n && !s.seen[u] && s.best[u].Finite?
    requires forall v :: 0 <= v < g.n && !s.seen[v] && s.best[v].Finite? ==> s.best[u].cost <= s.best[v].cost
    ensures var t := s.(seen := s.seen[u := true], rank := s.rank[u := s.c], c := s.c + 1);
            Relaxing(g, blocked, from, t, u, 0)
  {
    var t := s.(seen := s.seen[u := true], rank := s.rank[u := s.c], c := s.c + 1);
    forall v | 0 <= v < g.n && t.best[v].Finite? && v != from ensures Chained(g, blocked, t, v) {
      assert Chained(g, blocked, s, v);
      assert s.prev[v] != u;
    }
    forall w | 0 <= w < g.n && t.seen[w] && w != u ensures Relaxed(g, blocked, t, w) {
      assert Relaxed(g, blocked, s, w);
    }
  }

  /** The first `k` links out of the frontier node `u` are relaxed, as is every
      other settled node. */
  ghost predicate Relaxing(g: Topology, blocked: set<int>, from: nat, s: Search, u: nat, k: nat)
    requires g.Valid() && from < g.n && u < g.n && k <= |g.edges|
  {
    && Sound(g, blocked, from, s) && Frontier(g, s, u)
    && RelaxedUpTo(g, blocked, s, u, k) && AllRelaxedBut(g, blocked, s, u)
  }

  /** The far end of link `i` seen from `u`, or -1 when the link is elsewhere. */
  function FarEnd(g: Topology, i: nat, u: nat): (v: int)
    requires i < |g.edges|
    ensures v >= 0 ==> Connects(g, i, u, v)
    ensures v < 0 ==> forall w :: !Connects(g, i, u, w)
  {
    var (a, b) := g.edges[i];
    if a == u then b else if b == u then a else -1
  }

  /** A settled node is never improved: it is nearer than the frontier. */
  lemma ImproveKeepsSound(g: Topology, blocked: set<int>, from: nat, s: Search, u: nat, v: nat)
    requires g.Valid() && from < g.n && u < g.n && v < g.n
    requires Sound(g, blocked, from, s) && Frontier(g, s, u) && Joined(g, blocked, u, v) && g.dist(u, v) > 0.0
    requires Finite(s.best[u].cost + g.dist(u, v)).Less(s.best[v])
    ensures !s.seen[v] && v != u && Sound(g, blocked, from, Improved(g, s, u, v))
  {
    var t := Improved(g, s, u, v);
    assert !s.seen[v] && v != from && v != u;
    forall w | 0 <= w < g.n && t.best[w].Finite? && w != from ensures Chained(g, blocked, t, w) {
      if w != v {
        assert Chained(g, blocked, s, w);
      }
    }
  }

  /** Lowering the label of `v` through the frontier node keeps everything. */
  lemma ImproveKeeps(g: Topology, blocked: set<int>, from: nat, s: Search, u: nat, v: nat, k: nat)
    requires g.Valid() && from < g.n && u < g.n && v < g.n && k <= |g.edges|
    requires Relaxing(g, blocked, from, s, u, k) && Joined(g, blocked, u, v)
    requires Finite(s.best[u].cost + g.dist(u, v)).Less(s.best[v])
    ensures Relaxing(g, blocked, from, Improved(g, s, u, v), u, k)
  {
    JoinedNodes(g, blocked, u, v);
    ImproveKeepsSound(g, blocked, from, s, u, v);
    var t := Improved(g, s, u, v);
    forall w | 0 <= w < g.n && t.seen[w] && w != u ensures Relaxed(g, blocked, t, w) {
      assert Relaxed(g, blocked, s, w);
    }
  }

  ghost function Improved(g: Topology, s: Search, u: nat, v: nat): Search
    requires s.Shape(g) && u < g.n && v < g.n && s.best[u].Finite?
  {
    s.(best := s.best[v := Finite(s.best[u].cost + g.dist(u, v))], prev := s.prev[v := u])
  }

  /** Looking at one more link. */
  lemma RelaxStep(g: Topology, blocked: set<int>, from: nat, s: Search, u: nat, i: nat)
    requires g.Valid() && from < g.n && u < g.n && i < |g.edges|
    requires Relaxing(g, blocked, from, s, u, i)
    ensures i in blocked || FarEnd(g, i, u) == -1 ==> Relaxing(g, blocked, from, s, u, i + 1)
    ensures i !in blocked && FarEnd(g, i, u) >= 0 ==>
              var v := FarEnd(g, i, u);
              if Finite(s.best[u].cost + g.dist(u, v)).Less(s.best[v])
              then Relaxing(g, blocked, from, Improved(g, s, u, v), u, i + 1)
              else Relaxing(g, blocked, from, s, u, i + 1)
  {
    var v := FarEnd(g, i, u);
    if i !in blocked && v >= 0 {
      assert Joined(g, blocked, u, v);
      if Finite(s.best[u].cost + g.dist(u, v)).Less(s.best[v]) {
        ImproveKeeps(g, blocked, from, s, u, v, i);
      }
    }
  }

  lemma RelaxedAtEnd(g: Topology, blocked: set<int>, from: nat, s: Search, u: nat)
    requires g.Valid() && from < g.n && u < g.n && Relaxing(g, blocked, from, s, u, |g.edges|)
    ensures AllRelaxed(g, blocked, s)
  {
    forall v: nat | v < g.n && Joined(g, blocked, u, v)
      ensures s.best[v].Finite? && s.best[v].cost <= s.best[u].cost + g.dist(u, v)
    {
      var i :| 0 <= i < |g.edges| && i !in blocked && Connects(g, i, u, v);
    }
  }

  /** A finished search: every labelled node is settled and relaxed. */
  ghost predicate Finished(g: Topology, blocked: set<int>, from: nat, s: Search)
    requires g.Valid() && from < g.n
  {
    && Sound(g, blocked, from, s) && AllRelaxed(g, blocked, s)
    && forall v :: 0 <= v < g.n && s.best[v].Finite? ==> s.seen[v]
  }

  /** A finished search bounds every walk from its start from below. */
  lemma FinishedBounds(g: Topology, blocked: set<int>, from: nat, s: Search, p: seq<nat>, v: nat)
    requires g.Valid() && from < g.n && Finished(g, blocked, from, s)
    requires WalkTo(g, blocked, p, from, v)
    ensures v < g.n && s.best[v].Finite? && s.best[v].cost <= Cost(g, p)
  {
    var best := map w: nat | w < g.n && s.best[w].Finite? :: s.best[w].cost;
    forall a: nat, b: nat | a in best && Joined(g, blocked, a, b)
      ensures b in best && best[b] <= best[a] + g.dist(a, b)
    {
      assert Relaxed(g, blocked, s, a);
    }
    PotentialBound(g, blocked, p, best);
  }

  ghost function Unsettled(seen: seq<bool>): nat
  {
    if seen == [] then 0 else Unsettled(seen[1..]) + (if seen[0] then 0 else 1)
  }

  lemma {:induction false} SettleShrinks(seen: seq<bool>, u: nat)
    requires u < |seen| && !seen[u]
    ensures Unsettled(seen[u := true]) < Unsettled(seen)
    decreases u
  {
    if u == 0 {
      assert seen[u := true][1..] == seen[1..];
    } else {
      SettleShrinks(seen[1..], u - 1);
      assert seen[u := true][1..] == seen[1..][u - 1 := true];
    }
  }

  // ---------------------------------------------------------------- the code

  /** `u` is an unsettled reached node no farther than any other, or -1 when
      there is none. */
  ghost predicate Nearest(best: seq<Tentative>, seen: seq<bool>, u: int)
    requires |best| == |seen|
  {
    if u == -1 then forall i :: 0 <= i < |best| && best[i].Finite? ==> seen[i]
    else
      && 0 <= u < |best| && !seen[u] && best[u].Finite?
      && forall i :: 0 <= i < |best| && !seen[i] && best[i].Finite? ==> best[u].cost <= best[i].cost
  }

  method PickNearest(best: array<Tentative>, seen: array<bool>) returns (u: int)
    requires best.Length == seen.Length
    ensures Nearest(best[..], seen[..], u)
  {
    u := -1;
    for i := 0 to best.Length
      invariant Nearest(best[..i], seen[..i], u)
    {
      if !seen[i] && best[i].Less(if u == -1 then Infinite else best[u]) {
        u := i;
      }
    }
    assert best[..best.Length] == best[..] && seen[..best.Length] == seen[..];
  }

  /** Relax every usable link out of the freshly settled node `u`. */
  method RelaxLinks(g: Topology, down: seq<nat>, exclude: int, ghost from: nat, u: nat,
                    best: array<Tentative>, prev: array<int>, ghost s0: Search)
    returns (ghost s: Search)
    requires g.Valid() && from < g.n && u < g.n
    requires Relaxing(g, Blocked(down, exclude), from, s0, u, 0)
    requires best[..] == s0.best && prev[..] == s0.prev
    modifies best, prev
    ensures Relaxing(g, Blocked(down, exclude), from, s, u, |g.edges|)
    ensures s == s0.(best := best[..], prev := prev[..])
  {
    ghost var blocked := Blocked(down, exclude);
    s := s0;
    for i := 0 to |g.edges|
      invariant s.Shape(g) && s == s0.(best := best[..], prev := prev[..])
      invariant Relaxing(g, blocked, from, s, u, i)
    {
      RelaxStep(g, blocked, from, s, u, i);
      if i != exclude && i !in down {
        var (a, b) := g.edges[i];
        var v := FarEnd(g, i, u);
        if v != -1 {
          var alt := Finite(best[u].cost + g.dist(a, b));
          if alt.Less(best[v]) {
            s := Improved(g, s, u, v);
            best[v] := alt;
            prev[v] := u;
          }
        }
      }
    }
  }

  /** `path` has been read back from `dst` by the `prev` chain, and `at` comes next. */
  ghost predicate Tracing(g: Topology, blocked: set<int>, s: Search, path: seq<nat>, at: int)
    requires g.Valid() && s.Shape(g)
  {
    && Walk(g, blocked, path) && path[|path| - 1] == g.dst
    && s.best[path[0]].Finite? && s.best[g.dst].Finite? && at == s.prev[path[0]]
    && s.best[path[0]].cost + Cost(g, path) == s.best[g.dst].cost
    && (forall i :: 0 <= i < |path| ==> s.rank[path[0]] <= s.rank[path[i]])
    && Distinct(path)
  }

  lemma TraceStart(g: Topology, blocked: set<int>, s: Search)
    requires g.Valid() && s.Shape(g) && s.best[g.dst].Finite?
    ensures Tracing(g, blocked, s, [g.dst] + [], s.prev[g.dst])
  {
    assert [g.dst] + [] == [g.dst];
    assert Cost(g, [g.dst]) == 0.0;
  }

  /** The chain ends at the start only, and leads to ever earlier nodes. */
  lemma TraceBefore(g: Topology, blocked: set<int>, from: nat, s: Search, v: nat)
    requires g.Valid() && from < g.n && Finished(g, blocked, from, s) && v < g.n && s.best[v].Finite?
    ensures s.prev[v] == -1 <==> v == from
    ensures v != from ==>
              && 0 <= s.prev[v] < g.n && s.best[s.prev[v]].Finite? && Joined(g, blocked, s.prev[v], v)
              && s.best[v].cost == s.best[s.prev[v]].cost + g.dist(s.prev[v], v)
              && s.rank[s.prev[v]] < s.rank[v]
  {
    if v != from {
      assert Chained(g, blocked, s, v);
    }
  }

  lemma TraceStep(g: Topology, blocked: set<int>, from: nat, s: Search, path: seq<nat>, at: nat)
    requires g.Valid() && from < g.n && Finished(g, blocked, from, s) && Tracing(g, blocked, s, path, at)
    ensures at < g.n && Tracing(g, blocked, s, [at] + path, s.prev[at])
  {
    TraceBefore(g, blocked, from, s, path[0]);
    WalkPrepend(g, blocked, at, path);
    assert forall i :: 0 <= i < |path| ==> path[i] != at;
  }

  /** Read the path to `dst` back from `prev`. The chain never revisits a node. */
  method TraceBack(g: Topology, ghost blocked: set<int>, ghost from: nat, prev: array<int>, ghost s: Search)
    returns (path: seq<nat>)
    requires g.Valid() && from < g.n && Finished(g, blocked, from, s)
    requires prev[..] == s.prev && s.best[g.dst].Finite?
    ensures WalkTo(g, blocked, path, from, g.dst)
    ensures Cost(g, path) == s.best[g.dst].cost
    ensures Distinct(path)
  {
    path := [];
    var at: int := g.dst;
    TraceBefore(g, blocked, from, s, at);
    while at != -1
      invariant -1 <= at < g.n && (at != -1 ==> s.best[at].Finite?)
      invariant if path == [] then at == g.dst else Tracing(g, blocked, s, path, at)
      decreases if at == -1 then -1 else s.rank[at]
    {
      if path == [] {
        TraceStart(g, blocked, s);
      } else {
        TraceStep(g, blocked, from, s, path, at);
      }
      TraceBefore(g, blocked, from, s, at);
      path := [at] + path;
      at := prev[at];
    }
    if path[0] != from {
      TraceBefore(g, blocked, from, s, path[0]);
    }
  }

  /** Settle nodes nearest first until no reached node is left. */
  method Settle(g: Topology, down: seq<nat>, exclude: int, from: nat)
    returns (best: array<Tentative>, prev: array<int>, ghost s: Search)
    requires g.Valid() && from < g.n
    ensures Finished(g, Blocked(down, exclude), from, s)
    ensures best[..] == s.best && prev[..] == s.prev
  {
    ghost var blocked := Blocked(down, exclude);
    s := Start(g, blocked, from);
    best := new Tentative[g.n](_ => Infinite);
    prev := new int[g.n](_ => -1);
    var seen := new bool[g.n](_ => false);
    best[from] := Finite(0.0);

    while true
      invariant fresh(best) && fresh(prev) && fresh(seen)
      invariant s.Shape(g) && best[..] == s.best && prev[..] == s.prev && seen[..] == s.seen
      invariant Sound(g, blocked, from, s) && AllRelaxed(g, blocked, s)
      decreases Unsettled(s.seen)
    {
      var u := PickNearest(best, seen);
      if u == -1 { return; }
      SettleKeeps(g, blocked, from, s, u);
      SettleShrinks(s.seen, u);
      seen[u] := true;
      s := s.(seen := s.seen[u := true], rank := s.rank[u := s.c], c := s.c + 1);
      s := RelaxLinks(g, down, exclude, from, u, best, prev, s);
      RelaxedAtEnd(g, blocked, from, s, u);
    }
  }

  /** The search itself: `None` exactly when the destination is cut off,
      otherwise a shortest path that repeats no node. */
  method Route(g: Topology, down: seq<nat>, exclude: int, from: nat) returns (r: Option<seq<nat>>)
    requires g.Valid() && from < g.n
    ensures r.Some? <==> Reaches(g, Blocked(down, exclude), from, g.dst)
    ensures r.Some? ==> Shortest(g, Blocked(down, exclude), r.value, from, g.dst)
    ensures r.Some? ==> Distinct(r.value) && |r.value| <= g.n
  {
    ghost var blocked := Blocked(down, exclude);
    var best, prev, s := Settle(g, down, exclude, from);
    if best[g.dst].Infinite? {
      forall p | WalkTo(g, blocked, p, from, g.dst) ensures false {
        FinishedBounds(g, blocked, from, s, p, g.dst);
      }
      return None;
    }
    var path := TraceBack(g, blocked, from, prev, s);
    forall q | WalkTo(g, blocked, q, from, g.dst) ensures Cost(g, path) <= Cost(g, q) {
      FinishedBounds(g, blocked, from, s, q, g.dst);
    }
    DistinctFits(path, g.n);
    return Some(path);
  }
}
