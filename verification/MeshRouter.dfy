// The forwarding state of the hero diagram (www/mesh.js): a frame held by one
// node that only ever knows its next hop, re-decided at every hop, and a failure
// injector that drops and heals links while the frame is in flight.
//
// Timers are replaced by nondeterminism: `Step`, `Emit` and `DropLink` may happen
// in any order and any number of times.
module MeshRouter {
  import opened Finite
  import opened MeshGraph
  import opened MeshRoute
  import opened Wrappers

  /** `leg` is how far along the leg from `at` to `to` the frame has travelled. */
  datatype State = State(down: seq<nat>, at: nat, to: Option<nat>, trail: seq<nat>, leg: real)

  ghost function DownSet(down: seq<nat>): set<int>
  {
    Blocked(down, -1)
  }

  /** `v` is the second node of some shortest path from `at` to the destination. */
  ghost predicate IsNextHop(g: Topology, down: seq<nat>, at: nat, v: nat)
    requires g.Valid()
  {
    exists p :: Shortest(g, DownSet(down), p, at, g.dst) && |p| >= 2 && p[1] == v
  }

  /** What `nextHop` may answer at `at`: nothing exactly at the destination or
      when cut off, otherwise the first step of a shortest path. */
  ghost predicate Decided(g: Topology, down: seq<nat>, at: nat, to: Option<nat>)
    requires g.Valid()
  {
    match to
    case None => at == g.dst || !Reaches(g, DownSet(down), at, g.dst)
    case Some(v) => at != g.dst && IsNextHop(g, down, at, v)
  }

  /** The oldest failure heals once more than two links are down. */
  function Heal(down: seq<nat>): seq<nat>
  {
    if |down| > 2 then down[1..] else down
  }

  // ------------------------------------------------------- transition relations

  ghost predicate Emits(g: Topology, s: State, t: State)
    requires g.Valid()
  {
    && t.down == s.down && t.at == g.src && t.trail == [g.src] && t.leg == 0.0
    && Decided(g, t.down, t.at, t.to)
  }

  /** The frame completes its leg: the next hop now holds it and decides anew. */
  ghost predicate Arrives(g: Topology, s: State, t: State)
    requires g.Valid()
  {
    && s.to.Some?
    && t.down == s.down && t.at == s.to.value && t.trail == s.trail + [t.at] && t.leg == 0.0
    && Decided(g, t.down, t.at, t.to)
  }

  /** The frame moves along its leg without completing it, or waits. */
  ghost predicate Travels(s: State, t: State)
  {
    t == s.(leg := t.leg) && s.leg <= t.leg < 1.0 && (s.to.None? ==> t.leg == s.leg)
  }

  /** `idx` is the link `findIndex` reports for the leg from `u` to `v`. */
  ghost predicate FirstLink(g: Topology, u: nat, v: nat, idx: nat)
  {
    idx < |g.edges| && Connects(g, idx, u, v) && forall j :: 0 <= j < idx ==> !Connects(g, j, u, v)
  }

  /** The link of step `i` ahead may go down: it is up, and without it neither the source nor the
      holder is stranded. */
  ghost predicate Droppable(g: Topology, s: State, ahead: seq<nat>, i: int, idx: nat)
    requires 0 <= i < |ahead| - 1
  {
    && FirstLink(g, ahead[i], ahead[i + 1], idx) && idx !in s.down
    && Reaches(g, Blocked(s.down, idx), g.src, g.dst)
    && Reaches(g, Blocked(s.down, idx), s.at, g.dst)
  }

  ghost predicate Loses(g: Topology, s: State, t: State, ahead: seq<nat>, i: int, idx: nat)
    requires g.Valid() && 0 <= i < |ahead| - 1
  {
    && Droppable(g, s, ahead, i, idx)
    && t.down == Heal(s.down + [idx]) && t.at == s.at && t.trail == s.trail
    && Decided(g, t.down, t.at, t.to)
    && t.leg == (if s.to.Some? && Connects(g, idx, s.at, s.to.value) then 0.0 else s.leg)
  }

  /** A link on the path ahead goes down, or each of its legs is one the network
      cannot spare and nothing changes. */
  ghost predicate DropsOn(g: Topology, s: State, t: State, ahead: seq<nat>)
    requires g.Valid()
  {
    || (t == s && forall i, idx :: 0 <= i < |ahead| - 1 ==> !Droppable(g, s, ahead, i, idx))
    || exists i, idx :: 0 <= i < |ahead| - 1 && Loses(g, s, t, ahead, i, idx)
  }

  ghost predicate Drops(g: Topology, s: State, t: State)
    requires g.Valid()
  {
    exists ahead :: Shortest(g, DownSet(s.down), ahead, s.at, g.dst) && DropsOn(g, s, t, ahead)
  }

  ghost predicate Moves(g: Topology, s: State, t: State)
    requires g.Valid()
  {
    Emits(g, s, t) || Arrives(g, s, t) || Travels(s, t) || Drops(g, s, t)
  }

  // ---------------------------------------------------------------- invariant

  /** Neither the source nor the holder is ever cut off, the next hop is always
      current, and at most two links are down. */
  ghost predicate Inv(g: Topology, s: State)
    requires g.Valid()
  {
    && |s.down| <= 2 && Distinct(s.down) && (forall i :: 0 <= i < |s.down| ==> s.down[i] < |g.edges|)
    && s.at < g.n
    && Reaches(g, DownSet(s.down), g.src, g.dst)
    && Reaches(g, DownSet(s.down), s.at, g.dst)
    && Decided(g, s.down, s.at, s.to)
    && WalkTo(g, {}, s.trail, g.src, s.at)
    && 0.0 <= s.leg < 1.0
  }

  /** The fallbacks for a frame with nowhere to go are never needed. */
  lemma NeverStranded(g: Topology, s: State)
    requires g.Valid() && Inv(g, s)
    ensures s.to.None? <==> s.at == g.dst
  {
  }

  /** A next hop is one usable leg away and nearer by exactly that leg. */
  lemma NextHopNearer(g: Topology, down: seq<nat>, at: nat, v: nat)
    requires g.Valid() && IsNextHop(g, down, at, v)
    ensures Joined(g, DownSet(down), at, v) && at < g.n && v < g.n && g.dist(at, v) > 0.0
    ensures Reaches(g, DownSet(down), v, g.dst)
    ensures exists d :: Distance(g, DownSet(down), at, g.dst, d)
    ensures forall d :: Distance(g, DownSet(down), at, g.dst, d) ==>
                          Distance(g, DownSet(down), v, g.dst, d - g.dist(at, v))
  {
    var b := DownSet(down);
    var p :| Shortest(g, b, p, at, g.dst) && |p| >= 2 && p[1] == v;
    ShortestTail(g, b, p, at, g.dst);
    assert Leg(g, b, p, 0);
    JoinedNodes(g, b, at, v);
    assert Distance(g, b, at, g.dst, Cost(g, p));
    assert Distance(g, b, v, g.dst, Cost(g, p[1..]));
    forall d | Distance(g, b, at, g.dst, d) ensures Distance(g, b, v, g.dst, d - g.dist(at, v)) {
      DistanceUnique(g, b, at, g.dst, d, Cost(g, p));
    }
  }

  lemma TrailGrows(g: Topology, down: seq<nat>, trail: seq<nat>, at: nat, v: nat)
    requires g.Valid() && WalkTo(g, {}, trail, g.src, at)
    requires Joined(g, DownSet(down), at, v) && v < g.n
    ensures WalkTo(g, {}, trail + [v], g.src, v)
  {
    var w := trail + [v];
    forall i | 0 <= i < |w| - 1 ensures Leg(g, {}, w, i) {
      if i < |trail| - 1 {
        assert Leg(g, {}, trail, i);
      } else {
        var e :| 0 <= e < |g.edges| && e !in DownSet(down) && Connects(g, e, at, v);
      }
    }
  }

  lemma ArriveKeeps(g: Topology, s: State, t: State)
    requires g.Valid() && Inv(g, s) && Arrives(g, s, t)
    ensures Inv(g, t)
  {
    NextHopNearer(g, s.down, s.at, t.at);
    TrailGrows(g, s.down, s.trail, s.at, t.at);
  }

  lemma HealedLinksUsable(down: seq<nat>, idx: nat)
    ensures DownSet(Heal(down + [idx])) <= Blocked(down, idx) + {-1}
  {
  }

  lemma ReachesWithoutIndex(g: Topology, down: seq<nat>, idx: nat, u: nat)
    requires Reaches(g, Blocked(down, idx), u, g.dst)
    ensures Reaches(g, DownSet(Heal(down + [idx])), u, g.dst)
  {
    var p :| WalkTo(g, Blocked(down, idx), p, u, g.dst);
    var b := DownSet(Heal(down + [idx]));
    HealedLinksUsable(down, idx);
    forall i | 0 <= i < |p| - 1 ensures Leg(g, b, p, i) {
      assert Leg(g, Blocked(down, idx), p, i);
      var e :| 0 <= e < |g.edges| && e !in Blocked(down, idx) && Connects(g, e, p[i], p[i + 1]);
      assert e !in b;
    }
    assert WalkTo(g, b, p, u, g.dst);
  }

  lemma LoseKeeps(g: Topology, s: State, t: State, ahead: seq<nat>, i: int, idx: nat)
    requires g.Valid() && Inv(g, s) && 0 <= i < |ahead| - 1 && Loses(g, s, t, ahead, i, idx)
    ensures Inv(g, t)
  {
    ReachesWithoutIndex(g, s.down, idx, g.src);
    ReachesWithoutIndex(g, s.down, idx, s.at);
  }

  /** `after` is `before` with link `idx` newly down, and the older of two healed. */
  predicate Fails(before: seq<nat>, after: seq<nat>, idx: nat)
    requires |before| <= 2
  {
    idx !in before && after == if |before| < 2 then before + [idx] else [before[1], idx]
  }

  ghost predicate SomeFails(before: seq<nat>, after: seq<nat>)
  {
    |before| <= 2 && exists idx :: Fails(before, after, idx)
  }

  /** Losing a link takes down that link and heals the oldest of three. */
  lemma LossFails(g: Topology, s: State, t: State, ahead: seq<nat>, i: int, idx: nat)
    requires g.Valid() && Inv(g, s) && 0 <= i < |ahead| - 1 && Loses(g, s, t, ahead, i, idx)
    ensures Fails(s.down, t.down, idx) && idx in t.down
  {
    assert t.down[|t.down| - 1] == idx;
  }

  lemma LostLink(g: Topology, s: State, t: State, ahead: seq<nat>, i: int, idx: nat)
    requires g.Valid() && Inv(g, s) && Shortest(g, DownSet(s.down), ahead, s.at, g.dst)
    requires 0 <= i < |ahead| - 1 && Loses(g, s, t, ahead, i, idx)
    ensures Inv(g, t) && Drops(g, s, t) && SomeFails(s.down, t.down)
  {
    LoseKeeps(g, s, t, ahead, i, idx);
    LossFails(g, s, t, ahead, i, idx);
  }

  lemma DropKeeps(g: Topology, s: State, t: State)
    requires g.Valid() && Inv(g, s) && Drops(g, s, t)
    ensures Inv(g, t)
  {
    var ahead :| Shortest(g, DownSet(s.down), ahead, s.at, g.dst) && DropsOn(g, s, t, ahead);
    if t != s {
      var i, idx :| 0 <= i < |ahead| - 1 && Loses(g, s, t, ahead, i, idx);
      LoseKeeps(g, s, t, ahead, i, idx);
    }
  }

  lemma MoveKeeps(g: Topology, s: State, t: State)
    requires g.Valid() && Inv(g, s) && Moves(g, s, t)
    ensures Inv(g, t)
  {
    if Emits(g, s, t) {
      assert Walk(g, {}, [g.src]);
    } else if Arrives(g, s, t) {
      ArriveKeeps(g, s, t);
    } else if Drops(g, s, t) {
      DropKeeps(g, s, t);
    }
  }

  ghost predicate MoveAt(g: Topology, run: seq<State>, i: int)
    requires g.Valid() && 0 <= i < |run| - 1
  {
    Moves(g, run[i], run[i + 1])
  }

  /** Over every interleaving of moves the invariant holds throughout, and the
      next hop is missing only at the destination. */
  lemma {:induction false} EveryRunSafe(g: Topology, run: seq<State>, k: nat)
    requires g.Valid() && k < |run| && Inv(g, run[0])
    requires forall i :: 0 <= i < |run| - 1 ==> MoveAt(g, run, i)
    ensures Inv(g, run[k]) && (run[k].to.None? <==> run[k].at == g.dst)
  {
    if k > 0 {
      EveryRunSafe(g, run, k - 1);
      assert MoveAt(g, run, k - 1);
      MoveKeeps(g, run[k - 1], run[k]);
    }
  }

  // ----------------------------------------------------------------- delivery

  ghost predicate HopAt(g: Topology, hops: seq<State>, i: int)
    requires g.Valid() && 0 <= i < |hops| - 1
  {
    Arrives(g, hops[i], hops[i + 1])
  }

  /** A run in which the frame only ever completes legs. */
  ghost predicate HopRun(g: Topology, hops: seq<State>)
    requires g.Valid()
  {
    && |hops| > 0 && Inv(g, hops[0])
    && forall i :: 0 <= i < |hops| - 1 ==> HopAt(g, hops, i)
  }

  ghost function Holders(hops: seq<State>): seq<nat>
  {
    seq(|hops|, i requires 0 <= i < |hops| => hops[i].at)
  }

  lemma HopRunExtend(g: Topology, hops: seq<State>, t: State)
    requires g.Valid() && HopRun(g, hops) && Arrives(g, hops[|hops| - 1], t)
    ensures HopRun(g, hops + [t]) && Holders(hops + [t]) == Holders(hops) + [t.at]
  {
    var more := hops + [t];
    forall i | 0 <= i < |more| - 1 ensures HopAt(g, more, i) {
      if i < |hops| - 1 {
        assert HopAt(g, hops, i);
      }
    }
  }

  /** One hop takes exactly its own length off the remaining distance. */
  lemma HopNearer(g: Topology, s: State, t: State, d: real)
    requires g.Valid() && Inv(g, s) && Arrives(g, s, t) && Distance(g, DownSet(s.down), s.at, g.dst, d)
    ensures Inv(g, t) && Distance(g, DownSet(s.down), t.at, g.dst, d - g.dist(s.at, t.at)) && g.dist(s.at, t.at) > 0.0
  {
    NextHopNearer(g, s.down, s.at, t.at);
    ArriveKeeps(g, s, t);
  }

  /** With no link changing, the remaining distance falls by exactly the legs
      travelled, and strictly with every one of them. */
  lemma HopsConserveDistance(g: Topology, hops: seq<State>, d0: real) returns (d: real)
    requires g.Valid() && HopRun(g, hops)
    requires Distance(g, DownSet(hops[0].down), hops[0].at, g.dst, d0)
    ensures var last := hops[|hops| - 1];
            && last.down == hops[0].down && Inv(g, last)
            && Distance(g, DownSet(hops[0].down), last.at, g.dst, d)
            && d0 == Cost(g, Holders(hops)) + d
    ensures |hops| > 1 ==> d < d0
  {
    d := DistanceAt(g, hops, d0, |hops| - 1);
    assert Holders(hops)[..|hops|] == Holders(hops);
  }

  lemma {:induction false} DistanceAt(g: Topology, hops: seq<State>, d0: real, k: nat) returns (d: real)
    requires g.Valid() && HopRun(g, hops) && k < |hops|
    requires Distance(g, DownSet(hops[0].down), hops[0].at, g.dst, d0)
    ensures hops[k].down == hops[0].down && Inv(g, hops[k])
    ensures Distance(g, DownSet(hops[0].down), hops[k].at, g.dst, d)
    ensures d0 == Cost(g, Holders(hops)[..k + 1]) + d && (k > 0 ==> d < d0)
  {
    d := d0;
    if k > 0 {
      var before := DistanceAt(g, hops, d0, k - 1);
      assert HopAt(g, hops, k - 1);
      HopNearer(g, hops[k - 1], hops[k], before);
      d := before - g.dist(hops[k - 1].at, hops[k].at);
      assert Holders(hops)[..k + 1][..k] == Holders(hops)[..k];
    }
  }

  lemma DistancesDiffer(g: Topology, blocked: set<int>, u: nat, v: nat, d: real, e: real)
    requires g.Valid() && Distance(g, blocked, u, g.dst, d) && Distance(g, blocked, v, g.dst, e) && d != e
    ensures u != v
  {
  }

  lemma HopRunSlice(g: Topology, hops: seq<State>, i: nat, k: nat)
    requires g.Valid() && HopRun(g, hops) && i < k <= |hops| && Inv(g, hops[i])
    ensures HopRun(g, hops[i..k])
  {
    forall j | 0 <= j < k - i - 1 ensures HopAt(g, hops[i..k], j) {
      assert HopAt(g, hops, i + j);
    }
  }

  lemma NeverBack(g: Topology, hops: seq<State>, d: real)
    requires g.Valid() && HopRun(g, hops) && |hops| > 1
    requires Distance(g, DownSet(hops[0].down), hops[0].at, g.dst, d)
    ensures hops[0].at != hops[|hops| - 1].at
  {
    var e := HopsConserveDistance(g, hops, d);
    DistancesDiffer(g, DownSet(hops[0].down), hops[0].at, hops[|hops| - 1].at, d, e);
  }

  /** No node holds the frame twice: it would have to be nearer than itself. */
  lemma HoldersDiffer(g: Topology, hops: seq<State>, d0: real, i: nat, k: nat)
    requires g.Valid() && HopRun(g, hops) && i < k < |hops|
    requires Distance(g, DownSet(hops[0].down), hops[0].at, g.dst, d0)
    ensures hops[i].at != hops[k].at
  {
    var di := DistanceAt(g, hops, d0, i);
    HopRunSlice(g, hops, i, k + 1);
    var since := hops[i..k + 1];
    assert since[0] == hops[i] && since[|since| - 1] == hops[k];
    NeverBack(g, since, di);
  }

  /** Left alone, the frame is delivered: no node repeats, so fewer hops than
      nodes are taken; the frame is at the destination exactly when its hops add
      up to the distance it started from, and until then it has a next hop. */
  lemma Delivery(g: Topology, hops: seq<State>, d0: real)
    requires g.Valid() && HopRun(g, hops)
    requires Distance(g, DownSet(hops[0].down), hops[0].at, g.dst, d0)
    ensures Distinct(Holders(hops)) && |hops| <= g.n
    ensures hops[|hops| - 1].at == g.dst <==> Cost(g, Holders(hops)) == d0
    ensures hops[|hops| - 1].at != g.dst ==> hops[|hops| - 1].to.Some?
  {
    var d := HopsConserveDistance(g, hops, d0);
    DistanceZero(g, DownSet(hops[0].down), hops[|hops| - 1].at, g.dst, d);
    var p := Holders(hops);
    forall i, k | 0 <= i < k < |hops| ensures p[i] != p[k] {
      HoldersDiffer(g, hops, d0, i, k);
    }
    forall i | 0 <= i < |p| ensures p[i] < g.n {
      var _ := DistanceAt(g, hops, d0, i);
    }
    DistinctFits(p, g.n);
  }

  /** One more hop of an undisturbed run: still a run, over one more node. */
  lemma Carried(g: Topology, hops: seq<State>, t: State, d0: real)
    requires g.Valid() && HopRun(g, hops) && Arrives(g, hops[|hops| - 1], t)
    requires Distance(g, DownSet(hops[0].down), hops[0].at, g.dst, d0)
    ensures HopRun(g, hops + [t]) && Holders(hops + [t]) == Holders(hops) + [t.at] && |hops| < g.n
  {
    HopRunExtend(g, hops, t);
    assert (hops + [t])[0] == hops[0];
    Delivery(g, hops + [t], d0);
  }

  // ------------------------------------------------------------ the running diagram

  class Diagram {
    const g: Topology
    var down: seq<nat>
    var at: nat
    var to: Option<nat>
    var trail: seq<nat>
    var leg: real

    ghost function Now(): State
      reads this
    {
      State(down, at, to, trail, leg)
    }

    ghost predicate Valid()
      reads this
    {
      g.Valid() && Inv(g, Now())
    }

    constructor (topology: Topology)
      requires topology.Valid() && Reaches(topology, DownSet([]), topology.src, topology.dst)
      ensures Valid() && g == topology && at == topology.src && down == []
    {
      g := topology;
      down, at, trail, leg := [], topology.src, [topology.src], 0.0;
      var hop := NextHop(topology, [], topology.src);
      to := hop;
    }

    /** Run the search from `from` and take its first step. */
    static method NextHop(g: Topology, down: seq<nat>, from: nat) returns (hop: Option<nat>)
      requires g.Valid() && from < g.n
      ensures Decided(g, down, from, hop)
    {
      var p := Route(g, down, -1, from);
      if p.Some? && |p.value| > 1 {
        hop := Some(p.value[1]);
      } else {
        hop := None;
      }
    }

    /** One animation frame; `advance` is the share of the leg covered in it.
        `gaveUp` reports the fallback for a frame with nowhere to go. */
    method Step(advance: real, dwelling: bool) returns (gaveUp: bool)
      requires Valid() && advance >= 0.0
      modifies this
      ensures Valid() && !gaveUp
      ensures if old(to).None? || dwelling then Now() == old(Now())
              else if old(leg) + advance >= 1.0 then Arrives(g, old(Now()), Now())
              else Travels(old(Now()), Now()) && leg == old(leg) + advance
    {
      ghost var was := Now();
      gaveUp := false;
      if to.None? || dwelling {
        return;
      }
      leg := leg + advance;
      if leg >= 1.0 {
        at := to.value;
        leg := 0.0;
        trail := trail + [at];
        NextHopNearer(g, was.down, was.at, at);
        if at == g.dst {
          to := None;
        } else {
          to := NextHop(g, down, at);
          if to.None? {
            gaveUp := true;
          }
        }
        ArriveKeeps(g, was, Now());
      }
    }

    method Emit()
      requires Valid()
      modifies this
      ensures Valid() && Emits(g, old(Now()), Now())
    {
      trail := [g.src];
      at := g.src;
      leg := 0.0;
      to := NextHop(g, down, g.src);
      assert Walk(g, {}, [g.src]);
    }

    method FindLink(u: nat, v: nat) returns (idx: int)
      ensures idx == -1 ==> forall j :: 0 <= j < |g.edges| ==> !Connects(g, j, u, v)
      ensures idx != -1 ==> 0 <= idx && FirstLink(g, u, v, idx)
    {
      for i := 0 to |g.edges|
        invariant forall j :: 0 <= j < i ==> !Connects(g, j, u, v)
      {
        if Connects(g, i, u, v) {
          return i;
        }
      }
      return -1;
    }

    /** The links ahead of the frame that the network can spare, in path order. */
    method Candidates(ahead: seq<nat>) returns (candidates: seq<nat>)
      requires Valid() && |ahead| > 0
      ensures forall c :: c in candidates ==>
                exists i :: 0 <= i < |ahead| - 1 && Droppable(g, Now(), ahead, i, c)
      ensures forall i, c :: 0 <= i < |ahead| - 1 && Droppable(g, Now(), ahead, i, c) ==>
                c in candidates
    {
      candidates := [];
      for i := 0 to |ahead| - 1
        invariant forall c :: c in candidates ==>
                    exists j :: 0 <= j < i && Droppable(g, Now(), ahead, j, c)
        invariant forall j, c :: 0 <= j < i && Droppable(g, Now(), ahead, j, c) ==> c in candidates
      {
        var idx := FindLink(ahead[i], ahead[i + 1]);
        ghost var was := candidates;
        if idx != -1 && idx !in down {
          var fromSource := Route(g, down, idx, g.src);
          var fromHolder := Route(g, down, idx, at);
          if fromSource.Some? && fromHolder.Some? {
            assert Droppable(g, Now(), ahead, i, idx);
            candidates := candidates + [idx];
          }
        }
        forall c | c in candidates ensures exists j :: 0 <= j < i + 1 && Droppable(g, Now(), ahead, j, c) {
          if c in was {
            var j :| 0 <= j < i && Droppable(g, Now(), ahead, j, c);
          }
        }
        forall j, c | 0 <= j < i + 1 && Droppable(g, Now(), ahead, j, c) ensures c in candidates {
          if j < i {
            assert c in was;
          } else {
            assert c == idx;
          }
        }
      }
    }

    /** Take down a link the frame is about to need; `pick` is the random draw. */
    method DropLink(pick: nat) returns (gaveUp: bool)
      requires Valid()
      modifies this
      ensures Valid() && !gaveUp && Drops(g, old(Now()), Now())
      ensures Now() == old(Now()) || SomeFails(old(down), down)
    {
      ghost var was := Now();
      gaveUp := false;
      var path := Route(g, down, -1, at);
      if path.None? {
        return;
      }
      var ahead := path.value;
      var candidates := Candidates(ahead);
      if candidates == [] {
        return;
      }
      var idx := candidates[pick % |candidates|];
      assert idx in candidates;
      ghost var i :| 0 <= i < |ahead| - 1 && Droppable(g, was, ahead, i, idx);
      down := down + [idx];
      if |down| > 2 {
        down := down[1..];
      }
      if to.Some? && Connects(g, idx, at, to.value) {
        leg := 0.0;
      }
      to := NextHop(g, down, at);
      LostLink(g, was, Now(), ahead, i, idx);
      if to.None? && at != g.dst {
        gaveUp := true;
      }
    }

    /** Undisturbed, the frame is carried to the destination, each leg counted
        once towards the distance it started from. */
    method Deliver(ghost d0: real) returns (hops: seq<nat>)
      requires Valid() && Distance(g, DownSet(down), at, g.dst, d0)
      modifies this
      ensures Valid() && at == g.dst && down == old(down)
      ensures 0 < |hops| <= g.n && Distinct(hops) && hops[0] == old(at) && trail == old(trail) + hops[1..]
      ensures Cost(g, hops) == d0
    {
      hops := [at];
      ghost var states := [Now()];
      while at != g.dst
        invariant Valid() && down == old(down)
        invariant HopRun(g, states) && states[0] == old(Now()) && states[|states| - 1] == Now()
        invariant hops == Holders(states) && trail == old(trail) + hops[1..]
        invariant |states| <= g.n
        decreases g.n - |states|
      {
        var _ := Step(1.0, false);
        hops := hops + [at];
        Carried(g, states, Now(), d0);
        states := states + [Now()];
      }
      Delivery(g, states, d0);
    }
  }
}
