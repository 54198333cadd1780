// A frame that is part of the way along a leg when a link further on goes down
// (www/mesh.js, `dropLink`): its progress is only reset if that leg itself was lost,
// although the next hop is decided again in every case.
module MeshCarry {
  import opened Finite
  import opened MeshGraph
  import opened MeshRoute
  import opened MeshRouter
  import opened Wrappers

  /** The holder is the same, the next hop is another, and the progress made towards
      the one counts towards the other. */
  predicate CarriedOver(s: State, t: State)
  {
    t.at == s.at && t.to.Some? && t.to != s.to && t.leg > 0.0
  }

  /** The frame is under way and the link that goes down is not the one it is on. */
  predicate UnderWay(g: Topology, s: State, idx: nat)
    requires idx < |g.edges|
  {
    s.to.Some? && s.leg > 0.0 && !Connects(g, idx, s.at, s.to.value)
  }

  ghost predicate MustCarry(g: Topology, s: State, ahead: seq<nat>, i: int, idx: nat)
    requires g.Valid() && 0 <= i < |ahead| - 1
  {
    forall t :: Loses(g, s, t, ahead, i, idx) ==> CarriedOver(s, t)
  }

  ghost predicate MayCarry(g: Topology, s: State, ahead: seq<nat>, i: int, idx: nat)
    requires g.Valid() && 0 <= i < |ahead| - 1
  {
    exists t :: Loses(g, s, t, ahead, i, idx) && CarriedOver(s, t)
  }

  /** After the loss the next hop is missing only at the destination. */
  lemma Answered(g: Topology, s: State, t: State, ahead: seq<nat>, i: int, idx: nat)
    requires g.Valid() && Inv(g, s) && 0 <= i < |ahead| - 1 && Loses(g, s, t, ahead, i, idx)
    ensures t.to.None? <==> s.to.None?
    ensures t.to.Some? ==> IsNextHop(g, Heal(s.down + [idx]), s.at, t.to.value)
  {
    LoseKeeps(g, s, t, ahead, i, idx);
    NeverStranded(g, s);
    NeverStranded(g, t);
  }

  /** The search may give any shortest path's first hop instead. */
  lemma OtherAnswer(g: Topology, s: State, t: State, ahead: seq<nat>, i: int, idx: nat, v: nat)
    requires g.Valid() && Inv(g, s) && s.to.Some? && 0 <= i < |ahead| - 1 && Loses(g, s, t, ahead, i, idx)
    requires IsNextHop(g, Heal(s.down + [idx]), s.at, v)
    ensures Loses(g, s, t.(to := Some(v)), ahead, i, idx)
  {
    NeverStranded(g, s);
  }

  /** Losing link `idx` carries progress to another leg, whatever the search answers,
      exactly when the frame is under way on another link and no shortest path of the
      remaining network starts with the hop it was heading for. */
  lemma MustCarryIff(g: Topology, s: State, t: State, ahead: seq<nat>, i: int, idx: nat)
    requires g.Valid() && Inv(g, s) && 0 <= i < |ahead| - 1 && Loses(g, s, t, ahead, i, idx)
    ensures MustCarry(g, s, ahead, i, idx) <==>
              UnderWay(g, s, idx) && !IsNextHop(g, Heal(s.down + [idx]), s.at, s.to.value)
  {
    forall u | Loses(g, s, u, ahead, i, idx)
      ensures (u.to.None? <==> s.to.None?)
              && (u.to.Some? ==> IsNextHop(g, Heal(s.down + [idx]), s.at, u.to.value))
    {
      Answered(g, s, u, ahead, i, idx);
    }
    if s.to.Some? && IsNextHop(g, Heal(s.down + [idx]), s.at, s.to.value) {
      OtherAnswer(g, s, t, ahead, i, idx, s.to.value);
    }
  }

  /** It may carry it, where shortest paths tie, exactly when the frame is under way on
      another link and some shortest path starts with another hop. */
  lemma MayCarryIff(g: Topology, s: State, t: State, ahead: seq<nat>, i: int, idx: nat)
    requires g.Valid() && Inv(g, s) && 0 <= i < |ahead| - 1 && Loses(g, s, t, ahead, i, idx)
    ensures MayCarry(g, s, ahead, i, idx) <==>
              UnderWay(g, s, idx) && exists v: nat :: IsNextHop(g, Heal(s.down + [idx]), s.at, v) && s.to != Some(v)
  {
    if MayCarry(g, s, ahead, i, idx) {
      var u :| Loses(g, s, u, ahead, i, idx) && CarriedOver(s, u);
      Answered(g, s, u, ahead, i, idx);
    }
    if UnderWay(g, s, idx) && exists v: nat :: IsNextHop(g, Heal(s.down + [idx]), s.at, v) && s.to != Some(v) {
      var v: nat :| IsNextHop(g, Heal(s.down + [idx]), s.at, v) && s.to != Some(v);
      OtherAnswer(g, s, t, ahead, i, idx, v);
      assert CarriedOver(s, t.(to := Some(v)));
    }
  }

  // ------------------------------------------------------------------- an instance

  function Length(a: nat, b: nat): real
  {
    if (a == 0 && b == 2) || (a == 2 && b == 0) then 2.0 else 1.0
  }

  /** Two ways from 0 to 3: the short one by 1, the long one by 2. */
  const DIAMOND := Topology(4, [(0, 1), (1, 3), (0, 2), (2, 3)], Length, 0, 3)

  lemma DiamondJoins(blocked: set<int>, u: nat, v: nat)
    ensures Joined(DIAMOND, blocked, u, v) ==>
              || (0 !in blocked && ((u == 0 && v == 1) || (u == 1 && v == 0)))
              || (1 !in blocked && ((u == 1 && v == 3) || (u == 3 && v == 1)))
              || (2 !in blocked && ((u == 0 && v == 2) || (u == 2 && v == 0)))
              || (3 !in blocked && ((u == 2 && v == 3) || (u == 3 && v == 2)))
  {
  }

  lemma DiamondLink(blocked: set<int>, i: nat, u: nat, v: nat)
    requires i < 4 && i !in blocked && DIAMOND.edges[i] == (u, v)
    ensures Joined(DIAMOND, blocked, u, v)
  {
    assert Connects(DIAMOND, i, u, v);
  }

  lemma TwoLegs(blocked: set<int>, mid: nat)
    requires mid == 1 || mid == 2
    requires Joined(DIAMOND, blocked, 0, mid) && Joined(DIAMOND, blocked, mid, 3)
    ensures WalkTo(DIAMOND, blocked, [0, mid, 3], 0, 3) && Cost(DIAMOND, [0, mid, 3]) == Length(0, mid) + Length(mid, 3)
  {
    var p := [0, mid, 3];
    assert Leg(DIAMOND, blocked, p, 0) && Leg(DIAMOND, blocked, p, 1);
    assert p[..2] == [0, mid] && [0, mid][..1] == [0];
    assert Cost(DIAMOND, [0]) == 0.0 && Cost(DIAMOND, [0, mid]) == Length(0, mid);
  }

  /** Labels that no usable leg undercuts make a path as long as its label shortest. */
  lemma ShortestByLabels(blocked: set<int>, p: seq<nat>, best: map<nat, real>)
    requires WalkTo(DIAMOND, blocked, p, 0, 3)
    requires best.Keys == {0, 1, 2, 3} && best[0] == 0.0 && best[3] == Cost(DIAMOND, p)
    requires forall u: nat, v: nat :: u in best && Joined(DIAMOND, blocked, u, v) ==>
                                        v in best && best[v] <= best[u] + Length(u, v)
    ensures DIAMOND.Valid() && Shortest(DIAMOND, blocked, p, 0, 3)
  {
    forall q | WalkTo(DIAMOND, blocked, q, 0, 3) ensures Cost(DIAMOND, p) <= Cost(DIAMOND, q) {
      PotentialBound(DIAMOND, blocked, q, best);
    }
  }

  lemma ShortWay()
    ensures DIAMOND.Valid() && Shortest(DIAMOND, {-1}, [0, 1, 3], 0, 3)
  {
    DiamondLink({-1}, 0, 0, 1);
    DiamondLink({-1}, 1, 1, 3);
    TwoLegs({-1}, 1);
    forall u: nat, v: nat { DiamondJoins({-1}, u, v); }
    ShortestByLabels({-1}, [0, 1, 3], map[0 := 0.0, 1 := 1.0, 2 := 2.0, 3 := 2.0]);
  }

  lemma LongWay()
    ensures DIAMOND.Valid() && Shortest(DIAMOND, {1, -1}, [0, 2, 3], 0, 3)
  {
    DiamondLink({1, -1}, 2, 0, 2);
    DiamondLink({1, -1}, 3, 2, 3);
    TwoLegs({1, -1}, 2);
    forall u: nat, v: nat { DiamondJoins({1, -1}, u, v); }
    ShortestByLabels({1, -1}, [0, 2, 3], map[0 := 0.0, 1 := 1.0, 2 := 2.0, 3 := 3.0]);
  }

  const HALF_TO_ONE := State([], 0, Some(1), [0], 0.5)

  const HALF_TO_TWO := State([1], 0, Some(2), [0], 0.5)

  lemma HalfWayHolds()
    ensures DIAMOND.Valid() && Inv(DIAMOND, HALF_TO_ONE)
  {
    ShortWay();
    assert DownSet([]) == {-1};
    assert IsNextHop(DIAMOND, [], 0, 1);
    assert Walk(DIAMOND, {}, [0]);
  }

  lemma FarLinkDroppable()
    ensures DIAMOND.Valid() && Droppable(DIAMOND, HALF_TO_ONE, [0, 1, 3], 1, 1)
  {
    LongWay();
    assert Blocked([], 1) == {1};
    WalkMonotone(DIAMOND, {1, -1}, {1}, [0, 2, 3]);
    assert WalkTo(DIAMOND, {1}, [0, 2, 3], 0, 3);
    assert FirstLink(DIAMOND, 1, 3, 1);
  }

  /** A frame half way from 0 to 1 when the link from 1 to 3 goes down, with no link
      healing, is half way from 0 to 2 afterwards. */
  lemma HalfWayElsewhere()
    ensures DIAMOND.Valid() && Inv(DIAMOND, HALF_TO_ONE)
    ensures Drops(DIAMOND, HALF_TO_ONE, HALF_TO_TWO) && CarriedOver(HALF_TO_ONE, HALF_TO_TWO)
  {
    HalfWayHolds();
    FarLinkDroppable();
    ShortWay();
    LongWay();
    assert DownSet([]) == {-1} && DownSet([1]) == {1, -1};
    assert IsNextHop(DIAMOND, [1], 0, 2);
    assert Heal([] + [1]) == [1];
    assert Loses(DIAMOND, HALF_TO_ONE, HALF_TO_TWO, [0, 1, 3], 1, 1);
    assert DropsOn(DIAMOND, HALF_TO_ONE, HALF_TO_TWO, [0, 1, 3]);
  }
}
