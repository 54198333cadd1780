// The hero diagram's own ten nodes and nineteen links (www/mesh.js): what the
// choice of links is for.
module MeshHero {
  import opened Finite
  import opened MeshGraph

  const LINKS: seq<(nat, nat)> :=
    [(0, 1), (0, 2), (0, 3), (1, 2), (1, 4), (2, 4), (2, 5), (3, 5), (3, 8), (4, 5),
     (4, 6), (4, 7), (5, 7), (5, 8), (6, 7), (6, 9), (7, 8), (7, 9), (8, 9)]

  ghost predicate Hero(g: Topology)
  {
    g.Valid() && g.n == 10 && g.edges == LINKS && g.src == 0 && g.dst == 9
  }

  /** Three routes from the drone to the operator that share no link. */
  function RouteVia(k: nat): seq<nat>
  {
    if k == 0 then [0, 1, 4, 6, 9] else if k == 1 then [0, 2, 5, 7, 9] else [0, 3, 8, 9]
  }

  function LinksVia(k: nat): set<int>
  {
    if k == 0 then {0, 4, 10, 15} else if k == 1 then {1, 6, 12, 17} else {2, 8, 18}
  }

  lemma Over(g: Topology, blocked: set<int>, i: nat, u: nat, v: nat)
    requires Hero(g) && i < 19 && i !in blocked && LINKS[i] == (u, v)
    ensures Joined(g, blocked, u, v)
  {
    assert Connects(g, i, u, v);
  }

  lemma FirstRoute(g: Topology, blocked: set<int>)
    requires Hero(g) && blocked !! LinksVia(0)
    ensures WalkTo(g, blocked, RouteVia(0), 0, 9)
  {
    var p := RouteVia(0);
    Over(g, blocked, 0, 0, 1);
    Over(g, blocked, 4, 1, 4);
    Over(g, blocked, 10, 4, 6);
    Over(g, blocked, 15, 6, 9);
    assert Leg(g, blocked, p, 0) && Leg(g, blocked, p, 1) && Leg(g, blocked, p, 2) && Leg(g, blocked, p, 3);
  }

  lemma SecondRoute(g: Topology, blocked: set<int>)
    requires Hero(g) && blocked !! LinksVia(1)
    ensures WalkTo(g, blocked, RouteVia(1), 0, 9)
  {
    var p := RouteVia(1);
    Over(g, blocked, 1, 0, 2);
    Over(g, blocked, 6, 2, 5);
    Over(g, blocked, 12, 5, 7);
    Over(g, blocked, 17, 7, 9);
    assert Leg(g, blocked, p, 0) && Leg(g, blocked, p, 1) && Leg(g, blocked, p, 2) && Leg(g, blocked, p, 3);
  }

  lemma ThirdRoute(g: Topology, blocked: set<int>)
    requires Hero(g) && blocked !! LinksVia(2)
    ensures WalkTo(g, blocked, RouteVia(2), 0, 9)
  {
    var p := RouteVia(2);
    Over(g, blocked, 2, 0, 3);
    Over(g, blocked, 8, 3, 8);
    Over(g, blocked, 18, 8, 9);
    assert Leg(g, blocked, p, 0) && Leg(g, blocked, p, 1) && Leg(g, blocked, p, 2);
  }

  lemma RouteOpen(g: Topology, blocked: set<int>, k: nat)
    requires Hero(g) && k < 3 && blocked !! LinksVia(k)
    ensures WalkTo(g, blocked, RouteVia(k), 0, 9)
  {
    if k == 0 {
      FirstRoute(g, blocked);
    } else if k == 1 {
      SecondRoute(g, blocked);
    } else {
      ThirdRoute(g, blocked);
    }
  }

  /** Fewer failures than routes leave a route open. */
  lemma OpenRoute(blocked: set<int>) returns (k: nat)
    requires |blocked| <= 2
    ensures k < 3 && blocked !! LinksVia(k)
  {
    if blocked !! LinksVia(0) {
      k := 0;
    } else if blocked !! LinksVia(1) {
      k := 1;
    } else {
      k := 2;
      if !(blocked !! LinksVia(2)) {
        var a :| a in blocked && a in LinksVia(0);
        var b :| b in blocked && b in LinksVia(1);
        var c :| c in blocked && c in LinksVia(2);
        SubsetSize({a, b, c}, blocked);
        assert false;
      }
    }
  }

  /** However two links fail, the drone still reaches the operator. */
  lemma TwoFailuresSurvived(g: Topology, blocked: set<int>)
    requires Hero(g) && |blocked| <= 2
    ensures Reaches(g, blocked, g.src, g.dst)
  {
    var k := OpenRoute(blocked);
    RouteOpen(g, blocked, k);
  }

  /** Whatever link a leg of `p` is taken over is one of `links`. */
  ghost predicate LegsOver(g: Topology, p: seq<nat>, links: set<int>)
  {
    forall i :: 0 <= i < |p| - 1 ==> LegOver(g, p[i], p[i + 1], links)
  }

  ghost predicate LegOver(g: Topology, u: nat, v: nat, links: set<int>)
  {
    forall e :: 0 <= e < |g.edges| && Connects(g, e, u, v) ==> e in links
  }

  lemma FirstLegsOut(g: Topology)
    requires Hero(g)
    ensures LegOver(g, 0, 1, LinksVia(0)) && LegOver(g, 1, 4, LinksVia(0))
  {
  }

  lemma FirstLegsIn(g: Topology)
    requires Hero(g)
    ensures LegOver(g, 4, 6, LinksVia(0)) && LegOver(g, 6, 9, LinksVia(0))
  {
  }

  lemma SecondLegsOut(g: Topology)
    requires Hero(g)
    ensures LegOver(g, 0, 2, LinksVia(1)) && LegOver(g, 2, 5, LinksVia(1))
  {
  }

  lemma SecondLegsIn(g: Topology)
    requires Hero(g)
    ensures LegOver(g, 5, 7, LinksVia(1)) && LegOver(g, 7, 9, LinksVia(1))
  {
  }

  lemma ThirdLegsOut(g: Topology)
    requires Hero(g)
    ensures LegOver(g, 0, 3, LinksVia(2))
  {
  }

  lemma ThirdLegsIn(g: Topology)
    requires Hero(g)
    ensures LegOver(g, 3, 8, LinksVia(2)) && LegOver(g, 8, 9, LinksVia(2))
  {
  }

  lemma RouteLegs(g: Topology, k: nat)
    requires Hero(g) && k < 3
    ensures LegsOver(g, RouteVia(k), LinksVia(k))
  {
    if k == 0 {
      FirstLegsOut(g);
      FirstLegsIn(g);
    } else if k == 1 {
      SecondLegsOut(g);
      SecondLegsIn(g);
    } else {
      ThirdLegsOut(g);
      ThirdLegsIn(g);
    }
  }

  /** Without any single link there are two routes left, with no link in common. */
  lemma OneFailureLeavesTwo(g: Topology, link: nat) returns (j: nat, k: nat)
    requires Hero(g) && link < 19
    ensures j < 3 && k < 3 && RouteVia(j) != RouteVia(k) && LinksVia(j) !! LinksVia(k)
    ensures LegsOver(g, RouteVia(j), LinksVia(j)) && LegsOver(g, RouteVia(k), LinksVia(k))
    ensures WalkTo(g, {link}, RouteVia(j), g.src, g.dst) && WalkTo(g, {link}, RouteVia(k), g.src, g.dst)
  {
    if link in LinksVia(0) {
      j, k := 1, 2;
    } else if link in LinksVia(1) {
      j, k := 0, 2;
    } else {
      j, k := 0, 1;
    }
    RouteOpen(g, {link}, j);
    RouteOpen(g, {link}, k);
    RouteLegs(g, j);
    RouteLegs(g, k);
    assert RouteVia(0)[1] == 1 && RouteVia(1)[1] == 2 && RouteVia(2)[1] == 3;
  }
}
