// sim/scenarios/satellite_relay.py: the links of a shell of satellites. Each plane
// is a ring, each plane is joined to the next by rungs, and both ground terminals
// are wired to every satellite.
module Constellation {
  import opened Finite
  import opened Identifiers

  const MAX_INTERFACES: nat := 8
  const MAX_SATELLITES: nat := MAX_INTERFACES - 1

  /** The ground station, the aircraft, and satellite `i` of plane `p`. */
  datatype Node = Gcsa | Low | Sat(p: nat, i: nat)

  type Link = (Node, Node)

  /** The geometries `constellation` does not refuse. */
  predicate Accepted(planes: int, perPlane: int)
  {
    planes >= 1 && perPlane >= 1 && planes * perPlane <= MAX_SATELLITES
  }

  // ---------------------------------------------------------------- what is meant

  /** The number of links in a ring of `m`: a ring of two is one link. */
  function Span(m: nat): nat
  {
    if m > 2 then m else if m == 0 then 0 else m - 1
  }

  /** The place after `i` round a ring of `m`. */
  function Succ(m: nat, i: nat): nat
  {
    if i + 1 == m then 0 else i + 1
  }

  ghost predicate RingLink(planes: nat, m: nat, l: Link)
  {
    && l.0.Sat? && l.1.Sat? && l.0.p == l.1.p < planes
    && l.0.i < Span(m) && l.1.i == Succ(m, l.0.i)
  }

  ghost predicate RungLink(planes: nat, m: nat, l: Link)
  {
    l.0.Sat? && l.1.Sat? && l.0.p + 1 == l.1.p < planes && l.0.i == l.1.i < m
  }

  /** The same two ends, in either order. */
  predicate SameLink(a: Link, b: Link)
  {
    a == b || (a.0 == b.1 && a.1 == b.0)
  }

  ghost predicate NoRepeats(links: seq<Link>)
  {
    forall i, j :: 0 <= i < j < |links| ==> !SameLink(links[i], links[j])
  }

  // -------------------------------------------------------------------- the code

  /** The satellite-to-satellite links, plane by plane. */
  method IslPairs(planes: nat, m: nat) returns (pairs: seq<Link>)
    requires m >= 1
    ensures forall l :: l in pairs <==> RingLink(planes, m, l) || RungLink(planes, m, l)
    ensures NoRepeats(pairs)
  {
    pairs := [];
    for p := 0 to planes
      invariant forall l :: l in pairs <==> RingLink(p, m, l) || RungLink(p, m, l)
      invariant NoRepeats(pairs)
    {
      var ring := Ring(p, m);
      JoinPlane(pairs, ring, p, m);
      pairs := pairs + ring;
      if p > 0 {
        var rungs := Rungs(p, m);
        JoinRungs(pairs, rungs, p, m);
        pairs := pairs + rungs;
      }
    }
  }

  ghost predicate RingOf(p: nat, m: nat, ring: seq<Link>)
  {
    |ring| == Span(m) && forall k :: 0 <= k < |ring| ==> ring[k] == (Sat(p, k), Sat(p, Succ(m, k)))
  }

  lemma NextPlace(m: nat, k: nat)
    requires k < m
    ensures (k + 1) % m == Succ(m, k)
  {
    if k + 1 < m {
      assert (k + 1) / m == 0;
    }
  }

  method Ring(p: nat, m: nat) returns (ring: seq<Link>)
    requires m >= 1
    ensures RingOf(p, m, ring)
  {
    ring := [];
    for k := 0 to Span(m)
      invariant |ring| == k
      invariant forall j :: 0 <= j < k ==> ring[j] == (Sat(p, j), Sat(p, Succ(m, j)))
    {
      NextPlace(m, k);
      ring := ring + [(Sat(p, k), Sat(p, (k + 1) % m))];
    }
  }

  ghost predicate RungsOf(p: nat, m: nat, rungs: seq<Link>)
    requires p > 0
  {
    |rungs| == m && forall k :: 0 <= k < m ==> rungs[k] == (Sat(p - 1, k), Sat(p, k))
  }

  method Rungs(p: nat, m: nat) returns (rungs: seq<Link>)
    requires p > 0
    ensures RungsOf(p, m, rungs)
  {
    rungs := [];
    for k := 0 to m
      invariant |rungs| == k && forall j :: 0 <= j < k ==> rungs[j] == (Sat(p - 1, j), Sat(p, j))
    {
      rungs := rungs + [(Sat(p - 1, k), Sat(p, k))];
    }
  }

  lemma Append(a: seq<Link>, b: seq<Link>)
    requires NoRepeats(a) && NoRepeats(b)
    requires forall x, y :: x in a && y in b ==> !SameLink(x, y)
    ensures NoRepeats(a + b)
  {
    var c := a + b;
    forall i, j | 0 <= i < j < |c| ensures !SameLink(c[i], c[j]) {
      if i < |a| && j >= |a| {
        assert c[i] in a && c[j] in b;
      }
    }
  }

  lemma RingNoRepeats(p: nat, m: nat, ring: seq<Link>)
    requires RingOf(p, m, ring)
    ensures NoRepeats(ring)
  {
    forall i, j | 0 <= i < j < |ring| ensures !SameLink(ring[i], ring[j]) {
      assert ring[i].0 == Sat(p, i) && ring[j].0 == Sat(p, j) && m > 2;
      assert ring[i].1 == Sat(p, i + 1);
    }
  }

  lemma RingMembers(p: nat, m: nat, ring: seq<Link>, l: Link)
    requires RingOf(p, m, ring)
    ensures l in ring <==> RingLink(p + 1, m, l) && !RingLink(p, m, l)
  {
    if l in ring {
      var k :| 0 <= k < |ring| && ring[k] == l;
    }
    if RingLink(p + 1, m, l) && !RingLink(p, m, l) {
      assert ring[l.0.i].0 == l.0 && ring[l.0.i].1 == l.1;
      assert l == ring[l.0.i];
    }
  }

  /** A plane's ring is new: every earlier link stays below plane `p`. */
  lemma JoinPlane(pairs: seq<Link>, ring: seq<Link>, p: nat, m: nat)
    requires m >= 1 && NoRepeats(pairs) && RingOf(p, m, ring)
    requires forall l :: l in pairs <==> RingLink(p, m, l) || RungLink(p, m, l)
    ensures NoRepeats(pairs + ring)
    ensures forall l :: l in pairs + ring <==> RingLink(p + 1, m, l) || RungLink(p, m, l)
  {
    RingNoRepeats(p, m, ring);
    forall x, y | x in pairs && y in ring ensures !SameLink(x, y) {
      RingMembers(p, m, ring, y);
    }
    Append(pairs, ring);
    forall l ensures l in pairs + ring <==> RingLink(p + 1, m, l) || RungLink(p, m, l) {
      RingMembers(p, m, ring, l);
    }
  }

  lemma JoinRungs(pairs: seq<Link>, rungs: seq<Link>, p: nat, m: nat)
    requires m >= 1 && p > 0 && NoRepeats(pairs) && RungsOf(p, m, rungs)
    requires forall l :: l in pairs <==> RingLink(p + 1, m, l) || RungLink(p, m, l)
    ensures NoRepeats(pairs + rungs)
    ensures forall l :: l in pairs + rungs <==> RingLink(p + 1, m, l) || RungLink(p + 1, m, l)
  {
    Append(pairs, rungs);
    forall l ensures l in pairs + rungs <==> RingLink(p + 1, m, l) || RungLink(p + 1, m, l) {
      if RungLink(p + 1, m, l) && !RungLink(p, m, l) {
        assert l == rungs[l.0.i];
      }
      assert l in pairs + rungs <==> l in pairs || l in rungs;
    }
  }

  // ------------------------------------------------------------- no self links

  lemma NoSelfLink(planes: nat, m: nat, l: Link)
    requires RingLink(planes, m, l) || RungLink(planes, m, l)
    ensures l.0 != l.1
  {
  }

  // -------------------------------------------------------------- connectivity

  ghost predicate Linked(links: seq<Link>, a: Node, b: Node)
  {
    (a, b) in links || (b, a) in links
  }

  ghost predicate HopAt(links: seq<Link>, path: seq<Node>, i: int)
    requires 0 <= i < |path| - 1
  {
    Linked(links, path[i], path[i + 1])
  }

  ghost predicate PathBetween(links: seq<Link>, path: seq<Node>, a: Node, b: Node)
  {
    && |path| > 0 && path[0] == a && path[|path| - 1] == b
    && forall i :: 0 <= i < |path| - 1 ==> HopAt(links, path, i)
  }

  ghost predicate Reaches(links: seq<Link>, a: Node, b: Node)
  {
    exists path :: PathBetween(links, path, a, b)
  }

  lemma ReachesSelf(links: seq<Link>, a: Node)
    ensures Reaches(links, a, a)
  {
    assert PathBetween(links, [a], a, a);
  }

  lemma ReachesNext(links: seq<Link>, a: Node, b: Node, c: Node)
    requires Reaches(links, a, b) && Linked(links, b, c)
    ensures Reaches(links, a, c)
  {
    var path :| PathBetween(links, path, a, b);
    var more := path + [c];
    forall i | 0 <= i < |more| - 1 ensures HopAt(links, more, i) {
      if i < |path| - 1 {
        assert HopAt(links, path, i);
      }
    }
    assert PathBetween(links, more, a, c);
  }

  /** The links are exactly the rings and rungs of the shell. */
  ghost predicate Shell(planes: nat, m: nat, pairs: seq<Link>)
  {
    forall l :: l in pairs <==> RingLink(planes, m, l) || RungLink(planes, m, l)
  }

  /** Every satellite can be reached from every other over satellite links. */
  lemma {:induction false} AlongRing(planes: nat, m: nat, pairs: seq<Link>, a: Node, p: nat, i: nat)
    requires Shell(planes, m, pairs) && p < planes && i < m && Reaches(pairs, a, Sat(p, 0))
    ensures Reaches(pairs, a, Sat(p, i))
    decreases i
  {
    if i > 0 {
      AlongRing(planes, m, pairs, a, p, i - 1);
      assert RingLink(planes, m, (Sat(p, i - 1), Sat(p, i)));
      ReachesNext(pairs, a, Sat(p, i - 1), Sat(p, i));
    }
  }

  lemma {:induction false} BackAlongRing(planes: nat, m: nat, pairs: seq<Link>, a: Node, p: nat, i: nat)
    requires Shell(planes, m, pairs) && p < planes && i < m && Reaches(pairs, a, Sat(p, i))
    ensures Reaches(pairs, a, Sat(p, 0))
    decreases i
  {
    if i > 0 {
      assert RingLink(planes, m, (Sat(p, i - 1), Sat(p, i)));
      ReachesNext(pairs, a, Sat(p, i), Sat(p, i - 1));
      BackAlongRing(planes, m, pairs, a, p, i - 1);
    }
  }

  lemma {:induction false} AcrossPlanes(planes: nat, m: nat, pairs: seq<Link>, a: Node, p: nat, q: nat)
    requires Shell(planes, m, pairs) && m >= 1 && p < planes && q < planes && Reaches(pairs, a, Sat(p, 0))
    ensures Reaches(pairs, a, Sat(q, 0))
    decreases if p < q then q - p else p - q
  {
    if p < q {
      AcrossPlanes(planes, m, pairs, a, p, q - 1);
      assert RungLink(planes, m, (Sat(q - 1, 0), Sat(q, 0)));
      ReachesNext(pairs, a, Sat(q - 1, 0), Sat(q, 0));
    } else if q < p {
      AcrossPlanes(planes, m, pairs, a, p, q + 1);
      assert RungLink(planes, m, (Sat(q, 0), Sat(q + 1, 0)));
      ReachesNext(pairs, a, Sat(q + 1, 0), Sat(q, 0));
    }
  }

  lemma ShellConnected(planes: nat, m: nat, pairs: seq<Link>, p: nat, i: nat, q: nat, j: nat)
    requires Shell(planes, m, pairs) && p < planes && q < planes && i < m && j < m
    ensures Reaches(pairs, Sat(p, i), Sat(q, j))
  {
    ReachesSelf(pairs, Sat(p, i));
    BackAlongRing(planes, m, pairs, Sat(p, i), p, i);
    AcrossPlanes(planes, m, pairs, Sat(p, i), p, q);
    AlongRing(planes, m, pairs, Sat(p, i), q, j);
  }

  // --------------------------------------------------------------- losing a link

  /** The `t`-th satellite after position `k` round a ring of `m`. */
  function Round(m: nat, k: nat, t: nat): nat
    requires k < m && t <= m
  {
    if k + t < m then k + t else k + t - m
  }

  /** Without link `k` of plane `p`'s ring, the ring is still a line starting at
      the link's far end: the satellite `t` places round is still reached. */
  lemma {:induction false} RingAfterLoss(planes: nat, m: nat, pairs: seq<Link>, left: seq<Link>, p: nat, k: nat, t: nat)
    requires Shell(planes, m, pairs) && m >= 3 && p < planes && k < m && 1 <= t <= m
    requires forall l :: l in pairs && l != (Sat(p, k), Sat(p, Round(m, k, 1))) ==> l in left
    ensures Reaches(left, Sat(p, Round(m, k, 1)), Sat(p, Round(m, k, t)))
    decreases t
  {
    var start := Sat(p, Round(m, k, 1));
    if t == 1 {
      ReachesSelf(left, start);
    } else {
      RingAfterLoss(planes, m, pairs, left, p, k, t - 1);
      var from, to := Sat(p, Round(m, k, t - 1)), Sat(p, Round(m, k, t));
      assert RingLink(planes, m, (from, to));
      assert (from, to) in left;
      ReachesNext(left, start, from, to);
    }
  }

  lemma ReachesBack(links: seq<Link>, a: Node, b: Node)
    requires Reaches(links, a, b)
    ensures Reaches(links, b, a)
  {
    var path :| PathBetween(links, path, a, b);
    var n := |path|;
    var back := seq(n, i requires 0 <= i < n => path[n - 1 - i]);
    forall i | 0 <= i < n - 1 ensures HopAt(links, back, i) {
      assert HopAt(links, path, n - 2 - i);
    }
    assert PathBetween(links, back, b, a);
  }

  lemma ReachesThrough(links: seq<Link>, a: Node, b: Node, c: Node)
    requires Reaches(links, a, b) && Reaches(links, b, c)
    ensures Reaches(links, a, c)
  {
    var p :| PathBetween(links, p, a, b);
    var q :| PathBetween(links, q, b, c);
    var all := p + q[1..];
    forall i | 0 <= i < |all| - 1 ensures HopAt(links, all, i) {
      if i < |p| - 1 {
        assert HopAt(links, p, i);
      } else {
        assert HopAt(links, q, i - (|p| - 1));
      }
    }
    assert PathBetween(links, all, a, c);
  }

  lemma FarEndReaches(planes: nat, m: nat, pairs: seq<Link>, left: seq<Link>, p: nat, k: nat, i: nat)
    requires Shell(planes, m, pairs) && m >= 3 && p < planes && k < m && i < m
    requires forall l :: l in pairs && l != (Sat(p, k), Sat(p, Round(m, k, 1))) ==> l in left
    ensures Reaches(left, Sat(p, Round(m, k, 1)), Sat(p, i))
  {
    var t := if i > k then i - k else i + m - k;
    RingAfterLoss(planes, m, pairs, left, p, k, t);
    assert Round(m, k, t) == i;
  }

  /** A plane of three or more survives the loss of any one of its ring links: any two
      of its satellites still reach each other. */
  lemma RingSurvives(planes: nat, m: nat, pairs: seq<Link>, left: seq<Link>, p: nat, k: nat, i: nat, j: nat)
    requires Shell(planes, m, pairs) && m >= 3 && p < planes && k < m && i < m && j < m
    requires forall l :: l in pairs && l != (Sat(p, k), Sat(p, Round(m, k, 1))) ==> l in left
    ensures Reaches(left, Sat(p, i), Sat(p, j))
  {
    var far := Sat(p, Round(m, k, 1));
    FarEndReaches(planes, m, pairs, left, p, k, i);
    FarEndReaches(planes, m, pairs, left, p, k, j);
    ReachesBack(left, far, Sat(p, i));
    ReachesThrough(left, Sat(p, i), far, Sat(p, j));
  }

  // ------------------------------------------------------------------- wiring

  /** Everything `build_simulation` wires: the two terminals to each other and to
      every satellite, then the satellites among themselves. */
  method AllLinks(planes: nat, m: nat) returns (links: seq<Link>)
    requires m >= 1
    ensures forall l :: l in links <==> Wired(planes, m, l)
    ensures NoRepeats(links)
  {
    links := [(Gcsa, Low)];
    for p := 0 to planes
      invariant forall l :: l in links <==> l == (Gcsa, Low) || UserLink(p, m, l)
      invariant NoRepeats(links)
    {
      for i := 0 to m
        invariant forall l :: l in links <==> l == (Gcsa, Low) || UserLink(p, m, l)
                                              || (!l.0.Sat? && l.1.Sat? && l.1.p == p && l.1.i < i)
        invariant NoRepeats(links)
      {
        var pair := [(Gcsa, Sat(p, i)), (Low, Sat(p, i))];
        Append(links, pair);
        links := links + pair;
      }
    }
    var pairs := IslPairs(planes, m);
    Append(links, pairs);
    links := links + pairs;
  }

  ghost predicate UserLink(planes: nat, m: nat, l: Link)
  {
    !l.0.Sat? && l.1.Sat? && l.1.p < planes && l.1.i < m
  }

  ghost predicate Wired(planes: nat, m: nat, l: Link)
  {
    l == (Gcsa, Low) || UserLink(planes, m, l) || RingLink(planes, m, l) || RungLink(planes, m, l)
  }

  /** The positions of the links that end at `v`. */
  ghost function Ends(links: seq<Link>, v: Node): set<int>
  {
    set k | 0 <= k < |links| && (links[k].0 == v || links[k].1 == v)
  }

  function FarEnd(l: Link, v: Node): Node
  {
    if l.0 == v then l.1 else l.0
  }

  /** Links at one node lead to different nodes, so there are no more of them
      than nodes they can lead to. */
  lemma {:induction false} EndsFit(links: seq<Link>, v: Node, ks: set<int>, far: set<Node>)
    requires NoRepeats(links) && ks <= Ends(links, v)
    requires forall k :: k in ks ==> FarEnd(links[k], v) in far
    ensures |ks| <= |far|
    decreases |ks|
  {
    if ks != {} {
      var k :| k in ks;
      var f := FarEnd(links[k], v);
      forall j | j in ks - {k} ensures FarEnd(links[j], v) in far - {f} {
        if FarEnd(links[j], v) == f {
          assert SameLink(links[j], links[k]);
        }
      }
      EndsFit(links, v, ks - {k}, far - {f});
      assert |far - {f}| == |far| - 1 && |ks - {k}| == |ks| - 1;
    }
  }

  /** The nodes a satellite may be wired to. */
  ghost function Neighbours(m: nat, p: nat, i: nat): set<Node>
    requires i < m
  {
    {Gcsa, Low, Sat(p, Succ(m, i)), Sat(p, if i == 0 then m - 1 else i - 1), Sat(p + 1, i),
     Sat(if p == 0 then 0 else p - 1, i)}
  }

  /** No satellite needs more than six interfaces. */
  lemma SatelliteInterfaces(planes: nat, m: nat, links: seq<Link>, p: nat, i: nat)
    requires m >= 1 && i < m && NoRepeats(links) && forall l :: l in links <==> Wired(planes, m, l)
    ensures |Ends(links, Sat(p, i))| <= 6 <= MAX_INTERFACES
  {
    var v := Sat(p, i);
    var far := Neighbours(m, p, i);
    forall k | k in Ends(links, v) ensures FarEnd(links[k], v) in far {
      assert links[k] in links;
    }
    EndsFit(links, v, Ends(links, v), far);
    SmallSet(Gcsa, Low, Sat(p, Succ(m, i)), Sat(p, if i == 0 then m - 1 else i - 1),
             Sat(p + 1, i), Sat(if p == 0 then 0 else p - 1, i));
  }

  lemma SmallSet(a: Node, b: Node, c: Node, d: Node, e: Node, f: Node)
    ensures |{a, b, c, d, e, f}| <= 6
  {
    assert {a, b, c, d, e, f} == {a} + {b} + {c} + {d} + {e} + {f};
  }

  /** The satellites of an accepted shell. */
  ghost function Satellites(planes: nat, m: nat): (all: set<Node>)
    ensures forall v :: v in all <==> v.Sat? && v.p < planes && v.i < m
    ensures |all| == planes * m
  {
    if planes == 0 then {}
    else
      PlaneUnion(planes - 1, m, Satellites(planes - 1, m));
      Satellites(planes - 1, m) + Plane(planes - 1, m)
  }

  ghost function Plane(p: nat, m: nat): (all: set<Node>)
    ensures forall v :: v in all <==> v.Sat? && v.p == p && v.i < m
    ensures |all| == m
  {
    if m == 0 then {} else Plane(p, m - 1) + {Sat(p, m - 1)}
  }

  lemma PlaneUnion(p: nat, m: nat, below: set<Node>)
    requires forall v :: v in below <==> v.Sat? && v.p < p && v.i < m
    requires |below| == p * m
    ensures |below + Plane(p, m)| == (p + 1) * m
  {
    assert below !! Plane(p, m);
    assert (p + 1) * m == p * m + m;
  }

  /** Every node of `far` is led to by some link of `ks`. */
  ghost predicate Led(links: seq<Link>, v: Node, ks: set<int>, far: set<Node>)
    requires forall k :: k in ks ==> 0 <= k < |links|
  {
    forall x :: x in far ==> exists k :: k in ks && FarEnd(links[k], v) == x
  }

  lemma {:induction false} FarFits(links: seq<Link>, v: Node, ks: set<int>, far: set<Node>)
    requires (forall k :: k in ks ==> 0 <= k < |links|) && Led(links, v, ks, far)
    ensures |far| <= |ks|
    decreases |far|
  {
    if far != {} {
      var x :| x in far;
      var k :| k in ks && FarEnd(links[k], v) == x;
      forall y | y in far - {x} ensures exists j :: j in ks - {k} && FarEnd(links[j], v) == y {
        var j :| j in ks && FarEnd(links[j], v) == y;
        assert j != k;
      }
      FarFits(links, v, ks - {k}, far - {x});
      assert |far - {x}| == |far| - 1 && |ks - {k}| == |ks| - 1;
    }
  }

  lemma TerminalLed(planes: nat, m: nat, links: seq<Link>, v: Node, other: Node)
    requires !v.Sat? && !other.Sat? && v != other && forall l :: l in links <==> Wired(planes, m, l)
    ensures Led(links, v, Ends(links, v), Satellites(planes, m) + {other})
  {
    forall x | x in Satellites(planes, m) + {other}
      ensures exists k :: k in Ends(links, v) && FarEnd(links[k], v) == x
    {
      var l := if x.Sat? then (v, x) else (Gcsa, Low);
      assert Wired(planes, m, l) && l in links;
      var k :| 0 <= k < |links| && links[k] == l;
      assert k in Ends(links, v) && FarEnd(links[k], v) == x;
    }
  }

  /** Each ground terminal has a link per satellite and one to the other terminal, and so
      keeps within its eight interfaces exactly in the accepted shells. */
  lemma TerminalInterfaces(planes: nat, m: nat, links: seq<Link>, v: Node)
    requires planes >= 1 && m >= 1 && !v.Sat?
    requires NoRepeats(links) && forall l :: l in links <==> Wired(planes, m, l)
    ensures |Ends(links, v)| == planes * m + 1
    ensures |Ends(links, v)| <= 8 <==> Accepted(planes, m)
  {
    var other := if v == Gcsa then Low else Gcsa;
    var far := Satellites(planes, m) + {other};
    forall k | k in Ends(links, v) ensures FarEnd(links[k], v) in far {
      assert links[k] in links;
    }
    EndsFit(links, v, Ends(links, v), far);
    TerminalLed(planes, m, links, v, other);
    FarFits(links, v, Ends(links, v), far);
  }

  // --------------------------------------------------------------------- names

  function Name(p: nat, i: nat): string
  {
    "sat" + Decimal(p) + Decimal(i)
  }

  /** In an accepted shell no two satellites share a name. */
  lemma NamesDiffer(planes: nat, m: nat, p: nat, i: nat, q: nat, j: nat)
    requires Accepted(planes, m) && p < planes && q < planes && i < m && j < m
    requires Name(p, i) == Name(q, j)
    ensures p == q && i == j
  {
    FactorsFit(planes, m);
    assert |Decimal(p)| == |Decimal(q)| == |Decimal(i)| == |Decimal(j)| == 1;
    assert Name(p, i)[3] == Decimal(p)[0] && Name(q, j)[3] == Decimal(q)[0];
    assert Name(p, i)[4] == Decimal(i)[0] && Name(q, j)[4] == Decimal(j)[0];
  }

  lemma FactorsFit(planes: nat, m: nat)
    requires Accepted(planes, m)
    ensures planes <= MAX_SATELLITES && m <= MAX_SATELLITES
  {
    assert planes * m >= planes && planes * m >= m;
  }

  /** Without the limit they could: the name does not separate plane from place. */
  lemma NamesCouldClash()
    ensures Name(1, 11) == Name(11, 1)
  {
    assert Decimal(1) == "1" && Decimal(11) == Decimal(1) + "1";
  }
}
