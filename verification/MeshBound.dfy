// How far a frame can be sent about (www/mesh.js): between one emission and the next,
// however links fail and heal under it, the hops it takes are bounded.
module MeshBound {
  import opened Finite
  import opened MeshGraph
  import opened MeshRoute
  import opened MeshRouter
  import opened Wrappers

  /** What happens in a step other than an emission. */
  datatype Kind = Hop | Travel | Fail

  ghost predicate Did(g: Topology, s: State, t: State, kind: Kind)
    requires g.Valid()
  {
    match kind
    case Hop => Arrives(g, s, t)
    case Travel => Travels(s, t)
    case Fail => Drops(g, s, t)
  }

  ghost predicate DidAt(g: Topology, run: seq<State>, kinds: seq<Kind>, i: int)
    requires g.Valid() && |run| == |kinds| + 1 && 0 <= i < |kinds|
  {
    Did(g, run[i], run[i + 1], kinds[i])
  }

  /** A run between two emissions. */
  ghost predicate Between(g: Topology, run: seq<State>, kinds: seq<Kind>)
    requires g.Valid()
  {
    |run| == |kinds| + 1 && Inv(g, run[0]) && forall i :: 0 <= i < |kinds| ==> DidAt(g, run, kinds, i)
  }

  function Count(kinds: seq<Kind>, kind: Kind): nat
  {
    if kinds == [] then 0
    else Count(kinds[..|kinds| - 1], kind) + if kinds[|kinds| - 1] == kind then 1 else 0
  }

  lemma HolderHasDistance(g: Topology, s: State) returns (d: real)
    requires g.Valid() && Inv(g, s)
    ensures Distance(g, DownSet(s.down), s.at, g.dst, d)
  {
    if s.at == g.dst {
      var p := [s.at];
      assert WalkTo(g, DownSet(s.down), p, s.at, g.dst) && Cost(g, p) == 0.0;
      forall q | WalkTo(g, DownSet(s.down), q, s.at, g.dst) ensures Cost(g, p) <= Cost(g, q) {
        CostNonNegative(g, DownSet(s.down), q);
      }
      d := 0.0;
    } else {
      NeverStranded(g, s);
      NextHopNearer(g, s.down, s.at, s.to.value);
      d :| Distance(g, DownSet(s.down), s.at, g.dst, d);
    }
  }

  /** The same holder and next hop, however far along its leg. */
  predicate SameButLeg(a: State, b: State)
  {
    a == b.(leg := a.leg)
  }

  lemma HopExtends(g: Topology, since: seq<State>, s: State, t: State)
    requires g.Valid() && HopRun(g, since) && SameButLeg(since[|since| - 1], s) && Arrives(g, s, t)
    ensures HopRun(g, since + [t]) && |since| < g.n
  {
    var d := HolderHasDistance(g, since[0]);
    Carried(g, since, t, d);
  }

  /** `hops` are at most `m` for each of `fails`, and `more` besides. */
  predicate AtMost(hops: nat, fails: nat, m: nat, more: nat)
  {
    hops <= fails * m + more
  }

  lemma Within(hops: nat, fails: nat, m: nat, more: nat)
    requires AtMost(hops, fails, m, more) && more <= m
    ensures AtMost(hops, fails + 1, m, 0)
  {
    assert (fails + 1) * m == fails * m + m;
  }

  /** `since` are the hops taken since the last failure, and the ones before it keep
      within the bound. */
  ghost predicate Tallied(g: Topology, s: State, since: seq<State>, hops: nat, fails: nat)
    requires g.Valid()
  {
    && Inv(g, s) && HopRun(g, since) && SameButLeg(since[|since| - 1], s) && |since| <= g.n
    && AtMost(hops, fails, g.n - 1, |since| - 1)
  }

  lemma TallyStart(g: Topology, s: State, hops: nat, fails: nat)
    requires g.Valid() && Inv(g, s) && AtMost(hops, fails, g.n - 1, 0)
    ensures Tallied(g, s, [s], hops, fails)
  {
  }

  lemma TallyHop(g: Topology, s: State, t: State, since: seq<State>, hops: nat, fails: nat)
    requires g.Valid() && Tallied(g, s, since, hops, fails) && Arrives(g, s, t)
    ensures Tallied(g, t, since + [t], hops + 1, fails)
  {
    ArriveKeeps(g, s, t);
    HopExtends(g, since, s, t);
  }

  lemma TallyTravel(g: Topology, s: State, t: State, since: seq<State>, hops: nat, fails: nat)
    requires g.Valid() && Tallied(g, s, since, hops, fails) && Travels(s, t)
    ensures Tallied(g, t, since, hops, fails)
  {
    assert Moves(g, s, t);
    MoveKeeps(g, s, t);
  }

  lemma TallyFail(g: Topology, s: State, t: State, since: seq<State>, hops: nat, fails: nat)
    requires g.Valid() && Tallied(g, s, since, hops, fails) && Drops(g, s, t)
    ensures Tallied(g, t, [t], hops, fails + 1)
  {
    DropKeeps(g, s, t);
    Within(hops, fails, g.n - 1, |since| - 1);
    TallyStart(g, t, hops, fails + 1);
  }

  lemma TallyMore(g: Topology, s: State, t: State, kind: Kind, since: seq<State>, hops: nat, fails: nat)
    returns (after: seq<State>, h: nat, f: nat)
    requires g.Valid() && Tallied(g, s, since, hops, fails) && Did(g, s, t, kind)
    ensures Tallied(g, t, after, h, f)
    ensures h == hops + (if kind == Hop then 1 else 0) && f == fails + (if kind == Fail then 1 else 0)
  {
    after, h, f := since, hops, fails;
    match kind
    case Hop =>
      TallyHop(g, s, t, since, hops, fails);
      after, h := since + [t], hops + 1;
    case Travel =>
      TallyTravel(g, s, t, since, hops, fails);
    case Fail =>
      TallyFail(g, s, t, since, hops, fails);
      after, f := [t], fails + 1;
  }

  lemma CountMore(kinds: seq<Kind>, k: nat, kind: Kind)
    requires k < |kinds|
    ensures Count(kinds[..k + 1], kind) == Count(kinds[..k], kind) + if kinds[k] == kind then 1 else 0
  {
    assert kinds[..k + 1][..k] == kinds[..k];
  }

  lemma {:induction false} HopsSince(g: Topology, run: seq<State>, kinds: seq<Kind>, k: nat)
    returns (since: seq<State>, h: nat, f: nat)
    requires g.Valid() && Between(g, run, kinds) && k <= |kinds|
    ensures Tallied(g, run[k], since, h, f)
    ensures h == Count(kinds[..k], Hop) && f == Count(kinds[..k], Fail)
  {
    if k == 0 {
      TallyStart(g, run[0], 0, 0);
      since, h, f := [run[0]], 0, 0;
    } else {
      since, h, f := HopsSince(g, run, kinds, k - 1);
      assert DidAt(g, run, kinds, k - 1);
      CountMore(kinds, k - 1, Hop);
      CountMore(kinds, k - 1, Fail);
      since, h, f := TallyMore(g, run[k - 1], run[k], kinds[k - 1], since, h, f);
    }
  }

  /** With `f` failures between two emissions the frame takes at most `(f + 1) * (n - 1)`
      hops: each failure can send it about at most once more. */
  lemma HopsBounded(g: Topology, run: seq<State>, kinds: seq<Kind>)
    requires g.Valid() && Between(g, run, kinds)
    ensures Count(kinds, Hop) <= (Count(kinds, Fail) + 1) * (g.n - 1)
  {
    var since, _, _ := HopsSince(g, run, kinds, |kinds|);
    assert kinds[..|kinds|] == kinds;
    Within(Count(kinds, Hop), Count(kinds, Fail), g.n - 1, |since| - 1);
  }
}
