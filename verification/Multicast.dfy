// Multi-destination multicast in the routing engine (libs/batman/src/engine.rs,
// `handle_mcast`): a frame names its destinations, each hop delivers its own,
// and splits the rest into one frame per next hop.
module Multicast {
  import opened Wrappers

  type Mac = nat

  const MAX_MCAST_DESTS: nat := 16

  /** How a frame is authenticated; a `Signature` frame went to every next hop at
      once and is never forwarded. */
  datatype Form = Tag | Signature

  datatype Group = Group(next: Mac, dests: seq<Mac>)

  /** What one hop did with a frame. */
  datatype Hop = Hop(deliver: bool, groups: seq<Group>, unroutable: seq<Mac>, unsent: seq<Mac>)

  /** The destinations of all groups, group by group. */
  ghost function Carried(groups: seq<Group>): seq<Mac>
  {
    if groups == [] then [] else Carried(groups[..|groups| - 1]) + groups[|groups| - 1].dests
  }

  /** The destinations routed through `next`, in list order. */
  function Via(routed: seq<(Mac, Mac)>, next: Mac): (dests: seq<Mac>)
    ensures forall d :: d in dests <==> (next, d) in routed
  {
    if routed == [] then []
    else
      var rest := Via(routed[..|routed| - 1], next);
      var (n, d) := routed[|routed| - 1];
      assert forall e :: (next, e) in routed <==> (next, e) in routed[..|routed| - 1] || (n, d) == (next, e);
      if n == next then rest + [d] else rest
  }

  /** The routed destinations whose next hop is in `done`. */
  ghost function Through(routed: seq<(Mac, Mac)>, done: set<Mac>): multiset<Mac>
  {
    if routed == [] then multiset{}
    else
      var rest := Through(routed[..|routed| - 1], done);
      var (n, d) := routed[|routed| - 1];
      if n in done then rest + multiset{d} else rest
  }

  lemma {:induction false} ThroughNone(routed: seq<(Mac, Mac)>)
    ensures Through(routed, {}) == multiset{}
    decreases |routed|
  {
    if routed != [] {
      ThroughNone(routed[..|routed| - 1]);
    }
  }

  /** Serving one more next hop takes exactly its own destinations. */
  lemma {:induction false} ThroughAdds(routed: seq<(Mac, Mac)>, done: set<Mac>, next: Mac)
    requires next !in done
    ensures Through(routed, done + {next}) == Through(routed, done) + multiset(Via(routed, next))
    decreases |routed|
  {
    if routed != [] {
      ThroughAdds(routed[..|routed| - 1], done, next);
    }
  }

  /** All next hops served leaves nobody out. */
  lemma {:induction false} ThroughAll(routed: seq<(Mac, Mac)>, done: set<Mac>)
    requires forall i :: 0 <= i < |routed| ==> routed[i].0 in done
    ensures Through(routed, done) == multiset(Dests(routed))
    decreases |routed|
  {
    if routed != [] {
      ThroughAll(routed[..|routed| - 1], done);
    }
  }

  ghost function Dests(routed: seq<(Mac, Mac)>): seq<Mac>
  {
    if routed == [] then [] else Dests(routed[..|routed| - 1]) + [routed[|routed| - 1].1]
  }

  ghost predicate DistinctHops(groups: seq<Group>)
  {
    forall i, j :: 0 <= i < j < |groups| ==> groups[i].next != groups[j].next
  }

  /** Every destination of a group is one this node routes through its next hop. */
  ghost predicate WellRouted(groups: seq<Group>, self: Mac, route: Mac -> Option<Mac>)
  {
    forall i, d :: 0 <= i < |groups| && d in groups[i].dests ==> d != self && route(d) == Some(groups[i].next)
  }

  /** The destinations with a next hop, each with it, in list order. */
  ghost function Routed(self: Mac, dests: seq<Mac>, route: Mac -> Option<Mac>): seq<(Mac, Mac)>
  {
    if dests == [] then []
    else
      var rest, d := Routed(self, dests[..|dests| - 1], route), dests[|dests| - 1];
      if d != self && route(d).Some? then rest + [(route(d).value, d)] else rest
  }

  /** The destinations without a next hop, in list order. */
  ghost function Unroutable(self: Mac, dests: seq<Mac>, route: Mac -> Option<Mac>): seq<Mac>
  {
    if dests == [] then []
    else
      var rest, d := Unroutable(self, dests[..|dests| - 1], route), dests[|dests| - 1];
      if d != self && route(d).None? then rest + [d] else rest
  }

  /** The places in the list that name this node. */
  ghost function Own(self: Mac, dests: seq<Mac>): (own: seq<Mac>)
    ensures own == [] <==> self !in dests
    ensures forall d :: d in own ==> d == self
  {
    if dests == [] then []
    else
      var rest, d := Own(self, dests[..|dests| - 1]), dests[|dests| - 1];
      if d == self then rest + [d] else rest
  }

  ghost predicate Resolved(self: Mac, routed: seq<(Mac, Mac)>, route: Mac -> Option<Mac>)
  {
    forall i :: 0 <= i < |routed| ==> routed[i].1 != self && route(routed[i].1) == Some(routed[i].0)
  }

  lemma DestsAppend(routed: seq<(Mac, Mac)>, next: Mac, d: Mac)
    ensures Dests(routed + [(next, d)]) == Dests(routed) + [d]
  {
    assert (routed + [(next, d)])[..|routed|] == routed;
  }

  lemma Append(s: seq<Mac>, d: Mac)
    ensures multiset(s + [d]) == multiset(s) + multiset{d}
  {
  }

  lemma SumAppend(all: multiset<Mac>, a: multiset<Mac>, b: multiset<Mac>, c: multiset<Mac>, d: multiset<Mac>)
    requires all == a + b + c
    ensures all + d == (a + d) + b + c && all + d == a + (b + d) + c && all + d == a + b + (c + d)
  {
  }

  /** Resolving loses nobody. */
  lemma {:induction false} ResolveAccounts(self: Mac, dests: seq<Mac>, route: Mac -> Option<Mac>)
    ensures multiset(dests) == multiset(Own(self, dests)) + multiset(Unroutable(self, dests, route))
                             + multiset(Dests(Routed(self, dests, route)))
    decreases |dests|
  {
    if dests != [] {
      var t, d := dests[..|dests| - 1], dests[|dests| - 1];
      ResolveAccounts(self, t, route);
      assert dests == t + [d];
      Append(t, d);
      var own, out, routed := Own(self, t), Unroutable(self, t, route), Routed(self, t, route);
      SumAppend(multiset(t), multiset(own), multiset(out), multiset(Dests(routed)), multiset{d});
      if d == self {
        Append(own, d);
      } else if route(d).None? {
        Append(out, d);
      } else {
        DestsAppend(routed, route(d).value, d);
        Append(Dests(routed), d);
      }
    }
  }

  lemma {:induction false} ResolvedRightly(self: Mac, dests: seq<Mac>, route: Mac -> Option<Mac>)
    ensures Resolved(self, Routed(self, dests, route), route)
    ensures forall d :: d in Unroutable(self, dests, route) ==> route(d).None?
    decreases |dests|
  {
    if dests != [] {
      ResolvedRightly(self, dests[..|dests| - 1], route);
    }
  }

  /** The destinations named, other than this node, that it routes through `next`. */
  function Behind(self: Mac, dests: seq<Mac>, route: Mac -> Option<Mac>, next: Mac): seq<Mac>
  {
    if dests == [] then []
    else
      var rest, d := Behind(self, dests[..|dests| - 1], route, next), dests[|dests| - 1];
      if d != self && route(d) == Some(next) then rest + [d] else rest
  }

  lemma {:induction false} ViaIsBehind(self: Mac, dests: seq<Mac>, route: Mac -> Option<Mac>, next: Mac)
    ensures Via(Routed(self, dests, route), next) == Behind(self, dests, route, next)
    decreases |dests|
  {
    if dests != [] {
      var t, d := dests[..|dests| - 1], dests[|dests| - 1];
      ViaIsBehind(self, t, route, next);
      var routed := Routed(self, t, route);
      if d != self && route(d).Some? {
        assert (routed + [(route(d).value, d)])[..|routed|] == routed;
      }
    }
  }

  /** Resolve each destination but our own to its next hop. */
  method Resolve(self: Mac, dests: seq<Mac>, route: Mac -> Option<Mac>)
    returns (routed: seq<(Mac, Mac)>, unroutable: seq<Mac>)
    ensures routed == Routed(self, dests, route) && unroutable == Unroutable(self, dests, route)
  {
    routed, unroutable := [], [];
    for i := 0 to |dests|
      invariant routed == Routed(self, dests[..i], route) && unroutable == Unroutable(self, dests[..i], route)
    {
      assert dests[..i + 1][..i] == dests[..i];
      if dests[i] != self {
        match route(dests[i])
        case None =>
          unroutable := unroutable + [dests[i]];
        case Some(next) =>
          routed := routed + [(next, dests[i])];
      }
    }
    assert dests[..|dests|] == dests;
  }

  /** The next hops in `done` have been served: each by one group with all of its
      destinations, or not at all. */
  ghost predicate Served(routed: seq<(Mac, Mac)>, done: set<Mac>, groups: seq<Group>, unsent: seq<Mac>)
  {
    && Through(routed, done) == multiset(Carried(groups)) + multiset(unsent)
    && DistinctHops(groups)
    && forall j :: 0 <= j < |groups| ==>
         groups[j].next in done && groups[j].dests == Via(routed, groups[j].next) && groups[j].dests != []
  }

  /** Of the next hops served, those have a group whose group could be emitted. */
  ghost predicate Emitted(routed: seq<(Mac, Mac)>, done: set<Mac>, groups: seq<Group>, emit: Group -> bool)
  {
    forall next :: HasGroup(groups, next) <==>
      next in done && Via(routed, next) != [] && emit(Group(next, Via(routed, next)))
  }

  ghost predicate HasGroup(groups: seq<Group>, next: Mac)
  {
    exists i :: 0 <= i < |groups| && groups[i].next == next
  }

  lemma HasGroupMore(groups: seq<Group>, g: Group, next: Mac)
    ensures HasGroup(groups + [g], next) <==> HasGroup(groups, next) || g.next == next
  {
    if HasGroup(groups, next) {
      var i :| 0 <= i < |groups| && groups[i].next == next;
      assert (groups + [g])[i].next == next;
    }
    assert (groups + [g])[|groups|] == g;
  }

  lemma CarriedAppend(groups: seq<Group>, g: Group)
    ensures Carried(groups + [g]) == Carried(groups) + g.dests
  {
    assert (groups + [g])[..|groups|] == groups;
  }

  lemma ServeNext(routed: seq<(Mac, Mac)>, done: set<Mac>, groups: seq<Group>, unsent: seq<Mac>, i: nat)
    requires i < |routed| && routed[i].0 !in done && Served(routed, done, groups, unsent)
    ensures var next := routed[i].0;
            var group := Via(routed, next);
            && Served(routed, done + {next}, groups + [Group(next, group)], unsent)
            && Served(routed, done + {next}, groups, unsent + group)
  {
    var next := routed[i].0;
    var group := Via(routed, next);
    ThroughAdds(routed, done, next);
    CarriedAppend(groups, Group(next, group));
    assert (next, routed[i].1) in routed;
    assert routed[i].1 in group;
  }

  lemma EmitNext(routed: seq<(Mac, Mac)>, done: set<Mac>, groups: seq<Group>, emit: Group -> bool, i: nat)
    requires i < |routed| && routed[i].0 !in done && Emitted(routed, done, groups, emit)
    ensures var next := routed[i].0;
            var g := Group(next, Via(routed, next));
            Emitted(routed, done + {next}, if emit(g) then groups + [g] else groups, emit)
  {
    var next := routed[i].0;
    var g := Group(next, Via(routed, next));
    assert (next, routed[i].1) in routed && routed[i].1 in g.dests;
    forall n ensures HasGroup(groups + [g], n) <==> HasGroup(groups, n) || n == next {
      HasGroupMore(groups, g, n);
    }
  }

  /** Emit one group per next hop; `emit` says whether a group could be written
      and handed to the link. */
  method Partition(routed: seq<(Mac, Mac)>, emit: Group -> bool)
    returns (groups: seq<Group>, unsent: seq<Mac>, ghost done: set<Mac>)
    ensures Partitioned(routed, done, groups, unsent, emit) && forall i :: 0 <= i < |routed| ==> routed[i].0 in done
  {
    groups, unsent := [], [];
    var served: set<Mac> := {};
    ThroughNone(routed);
    for i := 0 to |routed|
      invariant Partitioned(routed, served, groups, unsent, emit)
      invariant forall j :: 0 <= j < i ==> routed[j].0 in served
    {
      var next := routed[i].0;
      if next !in served {
        PartitionNext(routed, served, groups, unsent, emit, i);
        served := served + {next};
        var group := Group(next, Via(routed, next));
        if emit(group) {
          groups := groups + [group];
        } else {
          unsent := unsent + group.dests;
        }
      }
    }
    done := served;
  }

  ghost predicate Partitioned(routed: seq<(Mac, Mac)>, done: set<Mac>, groups: seq<Group>, unsent: seq<Mac>,
                              emit: Group -> bool)
  {
    Served(routed, done, groups, unsent) && Emitted(routed, done, groups, emit)
  }

  lemma PartitionNext(routed: seq<(Mac, Mac)>, done: set<Mac>, groups: seq<Group>, unsent: seq<Mac>,
                      emit: Group -> bool, i: nat)
    requires i < |routed| && routed[i].0 !in done && Partitioned(routed, done, groups, unsent, emit)
    ensures var next := routed[i].0;
            var g := Group(next, Via(routed, next));
            if emit(g) then Partitioned(routed, done + {next}, groups + [g], unsent, emit)
            else Partitioned(routed, done + {next}, groups, unsent + g.dests, emit)
  {
    ServeNext(routed, done, groups, unsent, i);
    EmitNext(routed, done, groups, emit, i);
  }

  lemma ServedIsWellRouted(self: Mac, routed: seq<(Mac, Mac)>, route: Mac -> Option<Mac>, done: set<Mac>,
                           groups: seq<Group>, unsent: seq<Mac>)
    requires Resolved(self, routed, route) && Served(routed, done, groups, unsent)
    ensures WellRouted(groups, self, route)
  {
    forall i, d | 0 <= i < |groups| && d in groups[i].dests
      ensures d != self && route(d) == Some(groups[i].next)
    {
      assert (groups[i].next, d) in routed;
    }
  }

  /** What a hop must account for: every destination named is this node itself,
      carried onward in exactly one group, unroutable, or could not be sent. */
  ghost predicate Accounts(self: Mac, dests: seq<Mac>, h: Hop)
  {
    multiset(dests) == multiset(Own(self, dests)) + multiset(h.unroutable)
                     + multiset(h.unsent) + multiset(Carried(h.groups))
  }

  /** The partition: a group per next hop that has destinations and whose frame could
      be emitted, holding every destination behind that hop, in list order. */
  ghost predicate Splits(self: Mac, dests: seq<Mac>, route: Mac -> Option<Mac>, emit: Group -> bool, groups: seq<Group>)
  {
    && DistinctHops(groups)
    && (forall i :: 0 <= i < |groups| ==> groups[i].dests == Behind(self, dests, route, groups[i].next))
    && forall next :: HasGroup(groups, next) <==>
         Behind(self, dests, route, next) != [] && emit(Group(next, Behind(self, dests, route, next)))
  }

  lemma ServedSplits(self: Mac, dests: seq<Mac>, route: Mac -> Option<Mac>, emit: Group -> bool, done: set<Mac>,
                     groups: seq<Group>, unsent: seq<Mac>)
    requires var routed := Routed(self, dests, route);
             && Served(routed, done, groups, unsent) && Emitted(routed, done, groups, emit)
             && forall i :: 0 <= i < |routed| ==> routed[i].0 in done
    ensures Splits(self, dests, route, emit, groups)
  {
    var routed := Routed(self, dests, route);
    forall next ensures Via(routed, next) == Behind(self, dests, route, next)
                        && (Via(routed, next) != [] ==> next in done)
    {
      ViaIsBehind(self, dests, route, next);
      if Via(routed, next) != [] {
        assert (next, Via(routed, next)[0]) in routed;
      }
    }
  }

  /** Handle a multicast frame. */
  method HandleMcast(self: Mac, dests: seq<Mac>, ttl: nat, form: Form, route: Mac -> Option<Mac>, emit: Group -> bool)
    returns (h: Hop)
    ensures h.deliver <==> |dests| <= 16 && self in dests
    ensures |dests| > 16 || form.Signature? || ttl <= 1 ==>
              h.groups == [] && h.unroutable == [] && h.unsent == []
    ensures |dests| <= 16 && form.Tag? && ttl > 1 ==>
              && Accounts(self, dests, h) && Splits(self, dests, route, emit, h.groups)
              && h.unroutable == Unroutable(self, dests, route)
    ensures WellRouted(h.groups, self, route)
    ensures Handled(Packet(self, ttl, form, dests), h)
  {
    if |dests| > MAX_MCAST_DESTS {
      return Hop(false, [], [], []);
    }
    var deliver := self in dests;
    if form.Signature? || ttl <= 1 {
      return Hop(deliver, [], [], []);
    }
    ResolveAccounts(self, dests, route);
    ResolvedRightly(self, dests, route);
    var routed, unroutable := Resolve(self, dests, route);
    var groups, unsent, done := Partition(routed, emit);
    ThroughAll(routed, done);
    ServedIsWellRouted(self, routed, route, done, groups, unsent);
    ServedSplits(self, dests, route, emit, done, groups, unsent);
    return Hop(deliver, groups, unroutable, unsent);
  }

  lemma {:induction false} BehindFits(self: Mac, dests: seq<Mac>, route: Mac -> Option<Mac>, next: Mac)
    ensures |Behind(self, dests, route, next)| <= |dests|
    ensures |Behind(self, dests, route, next)| == |dests| <==> AllBehind(self, dests, route, next)
    ensures AllBehind(self, dests, route, next) ==> Behind(self, dests, route, next) == dests
    decreases |dests|
  {
    if dests != [] {
      var t, d := dests[..|dests| - 1], dests[|dests| - 1];
      BehindFits(self, t, route, next);
      assert dests == t + [d];
      AllBehindMore(self, t, d, route, next);
    }
  }

  lemma AllBehindMore(self: Mac, t: seq<Mac>, d: Mac, route: Mac -> Option<Mac>, next: Mac)
    ensures AllBehind(self, t + [d], route, next) <==>
              AllBehind(self, t, route, next) && d != self && route(d) == Some(next)
  {
    var all := t + [d];
    if AllBehind(self, all, route, next) {
      assert d in all;
      forall x | x in t ensures x != self && route(x) == Some(next) {
        assert x in all;
      }
    }
  }

  /** This node is not named and routes every destination through `next`. */
  ghost predicate AllBehind(self: Mac, dests: seq<Mac>, route: Mac -> Option<Mac>, next: Mac)
  {
    forall d :: d in dests ==> d != self && route(d) == Some(next)
  }

  /** The list handed on is shorter than the one received, exactly unless this node
      is not named, routes all destinations one way, and can emit that frame: then
      the list is passed on whole. */
  lemma PassedOnWhole(self: Mac, dests: seq<Mac>, route: Mac -> Option<Mac>, emit: Group -> bool, groups: seq<Group>)
    requires Splits(self, dests, route, emit, groups)
    ensures forall i :: 0 <= i < |groups| ==> |groups[i].dests| <= |dests|
    ensures (exists i :: 0 <= i < |groups| && |groups[i].dests| == |dests|) <==>
              dests != [] && exists next :: AllBehind(self, dests, route, next) && emit(Group(next, dests))
    ensures forall next :: dests != [] && AllBehind(self, dests, route, next) && emit(Group(next, dests)) ==>
              groups == [Group(next, dests)]
  {
    forall next ensures |Behind(self, dests, route, next)| <= |dests|
                        && (|Behind(self, dests, route, next)| == |dests| <==> AllBehind(self, dests, route, next))
                        && (AllBehind(self, dests, route, next) ==> Behind(self, dests, route, next) == dests)
    {
      BehindFits(self, dests, route, next);
    }
    forall i | 0 <= i < |groups| ensures HasGroup(groups, groups[i].next) && groups[i].dests != [] {
    }
    forall next | dests != [] && AllBehind(self, dests, route, next) && emit(Group(next, dests))
      ensures groups == [Group(next, dests)]
    {
      OneGroup(self, dests, route, emit, groups, next);
    }
  }

  lemma TwoHops(groups: seq<Group>)
    requires DistinctHops(groups) && |groups| > 1
    ensures exists i :: 0 <= i < |groups| && groups[i].next != groups[0].next
  {
    assert groups[1].next != groups[0].next;
  }

  lemma OneGroup(self: Mac, dests: seq<Mac>, route: Mac -> Option<Mac>, emit: Group -> bool,
                 groups: seq<Group>, next: Mac)
    requires Splits(self, dests, route, emit, groups)
    requires dests != [] && AllBehind(self, dests, route, next) && emit(Group(next, dests))
    ensures groups == [Group(next, dests)]
  {
    BehindFits(self, dests, route, next);
    assert HasGroup(groups, next);
    forall i | 0 <= i < |groups| ensures groups[i].next == next {
      assert HasGroup(groups, groups[i].next);
      BehindRoutes(self, dests, route, groups[i].next);
      assert groups[i].dests[0] in dests;
    }
    if |groups| > 1 {
      TwoHops(groups);
    }
    assert groups[0] == Group(next, dests);
  }

  lemma {:induction false} BehindRoutes(self: Mac, dests: seq<Mac>, route: Mac -> Option<Mac>, next: Mac)
    ensures forall d :: d in Behind(self, dests, route, next) ==> d in dests && route(d) == Some(next)
    decreases |dests|
  {
    if dests != [] {
      BehindRoutes(self, dests[..|dests| - 1], route, next);
    }
  }

  function ToNine(d: Mac): Option<Mac>
  {
    Some(9)
  }

  predicate AnyFrame(g: Group)
  {
    true
  }

  /** So the list does not always shrink: node 1, asked for 2 and 3 and routing both
      through 9, sends 9 the list it received. */
  lemma PassedOnWholeOnce(groups: seq<Group>)
    requires Splits(1, [2, 3], ToNine, AnyFrame, groups)
    ensures groups == [Group(9, [2, 3])]
  {
    assert AllBehind(1, [2, 3], ToNine, 9);
    PassedOnWhole(1, [2, 3], ToNine, AnyFrame, groups);
  }

  // -------------------------------------------------------------------- packets

  /** A frame in flight towards node `at`. */
  datatype Packet = Packet(at: Mac, ttl: nat, form: Form, dests: seq<Mac>)

  /** What `HandleMcast` may do with a packet, whatever the node's routes. */
  ghost predicate Handled(p: Packet, h: Hop)
  {
    && (h.deliver <==> |p.dests| <= MAX_MCAST_DESTS && p.at in p.dests)
    && (if |p.dests| > MAX_MCAST_DESTS || p.form.Signature? || p.ttl <= 1 then h.groups == []
        else Accounts(p.at, p.dests, h))
    && forall i :: 0 <= i < |h.groups| ==> h.groups[i].dests != []
  }
}
