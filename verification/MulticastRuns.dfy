// Multicast over a whole network: each hop of libs/batman/src/engine.rs,
// `handle_mcast`, and the driver behind it (libs/wayfinder-driver-core/src/lib.rs,
// `flush_mcast_groups`), which may collapse several groups onto one transmission.
module MulticastRuns {
  import opened Finite
  import opened Multicast
  import opened Wrappers

  // ---------------------------------------------------------- the driver's flush

  ghost function Concat(merges: seq<seq<Mac>>): seq<Mac>
  {
    if merges == [] then [] else Concat(merges[..|merges| - 1]) + merges[|merges| - 1]
  }

  ghost function Times(s: seq<Mac>, d: Mac): nat
  {
    multiset(s)[d]
  }

  /** How often the groups chosen by their place name `d`. */
  ghost function CarriedIn(groups: seq<Group>, chosen: set<int>, d: Mac): nat
  {
    if groups == [] then 0
    else
      var n := |groups| - 1;
      CarriedIn(groups[..n], chosen, d) + if n in chosen then Times(groups[n].dests, d) else 0
  }

  lemma {:induction false} CarriedInSame(groups: seq<Group>, a: set<int>, b: set<int>, d: Mac)
    requires forall j :: 0 <= j < |groups| ==> (j in a <==> j in b)
    ensures CarriedIn(groups, a, d) == CarriedIn(groups, b, d)
    decreases |groups|
  {
    if groups != [] {
      CarriedInSame(groups[..|groups| - 1], a, b, d);
    }
  }

  lemma {:induction false} CarriedInAdd(groups: seq<Group>, chosen: set<int>, j: nat, d: Mac)
    requires j < |groups| && j !in chosen
    ensures CarriedIn(groups, chosen + {j}, d) == CarriedIn(groups, chosen, d) + Times(groups[j].dests, d)
    decreases |groups|
  {
    var n := |groups| - 1;
    if j < n {
      CarriedInAdd(groups[..n], chosen, j, d);
    } else {
      CarriedInSame(groups[..n], chosen + {j}, chosen, d);
    }
  }

  lemma {:induction false} CarriedInAll(groups: seq<Group>, chosen: set<int>, d: Mac)
    requires forall j :: 0 <= j < |groups| ==> j in chosen
    ensures CarriedIn(groups, chosen, d) == Times(Carried(groups), d)
    decreases |groups|
  {
    if groups != [] {
      CarriedInAll(groups[..|groups| - 1], chosen, d);
    }
  }

  lemma {:induction false} CarriedInNone(groups: seq<Group>, d: Mac)
    ensures CarriedIn(groups, {}, d) == 0
    decreases |groups|
  {
    if groups != [] {
      CarriedInNone(groups[..|groups| - 1], d);
    }
  }

  /** The one destination of the group is its next hop: nobody has to forward it. */
  predicate Terminal(g: Group)
  {
    g.dests == [g.next]
  }

  /** A transmission for several next hops: each once, each the end of its group. */
  ghost predicate Collapsible(groups: seq<Group>, union: seq<Mac>)
  {
    union != [] && Distinct(union) && forall u :: u in union ==> Group(u, [u]) in groups
  }

  /** Every group leaves in exactly one way: collapsed, by a directed frame of its own,
      or not at all. */
  ghost predicate Flushed(groups: seq<Group>, merges: seq<seq<Mac>>, directed: seq<Group>, dropped: seq<Mac>)
  {
    && multiset(Carried(groups)) == multiset(Concat(merges)) + multiset(Carried(directed)) + multiset(dropped)
    && (forall i :: 0 <= i < |merges| ==> Collapsible(groups, merges[i]))
    && (forall i :: 0 <= i < |directed| ==> directed[i] in groups)
  }

  function Nexts(groups: seq<Group>, peers: seq<nat>): (u: seq<Mac>)
    requires forall k :: 0 <= k < |peers| ==> peers[k] < |groups|
    ensures |u| == |peers| && forall k :: 0 <= k < |peers| ==> u[k] == groups[peers[k]].next
  {
    seq(|peers|, k requires 0 <= k < |peers| => groups[peers[k]].next)
  }

  ghost predicate Choosable(groups: seq<Group>, merged: set<int>, peers: seq<nat>)
  {
    && (forall k :: 0 <= k < |peers| ==> peers[k] < |groups| && Terminal(groups[peers[k]]) && peers[k] !in merged)
    && forall k, l :: 0 <= k < l < |peers| ==> peers[k] < peers[l]
  }

  /** The groups of one interface that may share a transmission, in order. */
  ghost predicate PeersOf(groups: seq<Group>, iface: seq<Option<nat>>, idx: nat, merged: set<int>, peers: seq<nat>)
    requires |iface| == |groups|
  {
    && Choosable(groups, merged, peers)
    && forall j: nat :: j in peers <==> j < |groups| && iface[j] == Some(idx) && Terminal(groups[j]) && j !in merged
  }

  predicate IsPeer(groups: seq<Group>, iface: seq<Option<nat>>, idx: nat, merged: set<int>, j: nat)
    requires |iface| == |groups| && j < |groups|
  {
    iface[j] == Some(idx) && Terminal(groups[j]) && j !in merged
  }

  /** The peers among the first `n` groups. */
  ghost function Peers(groups: seq<Group>, iface: seq<Option<nat>>, idx: nat, merged: set<int>,
                       n: nat): (peers: seq<nat>)
    requires |iface| == |groups| && n <= |groups|
    ensures forall k :: 0 <= k < |peers| ==> peers[k] < n
  {
    if n == 0 then []
    else
      Peers(groups, iface, idx, merged, n - 1) + if IsPeer(groups, iface, idx, merged, n - 1) then [n - 1] else []
  }

  lemma {:induction false} PeersSame(groups: seq<Group>, iface: seq<Option<nat>>, idx: nat, a: set<int>, b: set<int>,
                                     n: nat)
    requires |iface| == |groups| && n <= |groups|
    requires forall j :: 0 <= j < n && iface[j] == Some(idx) && Terminal(groups[j]) ==> (j in a <==> j in b)
    ensures Peers(groups, iface, idx, a, n) == Peers(groups, iface, idx, b, n)
  {
    if n > 0 {
      PeersSame(groups, iface, idx, a, b, n - 1);
    }
  }

  lemma {:induction false} PeersNone(groups: seq<Group>, iface: seq<Option<nat>>, idx: nat, merged: set<int>, n: nat)
    requires |iface| == |groups| && n <= |groups|
    requires forall j :: 0 <= j < n && iface[j] == Some(idx) && Terminal(groups[j]) ==> j in merged
    ensures Peers(groups, iface, idx, merged, n) == []
  {
    if n > 0 {
      PeersNone(groups, iface, idx, merged, n - 1);
    }
  }

  method FindPeers(groups: seq<Group>, iface: seq<Option<nat>>, idx: nat, merged: set<int>) returns (peers: seq<nat>)
    requires |iface| == |groups|
    ensures PeersOf(groups, iface, idx, merged, peers)
    ensures peers == Peers(groups, iface, idx, merged, |groups|)
  {
    peers := [];
    for j := 0 to |groups|
      invariant forall k :: 0 <= k < |peers| ==> peers[k] < j && Terminal(groups[peers[k]]) && peers[k] !in merged
      invariant forall k, l :: 0 <= k < l < |peers| ==> peers[k] < peers[l]
      invariant forall i: nat :: i in peers <==> i < j && iface[i] == Some(idx) && Terminal(groups[i]) && i !in merged
      invariant peers == Peers(groups, iface, idx, merged, j)
    {
      if IsPeer(groups, iface, idx, merged, j) {
        peers := peers + [j];
      }
    }
  }

  function Places(peers: seq<nat>): set<int>
  {
    set j | j in peers
  }

  lemma PlacesMore(merged: set<int>, peers: seq<nat>, n: nat)
    requires 0 < n <= |peers|
    ensures merged + Places(peers[..n]) == merged + Places(peers[..n - 1]) + {peers[n - 1]}
  {
    assert peers[..n] == peers[..n - 1] + [peers[n - 1]];
  }

  lemma NextsMore(groups: seq<Group>, peers: seq<nat>, n: nat)
    requires 0 < n <= |peers| && forall k :: 0 <= k < |peers| ==> peers[k] < |groups|
    ensures Nexts(groups, peers[..n]) == Nexts(groups, peers[..n - 1]) + [groups[peers[n - 1]].next]
  {
  }

  /** Choosing peers as well adds exactly their next hops. */
  lemma {:induction false} CarriedInPeers(groups: seq<Group>, merged: set<int>, peers: seq<nat>, n: nat, d: Mac)
    requires Choosable(groups, merged, peers) && n <= |peers|
    ensures CarriedIn(groups, merged + Places(peers[..n]), d) ==
            CarriedIn(groups, merged, d) + Times(Nexts(groups, peers[..n]), d)
  {
    if n == 0 {
      assert merged + Places(peers[..0]) == merged;
    } else {
      CarriedInPeers(groups, merged, peers, n - 1, d);
      CarriedInPeer(groups, merged, peers, n, d);
    }
  }

  lemma CarriedInPeer(groups: seq<Group>, merged: set<int>, peers: seq<nat>, n: nat, d: Mac)
    requires Choosable(groups, merged, peers) && 0 < n <= |peers|
    ensures CarriedIn(groups, merged + Places(peers[..n]), d) - CarriedIn(groups, merged + Places(peers[..n - 1]), d)
            == Times(Nexts(groups, peers[..n]), d) - Times(Nexts(groups, peers[..n - 1]), d)
  {
    PlacesMore(merged, peers, n);
    NextsMore(groups, peers, n);
    CarriedInAdd(groups, merged + Places(peers[..n - 1]), peers[n - 1], d);
  }

  lemma PeersCollapse(groups: seq<Group>, iface: seq<Option<nat>>, idx: nat, merged: set<int>, peers: seq<nat>)
    requires |iface| == |groups| && DistinctHops(groups) && PeersOf(groups, iface, idx, merged, peers) && peers != []
    ensures Collapsible(groups, Nexts(groups, peers))
    ensures forall d :: CarriedIn(groups, merged + Places(peers), d) ==
                        CarriedIn(groups, merged, d) + Times(Nexts(groups, peers), d)
  {
    assert peers[..|peers|] == peers;
    forall d ensures CarriedIn(groups, merged + Places(peers), d) ==
                     CarriedIn(groups, merged, d) + Times(Nexts(groups, peers), d)
    {
      CarriedInPeers(groups, merged, peers, |peers|, d);
    }
    var union := Nexts(groups, peers);
    forall u | u in union ensures Group(u, [u]) in groups {
      var k :| 0 <= k < |union| && union[k] == u;
      assert groups[peers[k]] == Group(u, [u]);
    }
  }

  /** What has been collapsed so far. */
  ghost predicate Collapsed(groups: seq<Group>, merged: set<int>, merges: seq<seq<Mac>>)
  {
    && (forall d :: CarriedIn(groups, merged, d) == Times(Concat(merges), d))
    && forall i :: 0 <= i < |merges| ==> Collapsible(groups, merges[i])
  }

  lemma CollapseMore(groups: seq<Group>, merged: set<int>, merges: seq<seq<Mac>>, more: set<int>, union: seq<Mac>)
    requires Collapsed(groups, merged, merges) && Collapsible(groups, union)
    requires forall d :: CarriedIn(groups, more, d) == CarriedIn(groups, merged, d) + Times(union, d)
    ensures Collapsed(groups, more, merges + [union])
  {
    assert (merges + [union])[..|merges|] == merges;
  }

  /** How an interface fans out: the count from which one transmission is cheaper,
      missing where it cannot or may not, and whether a transmission is taken. */
  datatype Medium = Medium(threshold: nat -> Option<nat>, taken: (nat, seq<Mac>) -> bool)
  {
    /** The source's count is a non-zero integer. */
    ghost predicate Counts()
    {
      forall idx :: threshold(idx) != Some(0)
    }
  }

  /** The next hops of an interface that need no forwarding. */
  ghost function Terminals(groups: seq<Group>, iface: seq<Option<nat>>, idx: nat): seq<Mac>
    requires |iface| == |groups|
  {
    Nexts(groups, Peers(groups, iface, idx, {}, |groups|))
  }

  /** The interface has enough of them, and one transmission for all is taken. */
  ghost predicate Gathers(groups: seq<Group>, iface: seq<Option<nat>>, medium: Medium, idx: nat)
    requires |iface| == |groups|
  {
    && medium.threshold(idx).Some?
    && |Terminals(groups, iface, idx)| >= medium.threshold(idx).value
    && medium.taken(idx, Terminals(groups, iface, idx))
  }

  ghost predicate Started(iface: seq<Option<nat>>, idx: nat, i: nat)
    requires i <= |iface|
  {
    exists l :: 0 <= l < i && iface[l] == Some(idx)
  }

  /** Group `j` has shared a transmission once the first `i` groups are gone through. */
  ghost predicate Shares(groups: seq<Group>, iface: seq<Option<nat>>, medium: Medium, i: nat, j: int)
    requires |iface| == |groups| && i <= |groups|
  {
    && 0 <= j < |groups| && Terminal(groups[j]) && iface[j].Some?
    && Gathers(groups, iface, medium, iface[j].value) && Started(iface, iface[j].value, i)
  }

  ghost predicate Sharing(groups: seq<Group>, iface: seq<Option<nat>>, medium: Medium, merged: set<int>, i: nat)
    requires |iface| == |groups| && i <= |groups|
  {
    forall j: int :: j in merged <==> Shares(groups, iface, medium, i, j)
  }

  lemma StartedMore(iface: seq<Option<nat>>, idx: nat, i: nat)
    requires i < |iface|
    ensures Started(iface, idx, i + 1) <==> Started(iface, idx, i) || iface[i] == Some(idx)
  {
  }

  /** An interface gathers its terminal groups when it is first met, or never. */
  lemma PeersMet(groups: seq<Group>, iface: seq<Option<nat>>, medium: Medium, merged: set<int>, i: nat)
    requires |iface| == |groups| && i < |groups| && iface[i].Some? && medium.Counts()
    requires Sharing(groups, iface, medium, merged, i)
    ensures var idx := iface[i].value;
            var peers := Peers(groups, iface, idx, merged, |groups|);
            if Started(iface, idx, i) && Gathers(groups, iface, medium, idx) then peers == []
            else peers == Peers(groups, iface, idx, {}, |groups|)
  {
    var idx := iface[i].value;
    if Started(iface, idx, i) && Gathers(groups, iface, medium, idx) {
      PeersNone(groups, iface, idx, merged, |groups|);
    } else {
      PeersSame(groups, iface, idx, merged, {}, |groups|);
    }
  }

  lemma ShareNone(groups: seq<Group>, iface: seq<Option<nat>>, medium: Medium, merged: set<int>, i: nat)
    requires |iface| == |groups| && i < |groups| && Sharing(groups, iface, medium, merged, i)
    requires iface[i].Some? ==>
               Started(iface, iface[i].value, i) || !Gathers(groups, iface, medium, iface[i].value)
    ensures Sharing(groups, iface, medium, merged, i + 1)
  {
    forall j: int ensures Shares(groups, iface, medium, i + 1, j) <==> Shares(groups, iface, medium, i, j) {
      if 0 <= j < |groups| && iface[j].Some? {
        StartedMore(iface, iface[j].value, i);
      }
    }
  }

  lemma ShareAll(groups: seq<Group>, iface: seq<Option<nat>>, medium: Medium, merged: set<int>, i: nat, peers: seq<nat>)
    requires |iface| == |groups| && i < |groups| && Sharing(groups, iface, medium, merged, i)
    requires iface[i].Some? && Gathers(groups, iface, medium, iface[i].value)
    requires PeersOf(groups, iface, iface[i].value, merged, peers)
    ensures Sharing(groups, iface, medium, merged + Places(peers), i + 1)
  {
    forall j: int ensures Shares(groups, iface, medium, i + 1, j) <==>
                          Shares(groups, iface, medium, i, j) || j in peers
    {
      if 0 <= j < |groups| && iface[j].Some? {
        StartedMore(iface, iface[j].value, i);
      }
    }
  }

  /** Each transmission is all that its interface gathers. */
  ghost predicate Whole(groups: seq<Group>, iface: seq<Option<nat>>, medium: Medium, merges: seq<seq<Mac>>)
    requires |iface| == |groups|
  {
    forall k :: 0 <= k < |merges| ==> WholeOne(groups, iface, medium, merges[k])
  }

  ghost predicate WholeOne(groups: seq<Group>, iface: seq<Option<nat>>, medium: Medium, union: seq<Mac>)
    requires |iface| == |groups|
  {
    exists idx :: Gathers(groups, iface, medium, idx) && union == Terminals(groups, iface, idx)
  }

  /** The groups that share a transmission with group `i`, none if it is not the one
      to gather them. */
  method Gather(groups: seq<Group>, iface: seq<Option<nat>>, medium: Medium, merged: set<int>, i: nat)
    returns (peers: seq<nat>)
    requires |iface| == |groups| && i < |groups| && medium.Counts()
    requires Sharing(groups, iface, medium, merged, i)
    ensures peers == [] && iface[i].Some? ==>
              Started(iface, iface[i].value, i) || !Gathers(groups, iface, medium, iface[i].value)
    ensures peers != [] ==>
              && iface[i].Some? && Gathers(groups, iface, medium, iface[i].value)
              && PeersOf(groups, iface, iface[i].value, merged, peers)
              && Nexts(groups, peers) == Terminals(groups, iface, iface[i].value)
  {
    peers := [];
    if i !in merged && iface[i].Some? && medium.threshold(iface[i].value).Some? {
      var idx := iface[i].value;
      var found := FindPeers(groups, iface, idx, merged);
      PeersMet(groups, iface, medium, merged, i);
      if |found| >= medium.threshold(idx).value && medium.taken(idx, Nexts(groups, found)) {
        peers := found;
      }
    }
  }

  lemma ShareMore(groups: seq<Group>, iface: seq<Option<nat>>, medium: Medium, merged: set<int>,
                  merges: seq<seq<Mac>>, i: nat, peers: seq<nat>)
    requires |iface| == |groups| && i < |groups| && DistinctHops(groups)
    requires Sharing(groups, iface, medium, merged, i) && Collapsed(groups, merged, merges)
    requires Whole(groups, iface, medium, merges)
    requires iface[i].Some? && Gathers(groups, iface, medium, iface[i].value) && peers != []
    requires PeersOf(groups, iface, iface[i].value, merged, peers)
    requires Nexts(groups, peers) == Terminals(groups, iface, iface[i].value)
    ensures Sharing(groups, iface, medium, merged + Places(peers), i + 1)
    ensures Collapsed(groups, merged + Places(peers), merges + [Nexts(groups, peers)])
    ensures Whole(groups, iface, medium, merges + [Nexts(groups, peers)])
  {
    PeersCollapse(groups, iface, iface[i].value, merged, peers);
    CollapseMore(groups, merged, merges, merged + Places(peers), Nexts(groups, peers));
    ShareAll(groups, iface, medium, merged, i, peers);
    assert WholeOne(groups, iface, medium, Nexts(groups, peers));
  }

  /** The collapse: for each interface in turn, all its terminal groups share one
      transmission if they are enough and the transmission is taken. */
  method Collapse(groups: seq<Group>, iface: seq<Option<nat>>, medium: Medium)
    returns (merges: seq<seq<Mac>>, merged: set<int>)
    requires |iface| == |groups| && DistinctHops(groups) && medium.Counts()
    ensures Collapsed(groups, merged, merges) && Whole(groups, iface, medium, merges)
    ensures Sharing(groups, iface, medium, merged, |groups|)
  {
    merges, merged := [], {};
    forall d ensures CarriedIn(groups, {}, d) == 0 {
      CarriedInNone(groups, d);
    }
    for i := 0 to |groups|
      invariant Collapsed(groups, merged, merges) && Whole(groups, iface, medium, merges)
      invariant Sharing(groups, iface, medium, merged, i)
    {
      var peers := Gather(groups, iface, medium, merged, i);
      if peers == [] {
        ShareNone(groups, iface, medium, merged, i);
      } else {
        ShareMore(groups, iface, medium, merged, merges, i, peers);
        merges := merges + [Nexts(groups, peers)];
        merged := merged + Places(peers);
      }
    }
  }

  /** What has left in one way or another. */
  ghost predicate Left(groups: seq<Group>, done: set<int>, merges: seq<seq<Mac>>, directed: seq<Group>,
                       dropped: seq<Mac>)
  {
    && (forall d :: CarriedIn(groups, done, d) ==
                    Times(Concat(merges), d) + Times(Carried(directed), d) + Times(dropped, d))
    && forall k :: 0 <= k < |directed| ==> directed[k] in groups
  }

  lemma LeaveOne(groups: seq<Group>, done: set<int>, merges: seq<seq<Mac>>, directed: seq<Group>, dropped: seq<Mac>,
                 i: nat)
    requires i < |groups| && i !in done && Left(groups, done, merges, directed, dropped)
    ensures Left(groups, done + {i}, merges, directed + [groups[i]], dropped)
    ensures Left(groups, done + {i}, merges, directed, dropped + groups[i].dests)
  {
    CarriedAppend(directed, groups[i]);
    forall d ensures CarriedIn(groups, done + {i}, d) == CarriedIn(groups, done, d) + Times(groups[i].dests, d) {
      CarriedInAdd(groups, done, i, d);
    }
  }

  lemma AllLeft(groups: seq<Group>, done: set<int>, merges: seq<seq<Mac>>, directed: seq<Group>, dropped: seq<Mac>)
    requires Left(groups, done, merges, directed, dropped) && forall j :: 0 <= j < |groups| ==> j in done
    ensures multiset(Carried(groups)) == multiset(Concat(merges)) + multiset(Carried(directed)) + multiset(dropped)
  {
    var all := multiset(Concat(merges)) + multiset(Carried(directed)) + multiset(dropped);
    forall d ensures multiset(Carried(groups))[d] == all[d] {
      CarriedInAll(groups, done, d);
      assert CarriedIn(groups, done, d) == Times(Carried(groups), d);
    }
  }

  /** The whole flush: what did not collapse goes out as a frame of its own, if it can. */
  method Flush(groups: seq<Group>, iface: seq<Option<nat>>, medium: Medium, emit: Group -> bool)
    returns (merges: seq<seq<Mac>>, directed: seq<Group>, dropped: seq<Mac>)
    requires |iface| == |groups| && DistinctHops(groups) && medium.Counts()
    ensures Flushed(groups, merges, directed, dropped) && Whole(groups, iface, medium, merges)
    ensures forall j :: 0 <= j < |groups| ==>
              (groups[j] in directed <==> !Shares(groups, iface, medium, |groups|, j) && emit(groups[j]))
    ensures (forall g :: g in groups ==> emit(g)) ==> dropped == []
  {
    var merged: set<int>;
    merges, merged := Collapse(groups, iface, medium);
    directed, dropped := [], [];
    ghost var done := merged;
    for i := 0 to |groups|
      invariant Left(groups, done, merges, directed, dropped)
      invariant forall j: int :: j in done <==> j in merged || 0 <= j < i
      invariant forall j :: 0 <= j < |groups| ==>
                  (groups[j] in directed <==> j < i && j !in merged && emit(groups[j]))
      invariant (forall g :: g in groups ==> emit(g)) ==> dropped == []
    {
      if i !in merged {
        LeaveOne(groups, done, merges, directed, dropped, i);
        if emit(groups[i]) {
          directed := directed + [groups[i]];
        } else {
          dropped := dropped + groups[i].dests;
        }
        done := done + {i};
      }
    }
    AllLeft(groups, done, merges, directed, dropped);
  }

  // ------------------------------------------------------------------- packets

  datatype Net = Net(flight: seq<Packet>, delivered: multiset<Mac>)

  ghost function Forwarded(groups: seq<Group>, ttl: nat): (ps: seq<Packet>)
    ensures |ps| == |groups|
  {
    seq(|groups|, i requires 0 <= i < |groups| => Packet(groups[i].next, ttl, Tag, groups[i].dests))
  }

  /** One transmission as each listener on the medium receives it. */
  ghost function Heard(listeners: seq<Mac>, union: seq<Mac>, ttl: nat): (ps: seq<Packet>)
    ensures |ps| == |listeners|
  {
    seq(|listeners|, i requires 0 <= i < |listeners| => Packet(listeners[i], ttl, Signature, union))
  }

  ghost function AllHeard(listeners: seq<seq<Mac>>, merges: seq<seq<Mac>>, ttl: nat): seq<Packet>
    requires |listeners| == |merges|
  {
    if merges == [] then []
    else
      var n := |merges| - 1;
      AllHeard(listeners[..n], merges[..n], ttl) + Heard(listeners[n], merges[n], ttl)
  }

  /** What one hop and its driver do with a packet: `h` is the hop's answer, and its
      groups are flushed as collapsed transmissions, each heard at most once by at most
      `reach` listeners, whoever they are, and as directed frames. */
  datatype Doing = Doing(h: Hop, merges: seq<seq<Mac>>, directed: seq<Group>, dropped: seq<Mac>,
                         listeners: seq<seq<Mac>>)
  {
    ghost predicate Does(p: Packet, reach: nat)
    {
      && Handled(p, h) && Flushed(h.groups, merges, directed, dropped) && |listeners| == |merges|
      && forall i :: 0 <= i < |listeners| ==> Distinct(listeners[i]) && |listeners[i]| <= reach
    }

    ghost function Out(ttl: nat): seq<Packet>
      requires |listeners| == |merges|
    {
      Forwarded(directed, ttl) + AllHeard(listeners, merges, ttl)
    }
  }

  function Lower(ttl: nat): nat
  {
    if ttl > 0 then ttl - 1 else 0
  }

  /** Packet `k` is received; its remainder is sent on. */
  ghost predicate Receives(reach: nat, n: Net, m: Net, k: nat, x: Doing)
  {
    && k < |n.flight| && x.Does(n.flight[k], reach)
    && m.flight == n.flight[..k] + n.flight[k + 1..] + x.Out(Lower(n.flight[k].ttl))
    && m.delivered == n.delivered + (if x.h.deliver then multiset{n.flight[k].at} else multiset{})
  }

  // -------------------------------------------------------------- conservation

  /** The deliveries a packet can lead to: to each destination named, or, on a shared
      medium where nobody forwards, to its receiver alone. */
  ghost function Claims(p: Packet): seq<Mac>
  {
    if p.form.Tag? then p.dests else if p.at in p.dests then [p.at] else []
  }

  /** The claims in flight, packet by packet. */
  ghost function Listed(flight: seq<Packet>): seq<Mac>
  {
    if flight == [] then [] else Claims(flight[0]) + Listed(flight[1..])
  }

  ghost function Named(flight: seq<Packet>): multiset<Mac>
  {
    multiset(Listed(flight))
  }

  lemma {:induction false} ListedConcat(a: seq<Packet>, b: seq<Packet>)
    ensures Listed(a + b) == Listed(a) + Listed(b)
    decreases |a|
  {
    if a == [] {
      assert a + b == b;
    } else {
      ListedConcat(a[1..], b);
      assert (a + b)[1..] == a[1..] + b;
    }
  }

  lemma NamedConcat(a: seq<Packet>, b: seq<Packet>)
    ensures Named(a + b) == Named(a) + Named(b)
  {
    ListedConcat(a, b);
  }

  lemma {:induction false} ListedForwarded(groups: seq<Group>, ttl: nat)
    ensures Listed(Forwarded(groups, ttl)) == Carried(groups)
    decreases |groups|
  {
    if groups != [] {
      var t := groups[..|groups| - 1];
      ListedForwarded(t, ttl);
      var last := Packet(groups[|groups| - 1].next, ttl, Tag, groups[|groups| - 1].dests);
      assert Forwarded(groups, ttl) == Forwarded(t, ttl) + [last];
      ListedConcat(Forwarded(t, ttl), [last]);
      assert Listed([last]) == last.dests + Listed([]);
    }
  }

  lemma HeardStep(listeners: seq<Mac>, union: seq<Mac>, ttl: nat, d: Mac)
    requires listeners != []
    ensures var n := |listeners| - 1;
            Named(Heard(listeners, union, ttl))[d] == Named(Heard(listeners[..n], union, ttl))[d] +
              if listeners[n] == d && d in union then 1 else 0
  {
    var n := |listeners| - 1;
    var front, last := listeners[..n], Packet(listeners[n], ttl, Signature, union);
    assert Heard(listeners, union, ttl) == Heard(front, union, ttl) + [last];
    ListedConcat(Heard(front, union, ttl), [last]);
    assert Listed([last]) == Claims(last) + Listed([]) == Claims(last);
  }

  lemma {:induction false} MemberOf(s: seq<Mac>, d: Mac)
    requires s != []
    ensures d in s <==> d in s[..|s| - 1] || d == s[|s| - 1]
  {
    assert s == s[..|s| - 1] + [s[|s| - 1]];
  }

  /** However many hear a transmission, each destination in it is claimed once. */
  lemma {:induction false} HeardClaims(listeners: seq<Mac>, union: seq<Mac>, ttl: nat, d: Mac)
    requires Distinct(listeners)
    ensures Named(Heard(listeners, union, ttl))[d] == (if d in listeners && d in union then 1 else 0)
    decreases |listeners|
  {
    if listeners != [] {
      var n := |listeners| - 1;
      HeardClaims(listeners[..n], union, ttl, d);
      HeardStep(listeners, union, ttl, d);
      MemberOf(listeners, d);
      assert listeners[n] !in listeners[..n];
    }
  }

  /** One transmission claims all its destinations exactly when the medium reaches
      every one of them: an over-claimed fan-out loses the others. */
  lemma ReachesAllIff(listeners: seq<Mac>, union: seq<Mac>, ttl: nat)
    requires Distinct(listeners) && Distinct(union)
    ensures Named(Heard(listeners, union, ttl)) == multiset(union) <==> forall u :: u in union ==> u in listeners
  {
    forall d ensures Named(Heard(listeners, union, ttl))[d] == (if d in listeners && d in union then 1 else 0)
                     && multiset(union)[d] == (if d in union then 1 else 0)
    {
      HeardClaims(listeners, union, ttl, d);
      DistinctOnce(union, d);
    }
  }

  lemma {:induction false} DistinctOnce(s: seq<Mac>, d: Mac)
    requires Distinct(s)
    ensures multiset(s)[d] == if d in s then 1 else 0
    decreases |s|
  {
    if s != [] {
      var n := |s| - 1;
      DistinctOnce(s[..n], d);
      assert s == s[..n] + [s[n]];
    }
  }

  lemma HeardNames(listeners: seq<Mac>, union: seq<Mac>, ttl: nat)
    requires Distinct(listeners)
    ensures Named(Heard(listeners, union, ttl)) <= multiset(union)
  {
    forall d ensures Named(Heard(listeners, union, ttl))[d] <= multiset(union)[d] {
      HeardClaims(listeners, union, ttl, d);
      assert d in union ==> d in multiset(union);
    }
  }

  lemma {:induction false} AllHeardNames(listeners: seq<seq<Mac>>, merges: seq<seq<Mac>>, ttl: nat)
    requires |listeners| == |merges| && forall i :: 0 <= i < |listeners| ==> Distinct(listeners[i])
    ensures Named(AllHeard(listeners, merges, ttl)) <= multiset(Concat(merges))
    decreases |merges|
  {
    if merges != [] {
      var n := |merges| - 1;
      AllHeardNames(listeners[..n], merges[..n], ttl);
      HeardNames(listeners[n], merges[n], ttl);
      NamedConcat(AllHeard(listeners[..n], merges[..n], ttl), Heard(listeners[n], merges[n], ttl));
    }
  }

  lemma NamedSplit(flight: seq<Packet>, k: nat)
    requires k < |flight|
    ensures Named(flight) == Named(flight[..k] + flight[k + 1..]) + multiset(Claims(flight[k]))
  {
    assert flight == flight[..k] + flight[k..];
    NamedConcat(flight[..k], flight[k..]);
    NamedConcat(flight[..k], flight[k + 1..]);
    assert flight[k..][1..] == flight[k + 1..];
  }

  /** One hop spends a destination when it delivers to it, and never makes one. */
  lemma HopSpends(p: Packet, h: Hop)
    requires Handled(p, h)
    ensures multiset(Carried(h.groups)) + (if h.deliver then multiset{p.at} else multiset{}) <= multiset(Claims(p))
  {
    if h.deliver {
      var own := Own(p.at, p.dests);
      assert own[0] in own;
      assert p.at in multiset(own) && p.at in multiset(p.dests);
    }
  }

  /** Nor does the driver, whatever it collapses and whoever hears it. */
  lemma OutNames(p: Packet, reach: nat, x: Doing, ttl: nat)
    requires x.Does(p, reach)
    ensures Named(x.Out(ttl)) <= multiset(Carried(x.h.groups))
  {
    ListedForwarded(x.directed, ttl);
    AllHeardNames(x.listeners, x.merges, ttl);
    NamedConcat(Forwarded(x.directed, ttl), AllHeard(x.listeners, x.merges, ttl));
  }

  lemma ReceiveSpends(reach: nat, n: Net, m: Net, k: nat, x: Doing)
    requires Receives(reach, n, m, k, x)
    ensures Named(m.flight) + m.delivered <= Named(n.flight) + n.delivered
  {
    var p := n.flight[k];
    NamedSplit(n.flight, k);
    NamedConcat(n.flight[..k] + n.flight[k + 1..], x.Out(Lower(p.ttl)));
    OutNames(p, reach, x, Lower(p.ttl));
    HopSpends(p, x.h);
  }

  ghost predicate Moves(reach: nat, n: Net, m: Net)
  {
    exists k, x :: Receives(reach, n, m, k, x)
  }

  /** Deliveries to `d`, made and to come. */
  ghost function Owed(n: Net, d: Mac): nat
  {
    n.delivered[d] + Times(Listed(n.flight), d)
  }

  lemma MoveSpends(reach: nat, n: Net, m: Net, d: Mac)
    requires Moves(reach, n, m)
    ensures Owed(m, d) <= Owed(n, d)
  {
    var k, x :| Receives(reach, n, m, k, x);
    ReceiveSpends(reach, n, m, k, x);
    var now, before := Named(m.flight) + m.delivered, Named(n.flight) + n.delivered;
    assert now[d] <= before[d];
  }

  ghost predicate ReceivesAt(reach: nat, run: seq<Net>, i: int)
    requires 0 <= i < |run| - 1
  {
    Moves(reach, run[i], run[i + 1])
  }

  ghost predicate IsRun(reach: nat, run: seq<Net>)
  {
    forall j :: 0 <= j < |run| - 1 ==> ReceivesAt(reach, run, j)
  }

  lemma {:induction false} OwedFalls(reach: nat, run: seq<Net>, i: nat, d: Mac)
    requires i < |run| && IsRun(reach, run)
    ensures Owed(run[i], d) <= Owed(run[0], d)
    decreases |run|
  {
    if i > 0 {
      assert ReceivesAt(reach, run, 0);
      MoveSpends(reach, run[0], run[1], d);
      TailRuns(reach, run);
      OwedFalls(reach, run[1..], i - 1, d);
    }
  }

  lemma TailRuns(reach: nat, run: seq<Net>)
    requires |run| > 0 && IsRun(reach, run)
    ensures IsRun(reach, run[1..])
  {
    forall j | 0 <= j < |run[1..]| - 1 ensures ReceivesAt(reach, run[1..], j) {
      assert ReceivesAt(reach, run, j + 1);
    }
  }

  /** No run, over any routes however wrong or changing and any collapsing of groups,
      delivers a frame to a destination more often than the sender named it: no
      deduplication needed. */
  lemma DeliveredAtMostAsNamed(reach: nat, run: seq<Net>, i: nat, d: Mac)
    requires i < |run| && IsRun(reach, run)
    ensures run[i].delivered[d] + Named(run[i].flight)[d] <= run[0].delivered[d] + Named(run[0].flight)[d]
  {
    OwedFalls(reach, run, i, d);
  }

  // -------------------------------------------------------------- termination

  /** The receptions a packet can still cause, itself included, where a transmission is
      heard by at most `reach` nodes. */
  ghost function Fuel(reach: nat, p: Packet): nat
  {
    if p.form.Tag? then 1 + Burn(reach, |p.dests|, p.ttl) else 1
  }

  ghost function Burn(reach: nat, dests: nat, ttl: nat): nat
  {
    (1 + reach) * dests * ttl
  }

  lemma BurnAdds(reach: nat, a: nat, b: nat, ttl: nat)
    ensures Burn(reach, a + b, ttl) == Burn(reach, a, ttl) + Burn(reach, b, ttl)
  {
    var k := 1 + reach;
    assert k * (a + b) == k * a + k * b;
    assert (k * a + k * b) * ttl == k * a * ttl + k * b * ttl;
  }

  ghost function TotalFuel(reach: nat, flight: seq<Packet>): nat
  {
    if flight == [] then 0 else Fuel(reach, flight[0]) + TotalFuel(reach, flight[1..])
  }

  lemma {:induction false} FuelConcat(reach: nat, a: seq<Packet>, b: seq<Packet>)
    ensures TotalFuel(reach, a + b) == TotalFuel(reach, a) + TotalFuel(reach, b)
    decreases |a|
  {
    if a == [] {
      assert a + b == b;
    } else {
      FuelConcat(reach, a[1..], b);
      assert (a + b)[1..] == a[1..] + b;
    }
  }

  lemma {:induction false} FuelForwarded(reach: nat, groups: seq<Group>, ttl: nat)
    ensures TotalFuel(reach, Forwarded(groups, ttl)) == |groups| + Burn(reach, |Carried(groups)|, ttl)
    decreases |groups|
  {
    if groups != [] {
      var t, g := groups[..|groups| - 1], groups[|groups| - 1];
      FuelForwarded(reach, t, ttl);
      var last := Packet(g.next, ttl, Tag, g.dests);
      assert Forwarded(groups, ttl) == Forwarded(t, ttl) + [last];
      FuelConcat(reach, Forwarded(t, ttl), [last]);
      assert TotalFuel(reach, [last]) == Fuel(reach, last) + TotalFuel(reach, []);
      BurnAdds(reach, |Carried(t)|, |g.dests|, ttl);
    }
  }

  lemma {:induction false} FuelHeard(reach: nat, listeners: seq<Mac>, union: seq<Mac>, ttl: nat)
    ensures TotalFuel(reach, Heard(listeners, union, ttl)) == |listeners|
    decreases |listeners|
  {
    if listeners != [] {
      var n := |listeners| - 1;
      FuelHeard(reach, listeners[..n], union, ttl);
      var last := Packet(listeners[n], ttl, Signature, union);
      assert Heard(listeners, union, ttl) == Heard(listeners[..n], union, ttl) + [last];
      FuelConcat(reach, Heard(listeners[..n], union, ttl), [last]);
      assert TotalFuel(reach, [last]) == Fuel(reach, last) + TotalFuel(reach, []);
    }
  }

  lemma ReachAdds(reach: nat, a: nat, b: nat, more: nat)
    requires more <= reach && b > 0
    ensures reach * a + more <= reach * (a + b)
  {
    assert reach * (a + b) == reach * a + reach * b;
    assert reach * b >= reach;
  }

  lemma {:induction false} FuelAllHeard(reach: nat, listeners: seq<seq<Mac>>, merges: seq<seq<Mac>>, ttl: nat)
    requires |listeners| == |merges|
    requires forall i :: 0 <= i < |merges| ==> |listeners[i]| <= reach && merges[i] != []
    ensures TotalFuel(reach, AllHeard(listeners, merges, ttl)) <= reach * |Concat(merges)|
    decreases |merges|
  {
    if merges != [] {
      var n := |merges| - 1;
      FuelAllHeard(reach, listeners[..n], merges[..n], ttl);
      FuelHeard(reach, listeners[n], merges[n], ttl);
      FuelConcat(reach, AllHeard(listeners[..n], merges[..n], ttl), Heard(listeners[n], merges[n], ttl));
      ReachAdds(reach, |Concat(merges[..n])|, |merges[n]|, |listeners[n]|);
    }
  }

  lemma {:induction false} GroupsFit(groups: seq<Group>)
    requires forall i :: 0 <= i < |groups| ==> groups[i].dests != []
    ensures |groups| <= |Carried(groups)|
    decreases |groups|
  {
    if groups != [] {
      GroupsFit(groups[..|groups| - 1]);
    }
  }

  lemma BurnDrops(reach: nat, directed: nat, merged: nat, dests: nat, ttl: nat)
    requires directed + merged <= dests && ttl > 0
    ensures directed + Burn(reach, directed, ttl - 1) + reach * merged <= Burn(reach, dests, ttl)
  {
    var k, t := 1 + reach, ttl - 1;
    OneMore(k, dests, t);
    Scaled(k, directed, dests, t);
    Spread(reach, directed, merged, dests);
  }

  lemma OneMore(k: nat, d: nat, t: nat)
    ensures k * d * (t + 1) == k * d * t + k * d
  {
  }

  lemma Scaled(k: nat, c: nat, d: nat, t: nat)
    requires c <= d
    ensures k * c * t <= k * d * t
  {
    assert k * c <= k * d;
  }

  lemma Spread(reach: nat, a: nat, b: nat, d: nat)
    requires a + b <= d
    ensures a + reach * b <= (1 + reach) * d
  {
    assert (1 + reach) * d == d + reach * d;
    assert reach * b <= reach * d;
  }

  lemma SizeMonotone(a: multiset<Mac>, b: multiset<Mac>)
    requires a <= b
    ensures |a| <= |b|
  {
    assert b == a + (b - a);
  }

  /** The destinations sent on are no more than those received. */
  lemma OutFits(p: Packet, reach: nat, x: Doing)
    requires x.Does(p, reach)
    ensures |x.directed| <= |Carried(x.directed)|
    ensures |Carried(x.directed)| + |Concat(x.merges)| <= |Claims(p)|
  {
    forall i | 0 <= i < |x.directed| ensures x.directed[i].dests != [] {
      assert x.directed[i] in x.h.groups;
    }
    GroupsFit(x.directed);
    HopSpends(p, x.h);
    var out := multiset(Concat(x.merges)) + multiset(Carried(x.directed));
    SizeMonotone(out, multiset(Claims(p)));
    assert |out| == |Concat(x.merges)| + |Carried(x.directed)|;
  }

  lemma OutFuel(p: Packet, reach: nat, x: Doing, ttl: nat)
    requires x.Does(p, reach)
    ensures TotalFuel(reach, x.Out(ttl)) <=
            |x.directed| + Burn(reach, |Carried(x.directed)|, ttl) + reach * |Concat(x.merges)|
  {
    FuelConcat(reach, Forwarded(x.directed, ttl), AllHeard(x.listeners, x.merges, ttl));
    FuelForwarded(reach, x.directed, ttl);
    forall i | 0 <= i < |x.merges| ensures x.merges[i] != [] {
      assert Collapsible(x.h.groups, x.merges[i]);
    }
    FuelAllHeard(reach, x.listeners, x.merges, ttl);
  }

  lemma OutBurns(p: Packet, reach: nat, x: Doing)
    requires x.Does(p, reach)
    ensures TotalFuel(reach, x.Out(Lower(p.ttl))) < Fuel(reach, p)
  {
    OutFuel(p, reach, x, Lower(p.ttl));
    if p.form.Tag? && p.ttl > 1 && |p.dests| <= MAX_MCAST_DESTS {
      OutFits(p, reach, x);
      BurnDrops(reach, |Carried(x.directed)|, |Concat(x.merges)|, |p.dests|, p.ttl);
    } else {
      NothingSent(p, reach, x);
      NoBurn(reach, Lower(p.ttl));
    }
  }

  lemma NoBurn(reach: nat, ttl: nat)
    ensures Burn(reach, 0, ttl) == 0
  {
  }

  lemma NothingSent(p: Packet, reach: nat, x: Doing)
    requires x.Does(p, reach) && x.h.groups == []
    ensures |Carried(x.directed)| == |Concat(x.merges)| == 0 && x.directed == []
  {
    assert |multiset(Concat(x.merges)) + multiset(Carried(x.directed)) + multiset(x.dropped)| == 0;
    OutFits(p, reach, x);
  }

  lemma FuelSplit(reach: nat, flight: seq<Packet>, k: nat)
    requires k < |flight|
    ensures TotalFuel(reach, flight) == TotalFuel(reach, flight[..k] + flight[k + 1..]) + Fuel(reach, flight[k])
  {
    assert flight == flight[..k] + flight[k..];
    FuelConcat(reach, flight[..k], flight[k..]);
    FuelConcat(reach, flight[..k], flight[k + 1..]);
    assert flight[k..][1..] == flight[k + 1..];
  }

  /** Every reception uses up fuel, so every run ends, loops or not. */
  lemma ReceiveBurns(reach: nat, n: Net, m: Net, k: nat, x: Doing)
    requires Receives(reach, n, m, k, x)
    ensures TotalFuel(reach, m.flight) < TotalFuel(reach, n.flight)
  {
    var p := n.flight[k];
    FuelSplit(reach, n.flight, k);
    FuelConcat(reach, n.flight[..k] + n.flight[k + 1..], x.Out(Lower(p.ttl)));
    OutBurns(p, reach, x);
  }

  lemma {:induction false} RunsEnd(reach: nat, run: seq<Net>)
    requires |run| > 0 && IsRun(reach, run)
    ensures |run| - 1 <= TotalFuel(reach, run[0].flight)
    decreases |run|
  {
    if |run| > 1 {
      TailRuns(reach, run);
      RunsEnd(reach, run[1..]);
      assert ReceivesAt(reach, run, 0);
      var k, x :| Receives(reach, run[0], run[1], k, x);
      ReceiveBurns(reach, run[0], run[1], k, x);
    }
  }
}
