// sim/scenarios/satellite_relay.py, `route_path`: recover a whole forwarding path
// by following each node's next hop, with a bound of one step per node.
module NextHopWalk {
  import opened Finite
  import opened Wrappers

  type Node = nat

  /** A node's answer for the destination: no route, every interface ("*"), or a
      link named by its two endpoints. */
  datatype Via = NoRoute | Everywhere | Link(a: Node, b: Node)

  /** The far end of the link `current` would use, if it names one. */
  function NextHop(via: Node -> Via, current: Node): Option<Node>
  {
    match via(current)
    case NoRoute => None
    case Everywhere => None
    case Link(a, b) => Some(if a == current then b else a)
  }

  /** Whichever end of the link is named first, the next hop is the other one. */
  lemma OtherEnd(via: Node -> Via, current: Node, v: Node)
    ensures via(current) in {Link(current, v), Link(v, current)} ==> NextHop(via, current) == Some(v)
    ensures via(current) in {NoRoute, Everywhere} ==> NextHop(via, current) == None
  {
  }

  /** Where `k` next hops from `src` lead. */
  function After(via: Node -> Via, src: Node, k: nat): Option<Node>
  {
    if k == 0 then Some(src)
    else
      match After(via, src, k - 1)
      case None => None
      case Some(at) => NextHop(via, at)
  }

  ghost predicate Arrives(via: Node -> Via, src: Node, dest: Node)
  {
    exists k: nat :: After(via, src, k) == Some(dest)
  }

  /** Links lead from nodes of the simulation to nodes of the simulation. */
  ghost predicate Closed(via: Node -> Via, n: nat)
  {
    forall v: Node :: v < n ==> (NextHop(via, v).Some? ==> NextHop(via, v).value < n)
  }

  /** The first `i + 1` nodes of the walk, none of them the destination yet. */
  ghost predicate Trail(via: Node -> Via, src: Node, hops: seq<Node>)
  {
    forall k :: 0 <= k < |hops| ==> After(via, src, k) == Some(hops[k])
  }

  /** A walk that comes back to where it was only repeats itself. */
  lemma {:induction false} Loops(via: Node -> Via, src: Node, i: nat, j: nat, k: nat) returns (m: nat)
    requires i < j && After(via, src, i) == After(via, src, j)
    ensures m < j && After(via, src, m) == After(via, src, k)
    decreases k
  {
    if k < j {
      m := k;
    } else if k == j {
      m := i;
    } else {
      m := Loops(via, src, i, j, k - 1);
      m := if m + 1 < j then m + 1 else i;
    }
  }

  lemma LoopNeverArrives(via: Node -> Via, src: Node, dest: Node, i: nat, j: nat)
    requires i < j && After(via, src, i) == After(via, src, j)
    requires forall k :: 0 <= k < j ==> After(via, src, k) != Some(dest)
    ensures !Arrives(via, src, dest)
  {
    forall k: nat ensures After(via, src, k) != Some(dest) {
      var m := Loops(via, src, i, j, k);
    }
  }

  lemma {:induction false} StopsForGood(via: Node -> Via, src: Node, i: nat, k: nat)
    requires After(via, src, i).None? && i <= k
    ensures After(via, src, k).None?
    decreases k
  {
    if k > i {
      StopsForGood(via, src, i, k - 1);
    }
  }

  lemma StopNeverArrives(via: Node -> Via, src: Node, dest: Node, i: nat)
    requires After(via, src, i).None? && forall k :: 0 <= k < i ==> After(via, src, k) != Some(dest)
    ensures !Arrives(via, src, dest)
  {
    forall k: nat ensures After(via, src, k) != Some(dest) {
      if k >= i {
        StopsForGood(via, src, i, k);
      }
    }
  }

  /** Up to its first arrival a walk repeats no node. */
  lemma FirstArrivalDistinct(via: Node -> Via, src: Node, dest: Node, hops: seq<Node>)
    requires |hops| > 0 && Trail(via, src, hops) && hops[|hops| - 1] == dest
    requires forall k :: 0 <= k < |hops| - 1 ==> hops[k] != dest
    ensures Distinct(hops)
  {
    assert After(via, src, |hops| - 1) == Some(dest);
    forall i, j | 0 <= i < j < |hops| ensures hops[i] != hops[j] {
      if hops[i] == hops[j] && j < |hops| - 1 {
        assert After(via, src, i) == After(via, src, j);
        LoopNeverArrives(via, src, dest, i, j);
        assert false;
      }
    }
  }

  /** Pigeonhole: more nodes than there are means one came twice. */
  lemma Repeats(hops: seq<Node>, n: nat) returns (i: nat, j: nat)
    requires |hops| > n && forall k :: 0 <= k < |hops| ==> hops[k] < n
    ensures i < j < |hops| && hops[i] == hops[j]
  {
    if Distinct(hops) {
      DistinctFits(hops, n);
      assert false;
    }
    i, j :| 0 <= i < j < |hops| && hops[i] == hops[j];
  }

  /** The walk over `n` nodes: the whole path when following next hops ever
      arrives, and nothing otherwise. The bound never cuts a real path short. */
  method RoutePath(n: nat, via: Node -> Via, src: Node, dest: Node) returns (path: seq<Node>)
    requires src < n && Closed(via, n)
    ensures path != [] <==> Arrives(via, src, dest)
    ensures path != [] ==> path[0] == src && path[|path| - 1] == dest && Trail(via, src, path)
    ensures Distinct(path) && |path| <= n
  {
    var hops: seq<Node> := [src];
    var current: Node := src;
    for i := 0 to n
      invariant |hops| == i + 1 && current == hops[i] && Trail(via, src, hops)
      invariant forall k :: 0 <= k < i ==> hops[k] != dest
      invariant forall k :: 0 <= k <= i ==> hops[k] < n
    {
      if current == dest {
        FirstArrivalDistinct(via, src, dest, hops);
        DistinctFits(hops, n);
        return hops;
      }
      var link := via(current);
      if link.NoRoute? || link.Everywhere? {
        assert After(via, src, i + 1).None?;
        StopNeverArrives(via, src, dest, i + 1);
        return [];
      }
      current := if link.a == current then link.b else link.a;
      assert After(via, src, i + 1) == Some(current);
      if current in hops {
        var k :| 0 <= k < |hops| && hops[k] == current;
        assert forall m :: 0 <= m <= i ==> After(via, src, m) == Some(hops[m]);
        LoopNeverArrives(via, src, dest, k, i + 1);
        return [];
      }
      hops := hops + [current];
    }
    var i, j := Repeats(hops, n);
    assert forall m :: 0 <= m < j ==> After(via, src, m) == Some(hops[m]);
    LoopNeverArrives(via, src, dest, i, j);
    return [];
  }
}
