// Which links are down (www/mesh.js, `dropLink`): a failure takes its link down, the
// one after the next takes it back up, and nothing else does either.
module MeshFailures {
  import opened Finite
  import opened MeshGraph
  import opened MeshRoute
  import opened MeshRouter
  import opened Wrappers

  /** A move leaves the links alone or fails one of them. */
  lemma MoveFails(g: Topology, s: State, t: State)
    requires g.Valid() && Inv(g, s) && Moves(g, s, t)
    ensures t.down == s.down || SomeFails(s.down, t.down)
  {
    if Drops(g, s, t) {
      var ahead :| Shortest(g, DownSet(s.down), ahead, s.at, g.dst) && DropsOn(g, s, t, ahead);
      if t != s {
        var i, idx :| 0 <= i < |ahead| - 1 && Loses(g, s, t, ahead, i, idx);
        LossFails(g, s, t, ahead, i, idx);
      }
    }
  }

  // ------------------------------------------------------------------ whole runs

  ghost predicate IsRun(g: Topology, run: seq<State>)
    requires g.Valid()
  {
    |run| > 0 && Inv(g, run[0]) && forall i :: 0 <= i < |run| - 1 ==> MoveAt(g, run, i)
  }

  /** The links that have failed by state `k`, in order, after those down at first. */
  ghost function Failed(run: seq<State>, k: nat): seq<nat>
    requires k < |run|
  {
    if k == 0 then run[0].down
    else
      var before, now := run[k - 1].down, run[k].down;
      Failed(run, k - 1) + if now == before || now == [] then [] else [now[|now| - 1]]
  }

  function LastTwo(links: seq<nat>): seq<nat>
  {
    if |links| <= 2 then links else links[|links| - 2..]
  }

  lemma StepFails(g: Topology, run: seq<State>, k: nat)
    requires g.Valid() && IsRun(g, run) && k + 1 < |run|
    ensures |run[k].down| <= 2
    ensures run[k + 1].down == run[k].down || SomeFails(run[k].down, run[k + 1].down)
  {
    EveryRunSafe(g, run, k);
    assert MoveAt(g, run, k);
    MoveFails(g, run[k], run[k + 1]);
  }

  lemma LastTwoMore(links: seq<nat>, down: seq<nat>, after: seq<nat>, idx: nat)
    requires down == LastTwo(links) && Fails(down, after, idx)
    ensures after == LastTwo(links + [idx])
  {
  }

  lemma OneMoreFailed(run: seq<State>, k: nat)
    requires 0 < k < |run| && |run[k - 1].down| <= 2 && run[k - 1].down == LastTwo(Failed(run, k - 1))
    requires run[k].down == run[k - 1].down || SomeFails(run[k - 1].down, run[k].down)
    ensures run[k].down == LastTwo(Failed(run, k))
  {
    if run[k].down != run[k - 1].down {
      var idx :| Fails(run[k - 1].down, run[k].down, idx);
      LastTwoMore(Failed(run, k - 1), run[k - 1].down, run[k].down, idx);
    }
  }

  /** At every moment of every run the links down are the two that failed last, or as
      many as there have been. */
  lemma {:induction false} DownAreLastTwo(g: Topology, run: seq<State>, k: nat)
    requires g.Valid() && IsRun(g, run) && k < |run|
    ensures run[k].down == LastTwo(Failed(run, k))
  {
    if k > 0 {
      DownAreLastTwo(g, run, k - 1);
      StepFails(g, run, k - 1);
      OneMoreFailed(run, k);
    }
  }

  /** How often the links down have changed between states `a` and `b`. */
  ghost function Failures(run: seq<State>, a: nat, b: nat): nat
    requires a <= b < |run|
  {
    if a == b then 0 else Failures(run, a, b - 1) + if run[b].down == run[b - 1].down then 0 else 1
  }

  /** Where a link stands that failed `n` failures ago. */
  predicate Stands(down: seq<nat>, idx: nat, n: nat)
  {
    && (n == 0 ==> down != [] && down[|down| - 1] == idx)
    && (n == 1 ==> |down| == 2 && down[0] == idx && down[1] != idx)
    && (n == 2 ==> idx !in down)
  }

  lemma StandsMore(before: seq<nat>, after: seq<nat>, next: nat, idx: nat, n: nat)
    requires |before| <= 2 && Stands(before, idx, n) && Fails(before, after, next)
    ensures Stands(after, idx, n + 1)
  {
  }

  /** A link that fails stays down through exactly the next failure, and is up again
      after the one following. */
  lemma {:induction false} DownForTwo(g: Topology, run: seq<State>, a: nat, b: nat, idx: nat)
    requires g.Valid() && IsRun(g, run) && a < b < |run|
    requires |run[a].down| <= 2 && Fails(run[a].down, run[a + 1].down, idx)
    ensures Stands(run[b].down, idx, Failures(run, a + 1, b))
    decreases b
  {
    if b > a + 1 {
      DownForTwo(g, run, a, b - 1, idx);
      StepFails(g, run, b - 1);
      if run[b].down != run[b - 1].down {
        var next :| Fails(run[b - 1].down, run[b].down, next);
        StandsMore(run[b - 1].down, run[b].down, next, idx, Failures(run, a + 1, b - 1));
      }
    }
  }
}
