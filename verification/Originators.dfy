// The originator table of the routing engine (libs/batman/src/engine.rs): what an
// OGM teaches about the paths to its originator, which next hop is kept as the
// best, and which one is actually forwarded to.
module Originators {
  import opened Finite
  import opened Seqno
  import opened Wrappers

  type Mac = nat
  type Quality = q: int | 0 <= q < 256

  const MAX_PATHS: nat := 4
  const MAX_MISSED_OGMS: nat := 6
  const HOP_PENALTY: nat := 10

  /** One way to reach an originator: through a neighbour. */
  datatype Path = Path(neighbor: Mac, tq: Quality, seqno: U32, heard: U32, interval: U32)

  datatype Record = Record(heard: U32, best: Option<Mac>, maxTq: Quality, track: Track, paths: seq<Path>)

  /** What an OGM says, and what this node knows about whoever relayed it:
      whether the relay has proven itself, and the link quality measured to it. */
  datatype Ogm = Ogm(orig: Mac, seqno: U32, ttl: nat, tq: Quality)
  datatype Relay = Relay(src: Mac, proven: bool, quality: Option<Quality>)

  // ------------------------------------------------------------------- ageing

  /** The slowest cadence seen, decaying by an eighth per newer OGM. */
  function Blend(held: U32, gap: U32): U32
  {
    if held == 0 then gap else if held * 7 / 8 >= gap then held * 7 / 8 else gap
  }

  function SaturatingMul(a: U32, k: nat): U32
  {
    if a * k < MODULUS then a * k else MODULUS - 1
  }

  predicate Stale(now: U32, p: Path, seed: U32)
  {
    ElapsedSince(now, p.heard) > SaturatingMul(if p.interval == 0 then seed else p.interval, MAX_MISSED_OGMS)
  }

  // ----------------------------------------------------------------- learning

  /** The quality believed of a path: the advertised one less a hop, and never
      better than the link it arrived over. */
  function Attenuated(tq: Quality, quality: Option<Quality>): (r: Quality)
    ensures r <= tq && (tq >= HOP_PENALTY ==> r <= tq - HOP_PENALTY) && (tq < HOP_PENALTY ==> r == 0)
    ensures quality.Some? ==> r <= quality.value
    ensures r == 0 || r == tq - HOP_PENALTY || quality == Some(r)
  {
    var less := if tq >= HOP_PENALTY then tq - HOP_PENALTY else 0;
    match quality
    case None => less
    case Some(local) => if less <= local then less else local
  }

  /** Position of the path through `src`, or the number of paths when unknown. */
  function IndexOf(paths: seq<Path>, src: Mac): (k: nat)
    ensures k <= |paths|
    ensures k < |paths| ==> paths[k].neighbor == src
    ensures forall i :: 0 <= i < k ==> paths[i].neighbor != src
  {
    if paths == [] || paths[0].neighbor == src then 0 else 1 + IndexOf(paths[1..], src)
  }

  function LearnPath(paths: seq<Path>, src: Mac, tq: Quality, seqno: U32, now: U32): seq<Path>
  {
    var k := IndexOf(paths, src);
    if k < |paths| then
      var p := paths[k];
      var interval := if seqno > p.seqno then Blend(p.interval, ElapsedSince(now, p.heard)) else p.interval;
      paths[k := Path(src, tq, seqno, now, interval)]
    else if |paths| < MAX_PATHS then paths + [Path(src, tq, seqno, now, 0)]
    else paths
  }

  /** Selection with hysteresis, under the proof gate. */
  function Select(best: Option<Mac>, maxTq: Quality, src: Mac, proven: bool, tq: Quality): (Option<Mac>, Quality)
  {
    if best == Some(src) then
      if proven then (best, tq) else (None, 0)
    else if proven && (best.None? || tq > maxTq) then (Some(src), tq)
    else (best, maxTq)
  }

  /** What an OGM does to its originator's record, and whether its number was
      admitted. `known` is false on first contact. */
  function Learn(r: Record, known: bool, o: Ogm, relay: Relay, now: U32): (Record, Admission)
  {
    var (track, verdict) := if known then Admit(OGM, r.track, o.seqno, now) else (Track(o.seqno, None), Advanced);
    if verdict.Stale() then (r.(track := track), verdict)
    else
      var tq := Attenuated(o.tq, relay.quality);
      var (best, maxTq) := Select(r.best, r.maxTq, relay.src, relay.proven, tq);
      (Record(if verdict.Current() then now else r.heard, best, maxTq, track,
              LearnPath(r.paths, relay.src, tq, o.seqno, now)), verdict)
  }

  function Fresh(now: U32): Record
  {
    Record(now, None, 0, Track(0, None), [])
  }

  /** The OGM sent on, if any: once per admitted number, while TTL remains. */
  function Reflood(verdict: Admission, o: Ogm, relay: Relay): Option<Ogm>
  {
    if verdict.Advances() && o.ttl > 1 then Some(o.(ttl := o.ttl - 1, tq := Attenuated(o.tq, relay.quality))) else None
  }

  // --------------------------------------------------------------- invariants

  ghost predicate DistinctPaths(paths: seq<Path>)
  {
    |paths| <= MAX_PATHS && OneEach(paths)
  }

  /** No neighbour has two paths. */
  ghost predicate OneEach(paths: seq<Path>)
  {
    forall i, j :: 0 <= i < j < |paths| ==> paths[i].neighbor != paths[j].neighbor
  }

  ghost predicate Through(paths: seq<Path>, m: Mac)
  {
    exists i :: 0 <= i < |paths| && paths[i].neighbor == m
  }

  /** The selected next hop is one of the known paths. */
  ghost predicate SelectedKnown(r: Record)
  {
    r.best.Some? ==> Through(r.paths, r.best.value)
  }

  ghost predicate Sane(r: Record)
  {
    DistinctPaths(r.paths) && WatchJustified(OGM, r.track)
  }

  lemma LearnPathKeeps(paths: seq<Path>, src: Mac, tq: Quality, seqno: U32, now: U32)
    requires DistinctPaths(paths)
    ensures DistinctPaths(LearnPath(paths, src, tq, seqno, now))
    ensures forall m :: Through(paths, m) ==> Through(LearnPath(paths, src, tq, seqno, now), m)
    ensures Through(LearnPath(paths, src, tq, seqno, now), src) <==> Through(paths, src) || |paths| < MAX_PATHS
  {
    var k := IndexOf(paths, src);
    var after := LearnPath(paths, src, tq, seqno, now);
    forall m | Through(paths, m) ensures Through(after, m) {
      var i :| 0 <= i < |paths| && paths[i].neighbor == m;
      assert after[i].neighbor == m;
    }
    if k < |paths| {
      assert after[k].neighbor == src;
    } else if |paths| < MAX_PATHS {
      assert after[|paths|].neighbor == src;
    }
  }

  lemma LearnKeepsSane(r: Record, known: bool, o: Ogm, relay: Relay, now: U32)
    requires Sane(r)
    ensures Sane(Learn(r, known, o, relay, now).0)
  {
    AdmitKeepsWatchJustified(OGM, r.track, o.seqno, now);
    LearnPathKeeps(r.paths, relay.src, Attenuated(o.tq, relay.quality), o.seqno, now);
  }

  /** A fifth neighbour that beats the incumbent is selected without a path being
      kept for it. */
  ghost predicate Overflows(r: Record, known: bool, o: Ogm, relay: Relay, now: U32)
  {
    && (known ==> !Admit(OGM, r.track, o.seqno, now).1.Stale())
    && !Through(r.paths, relay.src) && |r.paths| >= MAX_PATHS
    && relay.proven && r.best != Some(relay.src)
    && (r.best.None? || Attenuated(o.tq, relay.quality) > r.maxTq)
  }

  /** Selection stays among the known paths exactly when the OGM does not come
      from a better neighbour that there is no room to remember. */
  lemma SelectedKnownIff(r: Record, known: bool, o: Ogm, relay: Relay, now: U32)
    requires Sane(r) && SelectedKnown(r)
    ensures SelectedKnown(Learn(r, known, o, relay, now).0) <==> !Overflows(r, known, o, relay, now)
  {
    LearnPathKeeps(r.paths, relay.src, Attenuated(o.tq, relay.quality), o.seqno, now);
  }

  /** A better proven neighbour's next OGM, met for the first time: it is selected,
      and remembered only if there is room. */
  lemma BetterNeighbour(r: Record, seqno: U32, tq: Quality, src: Mac, now: U32)
    requires seqno > 0 && r.track == Track(seqno - 1, None) && r.best.Some? && r.best != Some(src)
    requires tq >= HOP_PENALTY && tq - HOP_PENALTY > r.maxTq
    requires forall i :: 0 <= i < |r.paths| ==> r.paths[i].neighbor != src
    ensures Learn(r, true, Ogm(9, seqno, 8, tq), Relay(src, true, None), now).0 ==
            Record(now, Some(src), tq - HOP_PENALTY, Track(seqno, None),
                   if |r.paths| < MAX_PATHS then r.paths + [Path(src, tq - HOP_PENALTY, seqno, now, 0)] else r.paths)
  {
    assert Signed(seqno, seqno - 1) == 1;
  }

  /** The record of originator 9 after its first `n` OGMs, each through another
      proven neighbour and ten better than the last. */
  function Climb(n: nat): Record
    requires n <= 14
  {
    if n == 0 then Fresh(0)
    else Learn(Climb(n - 1), n > 1, Ogm(9, n, 8, 100 + 10 * n), Relay(n, true, None), n).0
  }

  /** The first `k` of those paths. */
  function Ladder(k: nat): (paths: seq<Path>)
    requires k <= MAX_PATHS
    ensures |paths| == k && forall i :: 0 <= i < k ==> paths[i] == Path(i + 1, 100 + 10 * i, i + 1, i + 1, 0)
  {
    seq(k, i requires 0 <= i < k => Path(i + 1, 100 + 10 * i, i + 1, i + 1, 0))
  }

  function Rung(n: nat): Record
    requires 1 <= n <= 14
  {
    Record(n, Some(n), 90 + 10 * n, Track(n, None), Ladder(if n < MAX_PATHS then n else MAX_PATHS))
  }

  lemma RungStep(n: nat)
    requires 2 <= n <= 14
    ensures Learn(Rung(n - 1), true, Ogm(9, n, 8, 100 + 10 * n), Relay(n, true, None), n).0 == Rung(n)
  {
    BetterNeighbour(Rung(n - 1), n, 100 + 10 * n, n, n);
    if n <= MAX_PATHS {
      assert Ladder(n - 1) + [Path(n, 90 + 10 * n, n, n, 0)] == Ladder(n);
    }
  }

  lemma FirstRung()
    ensures Climb(1) == Rung(1)
  {
    assert Climb(0) == Fresh(0);
    assert [Path(1, 100, 1, 1, 0)] == Ladder(1);
  }

  lemma {:induction false} ClimbIs(n: nat)
    requires 1 <= n <= 14
    ensures Climb(n) == Rung(n)
  {
    if n == 1 {
      FirstRung();
    } else {
      ClimbIs(n - 1);
      RungStep(n);
    }
  }

  /** Four such neighbours are all remembered; from the fifth on the table selects a
      next hop it holds no path for. */
  lemma FiveNeighbours(n: nat)
    requires 1 <= n <= 14
    ensures Climb(n).best == Some(n) && (SelectedKnown(Climb(n)) <==> n <= MAX_PATHS)
  {
    ClimbIs(n);
    if n <= MAX_PATHS {
      assert Climb(n).paths[n - 1].neighbor == n;
    }
  }

  // --------------------------------------------------------- what an OGM leaves

  /** The quality believed of a path: ten below the advertised one and not below zero,
      capped by the link's own where that is measured. */
  predicate Believed(tq: Quality, quality: Option<Quality>, r: Quality)
  {
    var less := if tq < 10 then 0 else tq - 10;
    r == if quality.Some? && quality.value < less then quality.value else less
  }

  /** How far the number is ahead of the originator's mark; one unknown is one ahead. */
  function Ahead(r: Record, known: bool, o: Ogm): int
  {
    if known then Signed(o.seqno, r.track.high) else 1
  }

  /** An OGM a little behind the newest is ignored; any other leaves the path it came
      over as it now is, if there is room, and every other path alone; and only one that
      is not behind, or that corrects the mark, counts as hearing the originator. */
  lemma LearnStores(r: Record, known: bool, o: Ogm, relay: Relay, now: U32)
    requires DistinctPaths(r.paths)
    ensures var after := Learn(r, known, o, relay, now).0;
            var ahead := Ahead(r, known, o);
            && (-16 <= ahead < 0 ==> after == r)
            && (0 <= ahead <= 256 ==> after.heard == now)
            && (!(-16 <= ahead < 0) ==>
                  && (forall i :: 0 <= i < |r.paths| && r.paths[i].neighbor != relay.src ==>
                        i < |after.paths| && after.paths[i] == r.paths[i])
                  && (forall i :: 0 <= i < |r.paths| && r.paths[i].neighbor == relay.src ==>
                        |after.paths| == |r.paths| && Renewed(r.paths[i], o, relay, now, after.paths[i]))
                  && (!Through(r.paths, relay.src) && |r.paths| < 4 ==>
                        |after.paths| == |r.paths| + 1 && Begun(o, relay, now, after.paths[|r.paths|]))
                  && (!Through(r.paths, relay.src) && |r.paths| >= 4 ==> after.paths == r.paths))
  {
    var k := IndexOf(r.paths, relay.src);
    assert forall i :: 0 <= i < |r.paths| && r.paths[i].neighbor == relay.src ==> i == k;
  }

  predicate Begun(o: Ogm, relay: Relay, now: U32, p: Path)
  {
    && p.neighbor == relay.src && p.seqno == o.seqno && p.heard == now && p.interval == 0
    && Believed(o.tq, relay.quality, p.tq)
  }

  /** The path after another OGM over it: its number, time and quality are the new ones,
      and its cadence is the gap since the last, or an eighth less than it was if that is
      longer; a number no greater leaves the cadence alone. */
  predicate Renewed(was: Path, o: Ogm, relay: Relay, now: U32, p: Path)
  {
    var gap := ElapsedSince(now, was.heard);
    && p.neighbor == relay.src && p.seqno == o.seqno && p.heard == now
    && Believed(o.tq, relay.quality, p.tq)
    && (o.seqno <= was.seqno ==> p.interval == was.interval)
    && (o.seqno > was.seqno ==>
          p.interval >= gap && (was.interval > 0 ==> p.interval >= was.interval * 7 / 8)
          && (p.interval == gap || (was.interval > 0 && p.interval == was.interval * 7 / 8)))
  }

  /** The selection: a proven relay is selected if it was, if nothing was, or if its
      path is better than the selected one's; an unproven one is deselected; and any
      other leaves the selection alone. */
  lemma LearnSelects(r: Record, known: bool, o: Ogm, relay: Relay, now: U32)
    requires !(-16 <= Ahead(r, known, o) < 0)
    ensures var after := Learn(r, known, o, relay, now).0;
            exists tq: Quality :: Believed(o.tq, relay.quality, tq) &&
              if relay.proven && (r.best == Some(relay.src) || r.best == None || tq > r.maxTq)
              then after.best == Some(relay.src) && after.maxTq == tq
              else if !relay.proven && r.best == Some(relay.src) then after.best == None && after.maxTq == 0
              else after.best == r.best && after.maxTq == r.maxTq
  {
    assert Believed(o.tq, relay.quality, Attenuated(o.tq, relay.quality));
  }

  /** The cadence held is never below the last gap, nor above all that were seen. */
  lemma {:induction false} CadenceWithin(held: U32, gaps: seq<U32>, top: nat)
    requires gaps != [] && held <= top && forall i :: 0 <= i < |gaps| ==> gaps[i] <= top
    ensures gaps[|gaps| - 1] <= BlendAll(held, gaps) <= top
    decreases |gaps|
  {
    if |gaps| > 1 {
      CadenceWithin(held, gaps[..|gaps| - 1], top);
    }
  }

  /** A path is dropped exactly when it has been silent for more than six of its
      cadences, or of the configured one while it has none. */
  lemma StaleIff(p: Path, seed: U32, at: nat, silence: nat)
    requires p.heard == Wrap(at) && silence < HALF
    ensures Stale(Wrap(at + silence), p, seed) <==> silence > 6 * (if p.interval == 0 then seed else p.interval)
  {
    ElapsedTrue(at, at + silence);
  }

  // ------------------------------------------------------- periodic correction

  /** `r.best` is the last of the best selectable paths, or nothing. */
  ghost predicate BestOf(r: Record, selectable: Mac -> bool)
  {
    match r.best
    case None => r.maxTq == 0 && forall i :: 0 <= i < |r.paths| ==> !selectable(r.paths[i].neighbor)
    case Some(m) =>
      exists k :: 0 <= k < |r.paths| && r.paths[k].neighbor == m && r.paths[k].tq == r.maxTq && selectable(m)
        && (forall i :: 0 <= i < |r.paths| && selectable(r.paths[i].neighbor) ==> r.paths[i].tq <= r.maxTq)
        && (forall i :: k < i < |r.paths| && selectable(r.paths[i].neighbor) ==> r.paths[i].tq < r.maxTq)
  }

  /** `recompute_best`: the highest-quality selectable path, later ones winning
      ties, or nothing when none is. */
  method RecomputeBest(r: Record, selectable: Mac -> bool) returns (s: Record)
    ensures s == r.(best := s.best, maxTq := s.maxTq) && BestOf(s, selectable) && SelectedKnown(s)
  {
    var k: int := -1;
    for i := 0 to |r.paths|
      invariant -1 <= k < i
      invariant k == -1 ==> forall j :: 0 <= j < i ==> !selectable(r.paths[j].neighbor)
      invariant k >= 0 ==> selectable(r.paths[k].neighbor)
      invariant k >= 0 ==> forall j :: 0 <= j < i && selectable(r.paths[j].neighbor) ==> r.paths[j].tq <= r.paths[k].tq
      invariant k >= 0 ==> forall j :: k < j < i && selectable(r.paths[j].neighbor) ==> r.paths[j].tq < r.paths[k].tq
    {
      if selectable(r.paths[i].neighbor) && (k == -1 || r.paths[i].tq >= r.paths[k].tq) {
        k := i;
      }
    }
    if k == -1 {
      s := r.(best := None, maxTq := 0);
    } else {
      s := r.(best := Some(r.paths[k].neighbor), maxTq := r.paths[k].tq);
      assert s.paths[k].neighbor == s.best.value;
    }
  }

  /** Paths the prune leaves: those that have not aged out, in order. */
  function Live(paths: seq<Path>, now: U32, seed: U32): (live: seq<Path>)
    ensures |live| <= |paths|
    ensures forall p :: p in live <==> p in paths && !Stale(now, p, seed)
  {
    if paths == [] then []
    else
      var rest := Live(paths[1..], now, seed);
      assert forall p :: p in paths <==> p == paths[0] || p in paths[1..];
      if Stale(now, paths[0], seed) then rest else [paths[0]] + rest
  }

  lemma {:induction false} LiveDistinct(paths: seq<Path>, now: U32, seed: U32)
    requires OneEach(paths)
    ensures OneEach(Live(paths, now, seed))
  {
    if paths != [] {
      var rest := Live(paths[1..], now, seed);
      assert forall i :: 0 <= i < |paths[1..]| ==> paths[1..][i] == paths[i + 1];
      LiveDistinct(paths[1..], now, seed);
      forall j | 0 <= j < |rest| ensures rest[j].neighbor != paths[0].neighbor {
        assert rest[j] in paths[1..];
      }
      ConsDistinct(paths[0], rest);
    }
  }

  lemma ConsDistinct(p: Path, rest: seq<Path>)
    requires OneEach(rest) && forall j :: 0 <= j < |rest| ==> rest[j].neighbor != p.neighbor
    ensures OneEach([p] + rest)
  {
  }

  /** The purge takes a path from the record, or the record itself. */
  predicate Shrinks(r: Record, now: U32, seed: U32)
  {
    |Live(r.paths, now, seed)| != |r.paths| || Live(r.paths, now, seed) == []
  }

  /** What the purge makes of a record: its live paths, and the best selectable of
      them. */
  ghost predicate Purged(r: Record, s: Record, now: U32, seed: U32, selectable: Mac -> bool)
  {
    s == r.(paths := Live(r.paths, now, seed), best := s.best, maxTq := s.maxTq) && BestOf(s, selectable)
  }

  /** Whatever a fifth neighbour or a revocation did to the selection, the purge puts
      it back among the known paths, and keeps the record sane. */
  method Purge(r: Record, now: U32, seed: U32, selectable: Mac -> bool) returns (s: Record)
    ensures Purged(r, s, now, seed, selectable) && SelectedKnown(s)
    ensures Sane(r) ==> Sane(s)
  {
    s := RecomputeBest(r.(paths := Live(r.paths, now, seed)), selectable);
    if Sane(r) {
      LiveDistinct(r.paths, now, seed);
    }
  }

  /** Revocation removes a neighbour's paths but not a selection of it: the record
      still names a known path exactly when it was not the revoked one. */
  function Revoke(r: Record, m: Mac): Record
  {
    r.(paths := Without(r.paths, m))
  }

  function Without(paths: seq<Path>, m: Mac): (left: seq<Path>)
    ensures forall n :: Through(left, n) <==> Through(paths, n) && n != m
  {
    if paths == [] then []
    else
      var rest := Without(paths[1..], m);
      WithoutStep(paths, rest, m);
      if paths[0].neighbor == m then rest else [paths[0]] + rest
  }

  lemma WithoutStep(paths: seq<Path>, rest: seq<Path>, m: Mac)
    requires paths != [] && forall n :: Through(rest, n) <==> Through(paths[1..], n) && n != m
    ensures var left := if paths[0].neighbor == m then rest else [paths[0]] + rest;
            forall n :: Through(left, n) <==> Through(paths, n) && n != m
  {
    var left := if paths[0].neighbor == m then rest else [paths[0]] + rest;
    forall n ensures Through(left, n) <==> Through(paths, n) && n != m {
      ThroughCons(paths, n);
      if paths[0].neighbor != m {
        ThroughCons(left, n);
        assert left[1..] == rest;
      }
    }
  }

  lemma ThroughCons(paths: seq<Path>, n: Mac)
    requires paths != []
    ensures Through(paths, n) <==> paths[0].neighbor == n || Through(paths[1..], n)
  {
    if Through(paths[1..], n) {
      var i :| 0 <= i < |paths[1..]| && paths[1..][i].neighbor == n;
      assert paths[i + 1].neighbor == n;
    }
    if Through(paths, n) && paths[0].neighbor != n {
      var i :| 0 <= i < |paths| && paths[i].neighbor == n;
      assert paths[1..][i - 1].neighbor == n;
    }
  }

  lemma RevokeIff(r: Record, m: Mac)
    requires SelectedKnown(r)
    ensures SelectedKnown(Revoke(r, m)) <==> r.best != Some(m)
  {
  }

  // --------------------------------------------------------------- forwarding

  /** A path fit to forward over: heard recently, through a proven neighbour. */
  predicate Usable(p: Path, now: U32, seed: U32, proven: Mac -> bool)
  {
    !Stale(now, p, seed) && proven(p.neighbor)
  }

  function EffectiveTq(p: Path, silent: Mac -> bool): Quality
  {
    if silent(p.neighbor) then 0 else p.tq
  }

  /** The hop frames are actually sent to: a usable path of the best quality,
      neighbours that missed their heartbeats counting as zero. */
  method NextHop(r: Record, now: U32, seed: U32, proven: Mac -> bool, silent: Mac -> bool) returns (hop: Option<Mac>)
    ensures hop.None? <==> forall i :: 0 <= i < |r.paths| ==> !Usable(r.paths[i], now, seed, proven)
    ensures hop.Some? ==>
              exists k :: 0 <= k < |r.paths| && r.paths[k].neighbor == hop.value
                          && Usable(r.paths[k], now, seed, proven)
                && (forall i :: 0 <= i < |r.paths| && Usable(r.paths[i], now, seed, proven) ==>
                      EffectiveTq(r.paths[i], silent) <= EffectiveTq(r.paths[k], silent))
                && (forall i :: k < i < |r.paths| && Usable(r.paths[i], now, seed, proven) ==>
                      EffectiveTq(r.paths[i], silent) < EffectiveTq(r.paths[k], silent))
    // A proven neighbour that is heard from is never passed over for one that is not,
    // nor for one over a worse path.
    ensures hop.Some? ==> proven(hop.value)
    ensures forall p :: p in r.paths && proven(p.neighbor) && !Stale(now, p, seed) ==> hop.Some?
    ensures forall p :: p in r.paths && proven(p.neighbor) && !Stale(now, p, seed)
                        && !silent(p.neighbor) && p.tq > 0 ==>
              && !silent(hop.value)
              && exists q :: q in r.paths && q.neighbor == hop.value && q.tq >= p.tq && !Stale(now, q, seed)
  {
    var k: int := -1;
    for i := 0 to |r.paths|
      invariant -1 <= k < i
      invariant k == -1 ==> forall j :: 0 <= j < i ==> !Usable(r.paths[j], now, seed, proven)
      invariant k >= 0 ==> Usable(r.paths[k], now, seed, proven)
      invariant k >= 0 ==> forall j :: 0 <= j < i && Usable(r.paths[j], now, seed, proven) ==>
                  EffectiveTq(r.paths[j], silent) <= EffectiveTq(r.paths[k], silent)
      invariant k >= 0 ==> forall j :: k < j < i && Usable(r.paths[j], now, seed, proven) ==>
                  EffectiveTq(r.paths[j], silent) < EffectiveTq(r.paths[k], silent)
    {
      if Usable(r.paths[i], now, seed, proven)
         && (k == -1 || EffectiveTq(r.paths[i], silent) >= EffectiveTq(r.paths[k], silent)) {
        k := i;
      }
    }
    hop := if k == -1 then None else Some(r.paths[k].neighbor);
  }

  // -------------------------------------------------- ageing under a steady relay

  /** The held cadence after `n` gaps too short to matter. */
  function Decayed(held: nat, n: nat): nat
  {
    if n == 0 then held else Decayed(held, n - 1) * 7 / 8
  }

  lemma {:induction false} DecayedFalls(a: nat, m: nat, n: nat)
    requires m <= n
    ensures Decayed(a, n) <= Decayed(a, m)
    decreases n
  {
    if m < n {
      DecayedFalls(a, m, n - 1);
    }
  }

  /** After `n` newer OGMs, whatever their gaps, the cadence held is at least the
      first one decayed `n` times. */
  lemma {:induction false} HeldAtLeast(held: U32, gaps: seq<U32>)
    requires held > 0
    ensures BlendAll(held, gaps) >= Decayed(held, |gaps|)
    decreases |gaps|
  {
    if gaps != [] {
      HeldAtLeast(held, gaps[..|gaps| - 1]);
    }
  }

  function BlendAll(held: U32, gaps: seq<U32>): U32
  {
    if gaps == [] then held else Blend(BlendAll(held, gaps[..|gaps| - 1]), gaps[|gaps| - 1])
  }

  lemma SevenDecays(gap: nat)
    requires gap >= 72
    ensures MAX_MISSED_OGMS * Decayed(gap, 7) >= 2 * gap
  {
    var d1 := OneDecay(gap, 1);
    var d2 := OneDecay(gap, 2);
    var d3 := OneDecay(gap, 3);
    var d4 := OneDecay(gap, 4);
    var d5 := OneDecay(gap, 5);
    var d6 := OneDecay(gap, 6);
    var d7 := OneDecay(gap, 7);
  }

  lemma EightDecays(gap: nat)
    requires gap >= 600
    ensures MAX_MISSED_OGMS * Decayed(gap, 8) >= 2 * gap
  {
    var d1 := OneDecay(gap, 1);
    var d2 := OneDecay(gap, 2);
    var d3 := OneDecay(gap, 3);
    var d4 := OneDecay(gap, 4);
    var d5 := OneDecay(gap, 5);
    var d6 := OneDecay(gap, 6);
    var d7 := OneDecay(gap, 7);
    var d8 := OneDecay(gap, 8);
  }

  lemma NineDecays(gap: nat)
    requires gap > 0
    ensures MAX_MISSED_OGMS * Decayed(gap, 9) < 2 * gap
  {
    var d1 := OneDecay(gap, 1);
    var d2 := OneDecay(gap, 2);
    var d3 := OneDecay(gap, 3);
    var d4 := OneDecay(gap, 4);
    var d5 := OneDecay(gap, 5);
    var d6 := OneDecay(gap, 6);
    var d7 := OneDecay(gap, 7);
    var d8 := OneDecay(gap, 8);
    var d9 := OneDecay(gap, 9);
  }

  lemma OneDecay(gap: nat, n: nat) returns (d: nat)
    requires n > 0
    ensures d == Decayed(gap, n) && 8 * d <= 7 * Decayed(gap, n - 1) < 8 * d + 8
    ensures n == 1 ==> Decayed(gap, n - 1) == gap
  {
    d := Decayed(gap, n);
  }

  /** A neighbour that sends a burst of up to eight OGMs per round, or nine where
      rounds are 600 ms apart, and no more than doubles the gap between rounds is
      never taken for dead. */
  lemma BurstsKeepPath(p: Path, gap: U32, burst: seq<U32>, next: nat, seed: U32, at: nat)
    requires (72 <= gap && |burst| <= 7) || (600 <= gap && |burst| <= 8)
    requires p.interval == BlendAll(gap, burst) && next <= 2 * gap && next < HALF && p.heard == Wrap(at)
    ensures !Stale(Wrap(at + next), p, seed)
  {
    HeldAtLeast(gap, burst);
    if |burst| <= 7 && gap < 600 {
      DecayedFalls(gap, |burst|, 7);
      SevenDecays(gap);
    } else {
      DecayedFalls(gap, |burst|, 8);
      EightDecays(gap);
    }
    ElapsedTrue(at, at + next);
  }

  lemma {:induction false} ZeroGaps(gap: U32, n: nat)
    ensures BlendAll(gap, Zeros(n)) == Decayed(gap, n)
  {
    if n > 0 {
      ZeroGaps(gap, n - 1);
      assert Zeros(n)[..n - 1] == Zeros(n - 1);
    }
  }

  function Zeros(n: nat): (z: seq<U32>)
    ensures |z| == n && forall i :: 0 <= i < n ==> z[i] == 0
  {
    seq(n, _ => 0)
  }

  /** Nine further OGMs at once are one too many, for every gap: after them a round of
      twice the gap reads as a dead path. */
  lemma NineGapsLosePath(p: Path, gap: U32, seed: U32, at: nat)
    requires 0 < gap && 2 * gap < HALF && p.interval == BlendAll(gap, Zeros(9)) && p.interval > 0 && p.heard == Wrap(at)
    ensures Stale(Wrap(at + 2 * gap), p, seed)
  {
    ZeroGaps(gap, 9);
    NineDecays(gap);
    ElapsedTrue(at, at + 2 * gap);
  }

  // ------------------------------------------------------------------ the table

  /** What is kept of a table to make room: all of it, or all but the record not
      heard for longest. */
  ghost predicate Room(table: map<Mac, Record>, kept: map<Mac, Record>, capacity: nat, now: U32)
  {
    if |table| < capacity then kept == table
    else exists victim: Mac :: victim in table && kept == table - {victim} && LongestSilent(table, now, victim)
  }

  ghost predicate LongestSilent(table: map<Mac, Record>, now: U32, victim: Mac)
    requires victim in table
  {
    forall m :: m in table ==> ElapsedSince(now, table[m].heard) <= ElapsedSince(now, table[victim].heard)
  }

  /** Fold an OGM into its originator's record. */
  method Absorb(r: Record, known: bool, o: Ogm, relay: Relay, now: U32) returns (record: Record, verdict: Admission)
    ensures (record, verdict) == Learn(r, known, o, relay, now)
  {
    record, verdict := r, Advanced;
    if known {
      var (track, v) := Admit(OGM, record.track, o.seqno, now);
      record, verdict := record.(track := track), v;
    } else {
      record := record.(track := Track(o.seqno, None));
    }
    if verdict.Stale() {
      return;
    }
    if verdict.Current() {
      record := record.(heard := now);
    }
    var tq := Attenuated(o.tq, relay.quality);
    record := record.(paths := LearnPath(record.paths, relay.src, tq, o.seqno, now));
    if record.best == Some(relay.src) {
      record := if relay.proven then record.(maxTq := tq) else record.(best := None, maxTq := 0);
    } else if relay.proven && (record.best.None? || tq > record.maxTq) {
      record := record.(best := Some(relay.src), maxTq := tq);
    }
  }

  /** The purge of every record but those in `rest`. */
  ghost predicate Purging(table: map<Mac, Record>, rest: set<Mac>, after: map<Mac, Record>, lost: bool,
                          now: U32, seed: U32, selectable: Mac -> bool)
  {
    && (forall m :: m in after <==> m in table && m !in rest && Live(table[m].paths, now, seed) != [])
    && (forall m :: m in after ==>
          Purged(table[m], after[m], now, seed, selectable) && SelectedKnown(after[m]) && Sane(after[m]))
    && (lost <==> exists m :: m in table && m !in rest && Shrinks(table[m], now, seed))
  }

  lemma PurgeMore(table: map<Mac, Record>, rest: set<Mac>, after: map<Mac, Record>, lost: bool, now: U32, seed: U32,
                  selectable: Mac -> bool, m: Mac, s: Record)
    requires Purging(table, rest, after, lost, now, seed, selectable) && m in rest && m in table
    requires Purged(table[m], s, now, seed, selectable) && SelectedKnown(s) && Sane(s)
    ensures Purging(table, rest - {m}, if s.paths != [] then after[m := s] else after,
                    lost || |s.paths| != |table[m].paths| || s.paths == [], now, seed, selectable)
  {
    assert Shrinks(table[m], now, seed) <==> |s.paths| != |table[m].paths| || s.paths == [];
  }

  /** The OGM's number advances the table: its originator is unknown, or the number is
      ahead of its mark. */
  predicate News(table: map<Mac, Record>, o: Ogm, now: U32)
  {
    o.orig in table ==> Admit(OGM, table[o.orig].track, o.seqno, now).1.Advances()
  }

  /** What receiving an OGM does to the table. */
  ghost predicate Hears(self: Mac, capacity: nat, table: map<Mac, Record>, o: Ogm, relay: Relay, echo: bool, now: U32,
                        after: map<Mac, Record>)
  {
    if o.orig == self || echo then after == table
    else if o.orig in table then after == table[o.orig := Learn(table[o.orig], true, o, relay, now).0]
    else exists kept :: Room(table, kept, capacity, now)
           && after == kept[o.orig := Learn(Fresh(now), false, o, relay, now).0]
  }

  /** `p` is `o` as it is sent on: one hop less, and no better than a hop later over the
      link it came by. */
  predicate SentOn(o: Ogm, relay: Relay, p: Ogm)
  {
    && p.orig == o.orig && p.seqno == o.seqno && o.ttl > 1 && p.ttl == o.ttl - 1
    && Believed(o.tq, relay.quality, p.tq)
  }

  class Engine {
    const self: Mac
    const capacity: nat
    var table: map<Mac, Record>
    var topologyChanged: bool
    var resyncs: U32
    var suppressed: U32

    ghost predicate Valid()
      reads this
    {
      && capacity > 0 && |table| <= capacity && self !in table
      && forall m :: m in table ==> Sane(table[m])
    }

    constructor (self: Mac, capacity: nat)
      requires capacity > 0
      ensures Valid() && table == map[] && this.self == self && this.capacity == capacity
    {
      this.self, this.capacity := self, capacity;
      table, topologyChanged, resyncs, suppressed := map[], false, 0, 0;
    }

    method LongestUnheard(now: U32) returns (victim: Mac)
      requires table != map[]
      ensures victim in table && LongestSilent(table, now, victim)
    {
      var rest := table.Keys;
      victim :| victim in rest;
      while rest != {}
        invariant rest <= table.Keys && victim in table
        invariant forall m :: m in table.Keys - rest ==>
                    ElapsedSince(now, table[m].heard) <= ElapsedSince(now, table[victim].heard)
        decreases rest
      {
        var m :| m in rest;
        if ElapsedSince(now, table[victim].heard) <= ElapsedSince(now, table[m].heard) {
          victim := m;
        }
        rest := rest - {m};
      }
    }

    /** Start a record for `orig`, evicting the longest unheard one if the table
        is full. */
    method MakeRoom(orig: Mac, now: U32) returns (ghost kept: map<Mac, Record>)
      requires Valid() && orig != self && orig !in table
      modifies this`table
      ensures Valid()
      ensures Room(old(table), kept, capacity, now) && table == kept[orig := Fresh(now)]
    {
      if |table| >= capacity {
        var victim := LongestUnheard(now);
        RemoveSize(table, victim);
        table := table - {victim};
      }
      kept := table;
      PutSize(table, orig, Fresh(now));
      table := table[orig := Fresh(now)];
    }

    /** Receive an OGM. `echo` says the sender's stamp names this node as the one
        it heard the OGM from. */
    method HandleOgm(o: Ogm, relay: Relay, echo: bool, now: U32)
      returns (out: Option<Ogm>, reset: bool, ghost kept: map<Mac, Record>)
      requires Valid()
      modifies this
      ensures Valid()
      ensures Hears(self, capacity, old(table), o, relay, echo, now, table)
      ensures out.Some? <==> o.orig != self && !echo && News(old(table), o, now) && o.ttl > 1
      ensures out.Some? ==> SentOn(o, relay, out.value)
      ensures o.orig == self || echo ==>
                out.None? && !reset && table == old(table) && topologyChanged == old(topologyChanged)
                && resyncs == old(resyncs) && suppressed == old(suppressed)
      ensures o.orig != self && !echo ==>
                !topologyChanged && (reset <==> old(topologyChanged) || o.orig !in old(table))
      ensures o.orig != self && !echo && o.orig in old(table) ==>
                var learnt := Learn(old(table)[o.orig], true, o, relay, now);
                && table == old(table)[o.orig := learnt.0]
                && resyncs == (if learnt.1.Resynchronised? then Saturating(old(resyncs)) else old(resyncs))
                && suppressed == (if learnt.1.Watching? && o.ttl > 1 then Saturating(old(suppressed))
                                  else old(suppressed))
      ensures o.orig != self && !echo && o.orig !in old(table) ==>
                var learnt := Learn(Fresh(now), false, o, relay, now);
                && table == kept[o.orig := learnt.0]
                && Room(old(table), kept, capacity, now)
                && resyncs == old(resyncs) && suppressed == old(suppressed)
    {
      kept := table;
      if o.orig == self || echo {
        return None, false, kept;
      }
      if o.orig in table {
        out := Refresh(o, relay, now);
      } else {
        out, kept := Discover(o, relay, now);
      }
      reset := ApplyTopologyChange();
    }

    /** Take a latched change back; `reset` says the announcement timers restart. */
    method ApplyTopologyChange() returns (reset: bool)
      modifies this`topologyChanged
      ensures reset == old(topologyChanged) && !topologyChanged
    {
      reset := topologyChanged;
      topologyChanged := false;
    }

    /** The periodic purge: every record keeps its live paths and selects among them,
        a record left without one goes, and any loss is latched. */
    method PurgeStale(now: U32, seed: U32, selectable: Mac -> bool)
      requires Valid()
      modifies this`table, this`topologyChanged
      ensures Valid()
      ensures forall m :: m in table <==> m in old(table) && Live(old(table)[m].paths, now, seed) != []
      ensures forall m :: m in table ==>
                Purged(old(table)[m], table[m], now, seed, selectable) && SelectedKnown(table[m])
      ensures topologyChanged <==>
                old(topologyChanged) || exists m :: m in old(table) && Shrinks(old(table)[m], now, seed)
    {
      var rest, after, lost := table.Keys, map[], false;
      while rest != {}
        invariant rest <= table.Keys && table == old(table) && topologyChanged == old(topologyChanged)
        invariant Purging(table, rest, after, lost, now, seed, selectable)
        decreases rest
      {
        var m :| m in rest;
        var s := Purge(table[m], now, seed, selectable);
        PurgeMore(table, rest, after, lost, now, seed, selectable, m, s);
        if |s.paths| != |table[m].paths| || s.paths == [] {
          lost := true;
        }
        if s.paths != [] {
          after := after[m := s];
        }
        rest := rest - {m};
      }
      SubmapSize(after, table);
      table := after;
      topologyChanged := topologyChanged || lost;
    }

    /** First contact: the record starts from this OGM. */
    method Discover(o: Ogm, relay: Relay, now: U32) returns (out: Option<Ogm>, ghost kept: map<Mac, Record>)
      requires Valid() && o.orig != self && o.orig !in table
      modifies this`table, this`topologyChanged
      ensures Valid() && topologyChanged
      ensures Room(old(table), kept, capacity, now)
      ensures table == kept[o.orig := Learn(Fresh(now), false, o, relay, now).0]
      ensures out == Reflood(Learn(Fresh(now), false, o, relay, now).1, o, relay)
    {
      kept := MakeRoom(o.orig, now);
      var verdict := Update(false, o, relay, now);
      Overwrite(kept, o.orig, Fresh(now), table[o.orig]);
      topologyChanged := true;
      out := Reflood(verdict, o, relay);
    }

    method Refresh(o: Ogm, relay: Relay, now: U32) returns (out: Option<Ogm>)
      requires Valid() && o.orig in table
      modifies this`table, this`resyncs, this`suppressed
      ensures Valid()
      ensures table == old(table)[o.orig := Learn(old(table)[o.orig], true, o, relay, now).0]
      ensures out == Reflood(Learn(old(table)[o.orig], true, o, relay, now).1, o, relay)
      ensures resyncs == CountIf(Learn(old(table)[o.orig], true, o, relay, now).1.Resynchronised?, old(resyncs))
      ensures suppressed
           == CountIf(Learn(old(table)[o.orig], true, o, relay, now).1.Watching? && o.ttl > 1, old(suppressed))
    {
      var verdict := Update(true, o, relay, now);
      if verdict.Resynchronised? {
        resyncs := Saturating(resyncs);
      }
      if verdict.Watching? && o.ttl > 1 {
        suppressed := Saturating(suppressed);
      }
      out := Reflood(verdict, o, relay);
    }

    /** Replace the originator's record by what the OGM makes of it. */
    method Update(known: bool, o: Ogm, relay: Relay, now: U32) returns (verdict: Admission)
      requires Valid() && o.orig in table
      modifies this`table
      ensures Valid()
      ensures table == old(table)[o.orig := Learn(old(table)[o.orig], known, o, relay, now).0]
      ensures verdict == Learn(old(table)[o.orig], known, o, relay, now).1
    {
      ghost var before := table;
      LearnKeepsSane(table[o.orig], known, o, relay, now);
      var record, v := Absorb(table[o.orig], known, o, relay, now);
      verdict := v;
      table := table[o.orig := record];
      assert table.Keys == before.Keys;
      SameSize(before, table);
    }
  }

  lemma Overwrite<V>(m: map<Mac, V>, k: Mac, a: V, b: V)
    ensures m[k := a][k := b] == m[k := b]
  {
  }

  function CountIf(happened: bool, n: U32): U32
  {
    if happened then Saturating(n) else n
  }
}
