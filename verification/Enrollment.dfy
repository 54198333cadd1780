// `wayfinderctl auth enroll` (bins/wayfinder-ctl/src/auth.rs): a node's seed,
// certificate and trust anchor on disk, an attempt that may stop after any of its
// steps, and the provider it asks.
module Enrollment {
  import opened Wrappers
  import opened Identifiers
  import opened Credentials
  import opened Authority
  import opened AuthorityRuns
  import opened AuthorityStore

  /** The three files an enrollment is told to write. */
  datatype Disk = Disk(seed: Option<Bytes>, cert: Option<Cert>, anchor: Option<Anchor>)

  /** How far the running attempt has got; `Idle` between attempts. */
  datatype Phase =
    | Idle
    | Seeded(mac: Option<string>, token: string)
    | Checked(token: string)
    | Collected(cert: Cert, anchor: Anchor)
    | CertWritten(cert: Cert, anchor: Anchor)

  /** `asked` logs every request sent, for the claims below. */
  datatype World = World(disk: Disk, phase: Phase, ca: Ca, asked: seq<Csr>)

  /** One step of the attempt, a crash, or anything the provider does meanwhile. */
  datatype Event =
    | Begin(mac: Option<string>, token: string, random: Bytes)
    | CheckMac
    | Ask
    | WriteCert
    | WriteAnchor
    | Crash
    | Provider(step: Step)

  function RequestOf(s: Scheme, seed: Bytes, token: string): Csr
  {
    Csr(s.macOf(s.edOf(seed)), s.edOf(seed), s.xOf(seed), token)
  }

  /** `--mac` is absent, or names the address the identity derives. */
  predicate MacAgrees(s: Scheme, seed: Bytes, mac: Option<string>)
  {
    mac.None? || ParseMac6(mac.value) == Some(s.macOf(s.edOf(seed)))
  }

  function Began(w: World, mac: Option<string>, token: string, random: Bytes): World
  {
    match w.disk.seed
    case None => w.(disk := w.disk.(seed := Some(random)), phase := Seeded(mac, token))
    case Some(seed) => if |seed| == 32 then w.(phase := Seeded(mac, token)) else w
  }

  function Asked(c: Config, w: World, csr: Csr): World
  {
    var answer := Submit(c, w.ca, csr);
    var next := w.(ca := answer.ca, asked := w.asked + [csr]);
    if answer.reply.Ok? && answer.reply.value.Issued?
    then next.(phase := Collected(answer.reply.value.cert, answer.reply.value.anchor))
    else next.(phase := Idle)
  }

  /** What an event does; one the attempt is not ready for does nothing. */
  function Move(c: Config, w: World, e: Event): World
  {
    match e
    case Begin(mac, token, random) => if w.phase == Idle then Began(w, mac, token, random) else w
    case CheckMac =>
      if w.phase.Seeded? && w.disk.seed.Some? then
        if MacAgrees(c.scheme, w.disk.seed.value, w.phase.mac) then w.(phase := Checked(w.phase.token))
        else w.(phase := Idle)
      else w
    case Ask =>
      if w.phase.Checked? && w.disk.seed.Some?
      then Asked(c, w, RequestOf(c.scheme, w.disk.seed.value, w.phase.token)) else w
    case WriteCert =>
      if w.phase.Collected?
      then w.(disk := w.disk.(cert := Some(w.phase.cert)), phase := CertWritten(w.phase.cert, w.phase.anchor)) else w
    case WriteAnchor =>
      if w.phase.CertWritten? then w.(disk := w.disk.(anchor := Some(w.phase.anchor)), phase := Idle) else w
    case Crash => w.(phase := Idle)
    case Provider(step) => w.(ca := Next(c, w.ca, step))
  }

  function Moves(c: Config, w: World, events: seq<Event>): World
  {
    if events == [] then w else Move(c, Moves(c, w, Front(events)), Last(events))
  }

  // --------------------------------------------------------------- what is kept

  /** A certificate of this authority for the keys and address of `seed`. */
  predicate CertFor(c: Config, seed: Bytes, cert: Cert)
  {
    SoundCert(c, cert) && cert.body.ed == c.scheme.edOf(seed) && cert.body.x == c.scheme.xOf(seed)
  }

  ghost predicate Consistent(c: Config, w: World)
  {
    Inv(c, w.ca) && Filed(c, w.disk, w.phase, w.asked)
  }

  /** What is on disk, in the attempt's hands and in the log belongs together. */
  ghost predicate Filed(c: Config, disk: Disk, phase: Phase, asked: seq<Csr>)
  {
    && (phase != Idle ==> disk.seed.Some? && |disk.seed.value| == 32)
    && (forall i :: 0 <= i < |asked| ==>
          disk.seed.Some? && asked[i] == RequestOf(c.scheme, disk.seed.value, asked[i].token))
    && (disk.cert.Some? ==> disk.seed.Some? && CertFor(c, disk.seed.value, disk.cert.value))
    && (disk.anchor.Some? ==> disk.cert.Some? && disk.anchor == Some(OurAnchor(c)))
    && (phase.Collected? || phase.CertWritten? ==>
          CertFor(c, disk.seed.value, phase.cert) && phase.anchor == OurAnchor(c))
    && (phase.CertWritten? ==> disk.cert == Some(phase.cert))
  }

  lemma IssuedForAsker(c: Config, ca: Ca, csr: Csr)
    requires Inv(c, ca)
    ensures var r := Submit(c, ca, csr).reply;
            r.Ok? && r.value.Issued? ==>
              SoundCert(c, r.value.cert) && r.value.cert.body.ed == csr.ed && r.value.cert.body.x == csr.x
              && r.value.anchor == OurAnchor(c)
  {
    if WellFormed(c.scheme, csr.mac, csr.ed, csr.x) && csr.mac == c.scheme.macOf(csr.ed) {
      EvictKeeps(c, ca);
      DecideKeeps(c, Evict(c, ca), csr);
    }
  }

  lemma AskKeeps(c: Config, w: World)
    requires Consistent(c, w)
    ensures Consistent(c, Move(c, w, Ask))
  {
    if w.phase.Checked? {
      var csr := RequestOf(c.scheme, w.disk.seed.value, w.phase.token);
      SubmitKeeps(c, w.ca, csr);
      IssuedForAsker(c, w.ca, csr);
    }
  }

  lemma LocalKeeps(c: Config, w: World, e: Event)
    requires Consistent(c, w) && !e.Ask? && !e.Provider? && (e.Begin? ==> |e.random| == 32)
    ensures Consistent(c, Move(c, w, e))
  {
  }

  lemma MoveKeeps(c: Config, w: World, e: Event)
    requires Consistent(c, w) && (e.Begin? ==> |e.random| == 32)
    ensures Consistent(c, Move(c, w, e))
    ensures w.disk.seed.Some? ==> Move(c, w, e).disk.seed == w.disk.seed
    ensures w.asked <= Move(c, w, e).asked
  {
    if e.Ask? {
      AskKeeps(c, w);
    } else if e.Provider? {
      StepKeeps(c, w.ca, e.step);
    } else {
      LocalKeeps(c, w, e);
    }
  }

  predicate FreshSeeds(events: seq<Event>)
  {
    forall e :: e in events && e.Begin? ==> |e.random| == 32
  }

  /** Over every run of attempts, crashes, retries and provider acts: a seed on disk
      never changes, every request sent is that seed's own, and a certificate or
      anchor on disk is the provider's for that seed. */
  lemma {:induction false} EveryRunConsistent(c: Config, w: World, events: seq<Event>)
    requires Consistent(c, w) && FreshSeeds(events)
    ensures Consistent(c, Moves(c, w, events))
    ensures w.disk.seed.Some? ==> Moves(c, w, events).disk.seed == w.disk.seed
  {
    if events != [] {
      EveryRunConsistent(c, w, Front(events));
      MoveKeeps(c, Moves(c, w, Front(events)), Last(events));
    }
  }

  /** Any two requests ever sent differ at most in the token. */
  lemma SameRequest(c: Config, w: World, events: seq<Event>, i: nat, j: nat)
    requires Consistent(c, w) && FreshSeeds(events)
    requires i < |Moves(c, w, events).asked| && j < |Moves(c, w, events).asked|
    ensures var asked := Moves(c, w, events).asked; asked[i].(token := asked[j].token) == asked[j]
  {
    EveryRunConsistent(c, w, events);
  }

  // ------------------------------------------------------ what a refusal leaves

  /** The event writes a file: a certificate just collected, or the anchor after it. */
  predicate Writes(w: World, e: Event)
  {
    (e.WriteCert? && w.phase.Collected?) || (e.WriteAnchor? && w.phase.CertWritten?)
  }

  /** A certificate is collected only from an issued reply, is written as it was
      collected, and nothing else touches the certificate or the anchor. */
  lemma OnlyCollectedWritten(c: Config, w: World, e: Event)
    ensures var after := Move(c, w, e);
            && (!Writes(w, e) ==> after.disk.cert == w.disk.cert && after.disk.anchor == w.disk.anchor)
            && (Writes(w, e) && e.WriteCert? ==> after.disk == w.disk.(cert := Some(w.phase.cert)))
            && (Writes(w, e) && e.WriteAnchor? ==> after.disk == w.disk.(anchor := Some(w.phase.anchor)))
            && (after.phase.Collected? && !w.phase.Collected? ==>
                  e.Ask? && w.phase.Checked? && w.disk.seed.Some? &&
                  Submit(c, w.ca, RequestOf(c.scheme, w.disk.seed.value, w.phase.token)).reply ==
                  Ok(Issued(after.phase.cert, after.phase.anchor)))
  {
  }

  predicate NothingWritten(c: Config, w: World, events: seq<Event>)
  {
    events == [] ||
    (NothingWritten(c, w, Front(events)) && !Writes(Moves(c, w, Front(events)), Last(events)))
  }

  /** The certificate and the anchor on disk change only at a write taken with a collected
      reply: however often an attempt is pending, rejected or interrupted, even between
      an issued reply and its write, they stay as they were. */
  lemma {:induction false} UnwrittenStays(c: Config, w: World, events: seq<Event>)
    requires NothingWritten(c, w, events)
    ensures var after := Moves(c, w, events);
            after.disk.cert == w.disk.cert && after.disk.anchor == w.disk.anchor
  {
    if events != [] {
      UnwrittenStays(c, w, Front(events));
      OnlyCollectedWritten(c, Moves(c, w, Front(events)), Last(events));
    }
  }

  /** No request of the run is answered with a certificate. */
  predicate NothingIssued(c: Config, w: World, events: seq<Event>)
  {
    events == [] || (NothingIssued(c, w, Front(events)) && !Moves(c, w, events).phase.Collected?)
  }

  /** In particular a run of pending and rejected attempts writes nothing. */
  lemma {:induction false} RefusedWritesNothing(c: Config, w: World, events: seq<Event>)
    requires !w.phase.Collected? && !w.phase.CertWritten? && NothingIssued(c, w, events)
    ensures NothingWritten(c, w, events) && !Moves(c, w, events).phase.CertWritten?
    ensures var after := Moves(c, w, events);
            after.disk.cert == w.disk.cert && after.disk.anchor == w.disk.anchor
  {
    if events != [] {
      RefusedWritesNothing(c, w, Front(events));
      assert !Moves(c, w, Front(events)).phase.Collected?;
    }
    UnwrittenStays(c, w, events);
  }

  /** Whenever both files are there they verify as a pair, at every instant of the
      certificate's window, and whichever attempt wrote each of them. */
  lemma {:induction false} PairVerifies(c: Config, w: World, events: seq<Event>, t: nat)
    requires c.scheme.Sound() && Consistent(c, w) && FreshSeeds(events)
    requires Moves(c, w, events).disk.anchor.Some?
    ensures var d := Moves(c, w, events).disk;
            d.seed.Some? && d.cert.Some? && CertFor(c, d.seed.value, d.cert.value)
            && (Verify(c.scheme, d.anchor.value, d.cert.value, At(t)) == None <==>
                d.cert.value.body.notBefore <= t <= d.cert.value.body.notAfter)
  {
    EveryRunConsistent(c, w, events);
    GenuineVerifies(c.scheme, c.root, c.meshId, Moves(c, w, events).disk.cert.value, At(t));
  }

  // ------------------------------------------------------------- a whole attempt

  /** An attempt that is not interrupted. */
  function Attempt(mac: Option<string>, token: string, random: Bytes): seq<Event>
  {
    [Begin(mac, token, random), CheckMac, Ask, WriteCert, WriteAnchor]
  }

  lemma MovesThen(c: Config, w: World, events: seq<Event>, e: Event)
    ensures Moves(c, w, events + [e]) == Move(c, Moves(c, w, events), e)
  {
    assert Front(events + [e]) == events;
  }

  lemma AttemptUnfolds(c: Config, w: World, mac: Option<string>, token: string, random: Bytes)
    ensures Moves(c, w, Attempt(mac, token, random)) ==
            var asked := Move(c, Move(c, Move(c, w, Begin(mac, token, random)), CheckMac), Ask);
            Move(c, Move(c, asked, WriteCert), WriteAnchor)
  {
    var b := Begin(mac, token, random);
    MovesThen(c, w, [], b);
    MovesThen(c, w, [b], CheckMac);
    MovesThen(c, w, [b, CheckMac], Ask);
    MovesThen(c, w, [b, CheckMac, Ask], WriteCert);
    MovesThen(c, w, [b, CheckMac, Ask, WriteCert], WriteAnchor);
    assert [] + [b] == [b] && [b] + [CheckMac] == [b, CheckMac];
    assert [b, CheckMac] + [Ask] == [b, CheckMac, Ask];
    assert [b, CheckMac, Ask] + [WriteCert] == [b, CheckMac, Ask, WriteCert];
    assert [b, CheckMac, Ask, WriteCert] + [WriteAnchor] == Attempt(mac, token, random);
  }

  /** What an attempt over a usable seed comes to. */
  lemma AttemptWith(c: Config, w: World, seed: Bytes, mac: Option<string>, token: string, random: Bytes)
    requires w.phase == Idle && w.disk.seed == Some(seed) && |seed| == 32
    ensures var after := Moves(c, w, Attempt(mac, token, random));
            var csr := RequestOf(c.scheme, seed, token);
            var answer := Submit(c, w.ca, csr);
            after.phase == Idle &&
            if !MacAgrees(c.scheme, seed, mac) then after == w
            else
              after.ca == answer.ca && after.asked == w.asked + [csr] &&
              after.disk == if answer.reply.Ok? && answer.reply.value.Issued?
                            then Disk(Some(seed), Some(answer.reply.value.cert), Some(answer.reply.value.anchor))
                            else w.disk
  {
    AttemptUnfolds(c, w, mac, token, random);
  }

  /** Naming another address than the seed's stops the attempt before it asks; naming the
      seed's own changes nothing; and a spelling that is no address stops it too. */
  lemma NamedAddress(c: Config, w: World, seed: Bytes, m: Bytes, text: string, token: string, random: Bytes)
    requires w.phase == Idle && w.disk.seed == Some(seed) && |seed| == 32 && |m| == 6
    ensures Moves(c, w, Attempt(Some(Colons(m)), token, random)) ==
            if m == c.scheme.macOf(c.scheme.edOf(seed)) then Moves(c, w, Attempt(None, token, random)) else w
    ensures ParseId(text).None? || |ParseId(text).value| != 6 ==>
              Moves(c, w, Attempt(Some(text), token, random)) == w
  {
    ParseUndoesColons(m);
    AttemptUnfolds(c, w, Some(Colons(m)), token, random);
    AttemptUnfolds(c, w, None, token, random);
    AttemptWith(c, w, seed, Some(text), token, random);
  }

  /** With no seed on disk the drawn one is written first; a file that is no seed
      stops the attempt before it asks anything. */
  lemma AttemptWithout(c: Config, w: World, mac: Option<string>, token: string, random: Bytes)
    requires w.phase == Idle && |random| == 32
    ensures var all := Attempt(mac, token, random);
            match w.disk.seed
            case None => Moves(c, w, all) == Moves(c, w.(disk := w.disk.(seed := Some(random))), all)
            case Some(seed) => |seed| != 32 ==> Moves(c, w, all) == w
  {
    AttemptUnfolds(c, w, mac, token, random);
    AttemptUnfolds(c, w.(disk := w.disk.(seed := Some(random))), mac, token, random);
  }

  /** A parked request is in the queue under the asker's keys. */
  lemma ParkedWaits(c: Config, ca: Ca, csr: Csr)
    requires Submit(c, ca, csr).reply == Ok(Parked)
    ensures var after := Submit(c, ca, csr).ca;
            Waiting(after, csr.mac) && after.held[csr.mac].ed == csr.ed && after.held[csr.mac].x == csr.x
  {
  }

  /** From `parked`, the request of `mac` waits through `waiting`, is approved for `life`
      seconds, and is left alone through `steps`, which leads to `later`. */
  predicate Granted(c: Config, parked: Ca, mac: Bytes, waiting: seq<Step>, ttl: Option<nat>, life: nat,
                    steps: seq<Step>, later: Ca)
  {
    var reviewed := Run(c, parked, waiting);
    var approved := ApproveCsr(c, reviewed, mac, ttl).ca;
    && mac in parked.held && LeftWaiting(c, parked, waiting, mac, parked.held[mac])
    && reviewed.now > 0 && LifetimeFor(c, reviewed, ttl) == Some(life)
    && Undisturbed(c, approved, steps, mac, life) && later == Run(c, approved, steps)
  }

  /** The whole story: a request is parked; it waits, whatever else happens; an
      operator approves it; time passes inside the certificate's window; and the
      next uninterrupted attempt leaves the seed, a certificate of the approved
      lifetime and the anchor on disk, which verify together at that instant. */
  lemma {:induction false} EnrollmentCompletes(
    c: Config, w: World, seed: Bytes, token: string, waiting: seq<Step>, ttl: Option<nat>, life: nat, steps: seq<Step>,
    again: World, random: Bytes)
    requires c.scheme.Sound() && Consistent(c, w)
    requires w.disk.seed == Some(seed) && |seed| == 32
    requires Submit(c, w.ca, RequestOf(c.scheme, seed, token)).reply == Ok(Parked)
    requires Granted(c, Submit(c, w.ca, RequestOf(c.scheme, seed, token)).ca, RequestOf(c.scheme, seed, token).mac,
                     waiting, ttl, life, steps, again.ca)
    requires again.disk.seed == Some(seed) && again.phase == Idle
    requires again.ca.now > 0 && TokenFits(again.ca.policy, token)
    ensures var d := Moves(c, again, Attempt(None, token, random)).disk;
            var cert := DeviceCert(c, again.ca.now, c.scheme.macOf(c.scheme.edOf(seed)), c.scheme.edOf(seed),
                                   c.scheme.xOf(seed), life);
            d == Disk(Some(seed), Some(cert), Some(OurAnchor(c)))
            && cert.body.notAfter == Saturated(again.ca.now + life)
            && Verify(c.scheme, OurAnchor(c), cert, At(again.ca.now)) == None
  {
    var csr := RequestOf(c.scheme, seed, token);
    var parked := Submit(c, w.ca, csr).ca;
    ParkedWaits(c, w.ca, csr);
    SubmitKeeps(c, w.ca, csr);
    var h := parked.held[csr.mac];
    var reviewed := Run(c, parked, waiting);
    EveryRunSound(c, parked, waiting, Sweep);
    ReviewedIsSigned(c, parked, waiting, csr.mac, ttl);
    WaitingRun(c, parked, waiting, csr.mac, h);
    assert Evict(c, reviewed).held[csr.mac] == h;
    ApprovalCollected(c, reviewed, csr.mac, ttl, life, steps, csr);
    AttemptWith(c, again, seed, None, token, random);
  }

  /** So a fresh node does enroll: its first attempt is parked and writes nothing,
      the operator's approval succeeds, and its second attempt completes. */
  lemma {:induction false} FreshNodeEnrolls(c: Config, ca: Ca, seed: Bytes, token: string, ttl: Option<nat>, life: nat,
                                            random: Bytes)
    requires c.scheme.Sound() && |seed| == 32 && !c.scheme.lowOrder(c.scheme.xOf(seed))
    requires Authority.Fresh(ca) && ca.now > 0 && !ca.policy.autoApprove && TokenFits(ca.policy, token)
    requires LifetimeFor(c, ca, ttl) == Some(life)
    ensures var mac := c.scheme.macOf(c.scheme.edOf(seed));
            var w := World(Disk(Some(seed), None, None), Idle, ca, []);
            var first := Moves(c, w, Attempt(None, token, random));
            var act := ApproveCsr(c, first.ca, mac, ttl);
            var second := Moves(c, first.(ca := act.ca), Attempt(None, token, random));
            var cert := DeviceCert(c, ca.now, mac, c.scheme.edOf(seed), c.scheme.xOf(seed), life);
            && first.disk == w.disk && act.result == Ok(())
            && second.disk == Disk(Some(seed), Some(cert), Some(OurAnchor(c)))
  {
    var csr := RequestOf(c.scheme, seed, token);
    var w := World(Disk(Some(seed), None, None), Idle, ca, []);
    assert |csr.mac| == 6 && |csr.ed| == 32 && |csr.x| == 32;
    assert Evict(c, ca) == ca;
    var parked := Submit(c, ca, csr).ca;
    assert parked == ca.(held := map[csr.mac := Held(csr.ed, csr.x, ca.now, Pending)]);
    AttemptWith(c, w, seed, None, token, random);
    var again := Moves(c, w, Attempt(None, token, random)).(ca := ApproveCsr(c, parked, csr.mac, ttl).ca);
    assert !TimedOut(c, ca.now, parked.held[csr.mac]);
    EnrollmentCompletes(c, w, seed, token, [], ttl, life, [], again, random);
  }

  // --------------------------------------------------------------- the command

  datatype EnrollError = BadSeed | WrongMac | NotIssued

  /** The machine the command runs on. */
  class Machine {
    var seed: Option<Bytes>
    var cert: Option<Cert>
    var anchor: Option<Anchor>

    constructor ()
      ensures seed == None && cert == None && anchor == None
    {
      seed, cert, anchor := None, None, None;
    }

    ghost function OnDisk(): Disk
      reads this
    {
      Disk(seed, cert, anchor)
    }

    /** An uninterrupted run of the command: `Attempt`, step by step. */
    method Enroll(provider: CertAuthority, mac: Option<string>, token: string, random: Bytes)
      returns (r: Result<(), EnrollError>)
      requires provider.Valid() && |random| == 32
      modifies this, provider`held, provider`issued, provider`ca
      ensures provider.Valid()
      ensures var before := World(old(OnDisk()), Idle, old(provider.ca), []);
              var after := Moves(provider.config, before, Attempt(mac, token, random));
              OnDisk() == after.disk && provider.ca == after.ca
      ensures r.Ok? ==> cert.Some? && anchor.Some?
      ensures r.Err? ==> cert == old(cert) && anchor == old(anchor)
      ensures r == Err(BadSeed) <==> old(seed).Some? && |old(seed).value| != 32
      ensures seed == if old(seed).Some? then old(seed) else Some(random)
      ensures mac.None? ==> r != Err(WrongMac)
      ensures forall m: Bytes :: |m| == 6 && mac == Some(Colons(m)) && r != Err(BadSeed) ==>
                (r == Err(WrongMac) <==> m != provider.config.scheme.macOf(provider.config.scheme.edOf(seed.value)))
      ensures mac.Some? && r != Err(BadSeed) && (ParseId(mac.value).None? || |ParseId(mac.value).value| != 6) ==>
                r == Err(WrongMac)
      ensures r == Err(WrongMac) ==> provider.ca == old(provider.ca)
    {
      forall m: Bytes | |m| == 6 ensures ParseMac6(Colons(m)) == Some(m) {
        ParseUndoesColons(m);
      }
      ghost var before := World(OnDisk(), Idle, provider.ca, []);
      AttemptWithout(provider.config, before, mac, token, random);
      if seed.None? {
        seed := Some(random);
      } else if |seed.value| != 32 {
        return Err(BadSeed);
      }
      AttemptWith(provider.config, World(OnDisk(), Idle, provider.ca, []), seed.value, mac, token, random);
      var scheme := provider.config.scheme;
      var csr := RequestOf(scheme, seed.value, token);
      if mac.Some? {
        var named := ParseMac6(mac.value);
        if named.None? || named.value != csr.mac {
          return Err(WrongMac);
        }
      }
      var reply := provider.SubmitCsr(csr);
      if reply.Err? || !reply.value.Issued? {
        return Err(NotIssued);
      }
      cert := Some(reply.value.cert);
      anchor := Some(reply.value.anchor);
      return Ok(());
    }
  }
}
