// The certificate authority a provider runs (libs/wayfinder-server/src/
// authority.rs): the queue of held requests, the log of issued certificates, and
// what every request and every operator's act does to them.
module Authority {
  import opened Wrappers
  import opened Identifiers
  import opened Credentials
  import Finite

  const MAX_HELD := 128

  const MAX_CERT_TTL: nat := 10 * 365 * 86_400

  datatype Status = Pending | Approved(cert: Cert) | Denied

  /** A held request, keyed by its address. */
  datatype Held = Held(ed: Bytes, x: Bytes, since: nat, status: Status)

  /** A row of the issued log, keyed by its address. */
  datatype Row = Row(ed: Bytes, notBefore: U64, notAfter: U64, revoked: bool)

  datatype Policy = Policy(token: Option<string>, autoApprove: bool, certTtl: nat)

  /** What never changes while the authority runs. */
  datatype Config = Config(scheme: Scheme, root: Bytes, meshId: nat, pendingTtl: nat, unbounded: bool)

  /** `now` is the clock's reading, zero while there is no usable clock. */
  datatype Ca = Ca(now: U64, policy: Policy, held: map<Bytes, Held>, issued: map<Bytes, Row>)

  datatype Outcome = Issued(cert: Cert, anchor: Anchor) | Rejected | Parked

  datatype Problem = NoClock | Malformed | BadLifetime | NothingPending

  datatype Answer = Answer(ca: Ca, reply: Result<Outcome, Problem>)

  function Saturated(n: nat): U64
  {
    if n <= U64_MAX then n else U64_MAX
  }

  function Monus(a: nat, b: nat): nat
  {
    if a >= b then a - b else 0
  }

  // ------------------------------------------------------------------- the parts

  predicate TimedOut(c: Config, now: nat, h: Held)
  {
    Monus(now, h.since) > c.pendingTtl
  }

  function Unexpired(c: Config, now: nat, held: map<Bytes, Held>): map<Bytes, Held>
  {
    map m | m in held && !TimedOut(c, now, held[m]) :: held[m]
  }

  function Evict(c: Config, ca: Ca): Ca
  {
    if ca.now == 0 then ca else ca.(held := Unexpired(c, ca.now, ca.held))
  }

  /** The row of `mac`, while its certificate is inside its window. */
  function Live(ca: Ca, mac: Bytes): Option<Row>
  {
    if mac in ca.issued && ca.now <= ca.issued[mac].notAfter then Some(ca.issued[mac]) else None
  }

  function DeviceCert(c: Config, now: U64, mac: Bytes, ed: Bytes, x: Bytes, ttl: nat): Cert
  {
    SignCert(c.scheme, c.root, c.meshId, {Member}, mac, ed, x, now, Saturated(now + ttl))
  }

  function NewRow(now: U64, ed: Bytes, ttl: nat): Row
  {
    Row(ed, now, Saturated(now + ttl), false)
  }

  function OurAnchor(c: Config): Anchor
  {
    AnchorOf(c.scheme, c.root, c.meshId)
  }

  /** Sign for these keys now, and log it. */
  function Sign(c: Config, ca: Ca, mac: Bytes, ed: Bytes, x: Bytes, ttl: nat): Answer
  {
    Answer(ca.(issued := ca.issued[mac := NewRow(ca.now, ed, ttl)]),
           Ok(Issued(DeviceCert(c, ca.now, mac, ed, x, ttl), OurAnchor(c))))
  }

  predicate WellFormed(s: Scheme, mac: Bytes, ed: Bytes, x: Bytes)
  {
    |mac| == 6 && |ed| == 32 && |x| == 32 && !s.lowOrder(x)
  }

  // -------------------------------------------------------------- what callers ask

  /** What the queue says of a request no live certificate answers. */
  function Enqueue(c: Config, ca: Ca, csr: Csr): Answer
  {
    if csr.mac in ca.held then
      var h := ca.held[csr.mac];
      if h.ed != csr.ed || h.x != csr.x then Answer(ca, Ok(Rejected))
      else match h.status
           case Pending => Answer(ca, Ok(Parked))
           case Approved(cert) => Answer(ca, Ok(Issued(cert, OurAnchor(c))))
           case Denied => Answer(ca, Ok(Rejected))
    else if |ca.held| >= MAX_HELD then Answer(ca, Ok(Rejected))
    else Answer(ca.(held := ca.held[csr.mac := Held(csr.ed, csr.x, ca.now, Pending)]), Ok(Parked))
  }

  /** A request whose address is the one its key derives. */
  function Decide(c: Config, ca: Ca, csr: Csr): Answer
  {
    match Live(ca, csr.mac)
    case Some(row) =>
      if row.ed != csr.ed then Answer(ca, Ok(Rejected))
      else if !row.revoked then Sign(c, ca, csr.mac, csr.ed, csr.x, Monus(row.notAfter, row.notBefore))
      else Enqueue(c, ca, csr)
    case None =>
      if ca.policy.autoApprove then Sign(c, ca, csr.mac, csr.ed, csr.x, ca.policy.certTtl)
      else Enqueue(c, ca, csr)
  }

  predicate TokenFits(policy: Policy, token: string)
  {
    policy.token.None? || policy.token.value == token
  }

  function Submit(c: Config, ca: Ca, csr: Csr): Answer
  {
    if ca.now == 0 then Answer(ca, Err(NoClock))
    else
      var swept := Evict(c, ca);
      if !TokenFits(ca.policy, csr.token) then Answer(swept, Ok(Rejected))
      else if !WellFormed(c.scheme, csr.mac, csr.ed, csr.x) then Answer(swept, Err(Malformed))
      else if c.scheme.macOf(csr.ed) != csr.mac then Answer(swept, Ok(Rejected))
      else Decide(c, swept, csr)
  }

  /** Renewal over the mesh: the holder match and nothing else. */
  function Renew(c: Config, ca: Ca, mac: Bytes, ed: Bytes, x: Bytes): Answer
  {
    if ca.now == 0 then Answer(ca, Err(NoClock))
    else if |mac| != 6 || |ed| != 32 then Answer(ca, Err(Malformed))
    else if !WellFormed(c.scheme, mac, ed, x) || c.scheme.macOf(ed) != mac then Answer(ca, Ok(Rejected))
    else match Live(ca, mac)
         case None => Answer(ca, Ok(Rejected))
         case Some(row) =>
           if row.ed != ed || row.revoked then Answer(ca, Ok(Rejected))
           else Sign(c, ca, mac, ed, x, Monus(row.notAfter, row.notBefore))
  }

  // ------------------------------------------------------------ what operators do

  datatype Act = Act(ca: Ca, result: Result<(), Problem>)

  function LifetimeFor(c: Config, ca: Ca, ttl: Option<nat>): Option<nat>
  {
    match ttl
    case None => Some(ca.policy.certTtl)
    case Some(t) => if t == 0 || (t > MAX_CERT_TTL && !c.unbounded) then None else Some(t)
  }

  predicate Waiting(ca: Ca, mac: Bytes)
  {
    mac in ca.held && ca.held[mac].status == Pending
  }

  /** The approval itself: log the certificate and hand it to the queue, at once. */
  function Admit(c: Config, ca: Ca, mac: Bytes, ttl: nat): Ca
    requires mac in ca.held
  {
    var h := ca.held[mac];
    var cert := DeviceCert(c, ca.now, mac, h.ed, h.x, ttl);
    ca.(held := ca.held[mac := h.(status := Approved(cert), since := ca.now)],
        issued := ca.issued[mac := NewRow(ca.now, h.ed, ttl)])
  }

  function ApproveCsr(c: Config, ca: Ca, mac: Bytes, ttl: Option<nat>): Act
  {
    var life := LifetimeFor(c, ca, ttl);
    if life.None? then Act(ca, Err(BadLifetime))
    else if ca.now == 0 then Act(ca, Err(NoClock))
    else if |mac| != 6 then Act(ca, Err(Malformed))
    else
      var swept := Evict(c, ca);
      if !Waiting(swept, mac) then Act(swept, Err(NothingPending))
      else if c.scheme.macOf(swept.held[mac].ed) != mac then Act(swept, Err(Malformed))
      else if |swept.held[mac].x| != 32 || c.scheme.lowOrder(swept.held[mac].x) then Act(swept, Err(Malformed))
      else Act(Admit(c, swept, mac, life.value), Ok(()))
  }

  function DenyCsr(c: Config, ca: Ca, mac: Bytes): Act
  {
    if |mac| != 6 then Act(ca, Err(Malformed))
    else
      var swept := Evict(c, ca);
      if !Waiting(swept, mac) then Act(swept, Err(NothingPending))
      else Act(swept.(held := swept.held[mac := swept.held[mac].(status := Denied, since := ca.now)]), Ok(()))
  }

  /** A signed revocation: which address, from when, and until when it is kept. */
  datatype Revocation = Revocation(mac: Bytes, notBefore: nat, notAfter: nat)

  function RevokeRow(ca: Ca, mac: Bytes): Ca
  {
    if mac in ca.issued then ca.(issued := ca.issued[mac := ca.issued[mac].(revoked := true)]) else ca
  }

  function Revoke(ca: Ca, mac: Bytes): (Ca, Result<Revocation, Problem>)
  {
    if ca.now == 0 then (ca, Err(NoClock))
    else if |mac| != 6 then (ca, Err(Malformed))
    else (RevokeRow(ca, mac), Ok(Revocation(mac, ca.now, Saturated(ca.now + ca.policy.certTtl))))
  }

  /** The record names this certificate: same address, signed no later. */
  predicate Names(r: Revocation, cert: Cert)
  {
    r.mac == cert.body.mac && cert.body.notBefore <= r.notBefore
  }

  /** The record cancels this certificate for a reader whose clock says `now`. */
  predicate Cancels(r: Revocation, cert: Cert, now: nat)
  {
    Names(r, cert) && r.notBefore <= now < r.notAfter
  }

  // ------------------------------------------------------------------------- runs

  datatype Step =
    | Tick(now: U64)
    | Reconfigure(policy: Policy)
    | Sweep
    | Submits(csr: Csr)
    | Renews(mac: Bytes, ed: Bytes, x: Bytes)
    | Approves(mac: Bytes, ttl: Option<nat>)
    | Denies(mac: Bytes)
    | Revokes(mac: Bytes)

  function Next(c: Config, ca: Ca, step: Step): Ca
  {
    match step
    case Tick(now) => ca.(now := now)
    case Reconfigure(policy) => ca.(policy := policy)
    case Sweep => Evict(c, ca)
    case Submits(csr) => Submit(c, ca, csr).ca
    case Renews(mac, ed, x) => Renew(c, ca, mac, ed, x).ca
    case Approves(mac, ttl) => ApproveCsr(c, ca, mac, ttl).ca
    case Denies(mac) => DenyCsr(c, ca, mac).ca
    case Revokes(mac) => Revoke(ca, mac).0
  }

  /** The certificate a step hands out, if it hands one out. */
  function HandedOut(c: Config, ca: Ca, step: Step): Option<Cert>
  {
    var reply := match step
                 case Submits(csr) => Submit(c, ca, csr).reply
                 case Renews(mac, ed, x) => Renew(c, ca, mac, ed, x).reply
                 case _ => Ok(Parked);
    if reply.Ok? && reply.value.Issued? then Some(reply.value.cert) else None
  }

  function Run(c: Config, ca: Ca, steps: seq<Step>): Ca
  {
    if steps == [] then ca
    else Next(c, Run(c, ca, steps[..|steps| - 1]), steps[|steps| - 1])
  }

  predicate Fresh(ca: Ca)
  {
    ca.held == map[] && ca.issued == map[]
  }

  // ------------------------------------------------------------- what always holds

  predicate SoundHeld(c: Config, mac: Bytes, h: Held)
  {
    && WellFormed(c.scheme, mac, h.ed, h.x) && mac == c.scheme.macOf(h.ed)
    && (h.status.Approved? ==> SoundCert(c, h.status.cert)
                               && h.status.cert.body.ed == h.ed && h.status.cert.body.x == h.x)
  }

  /** A device certificate of this authority, for the address its key derives. */
  predicate SoundCert(c: Config, cert: Cert)
  {
    && Genuine(c.scheme, c.root, c.meshId, cert)
    && cert.body.flags == {Member}
    && WellFormed(c.scheme, cert.body.mac, cert.body.ed, cert.body.x)
    && cert.body.notBefore <= cert.body.notAfter <= U64_MAX
  }

  ghost predicate Inv(c: Config, ca: Ca)
  {
    && |ca.held| <= MAX_HELD
    && (forall m :: m in ca.held ==> SoundHeld(c, m, ca.held[m]))
    && (forall m :: m in ca.issued ==> m == c.scheme.macOf(ca.issued[m].ed))
  }

  lemma EvictKeeps(c: Config, ca: Ca)
    requires Inv(c, ca)
    ensures Inv(c, Evict(c, ca))
  {
    Finite.SubmapSize(Evict(c, ca).held, ca.held);
  }

  lemma PutHeldKeeps(c: Config, ca: Ca, mac: Bytes, h: Held)
    requires Inv(c, ca) && SoundHeld(c, mac, h)
    requires mac in ca.held || |ca.held| < MAX_HELD
    ensures Inv(c, ca.(held := ca.held[mac := h]))
  {
    assert ca.held[mac := h].Keys == ca.held.Keys + {mac};
  }

  lemma PutRowKeeps(c: Config, ca: Ca, mac: Bytes, row: Row)
    requires Inv(c, ca) && mac == c.scheme.macOf(row.ed)
    ensures Inv(c, ca.(issued := ca.issued[mac := row]))
  {
  }

  lemma EnqueueKeeps(c: Config, ca: Ca, csr: Csr)
    requires Inv(c, ca)
    requires WellFormed(c.scheme, csr.mac, csr.ed, csr.x) && csr.mac == c.scheme.macOf(csr.ed)
    ensures Inv(c, Enqueue(c, ca, csr).ca)
    ensures var r := Enqueue(c, ca, csr).reply;
            r.Ok? && r.value.Issued? ==>
              SoundCert(c, r.value.cert) && r.value.cert.body.ed == csr.ed && r.value.cert.body.x == csr.x
  {
    if csr.mac !in ca.held && |ca.held| < MAX_HELD {
      PutHeldKeeps(c, ca, csr.mac, Held(csr.ed, csr.x, ca.now, Pending));
    }
  }

  lemma SignKeeps(c: Config, ca: Ca, csr: Csr, ttl: nat)
    requires Inv(c, ca)
    requires WellFormed(c.scheme, csr.mac, csr.ed, csr.x) && csr.mac == c.scheme.macOf(csr.ed)
    ensures Inv(c, Sign(c, ca, csr.mac, csr.ed, csr.x, ttl).ca)
    ensures SoundCert(c, DeviceCert(c, ca.now, csr.mac, csr.ed, csr.x, ttl))
  {
    PutRowKeeps(c, ca, csr.mac, NewRow(ca.now, csr.ed, ttl));
  }

  lemma DecideKeeps(c: Config, ca: Ca, csr: Csr)
    requires Inv(c, ca)
    requires WellFormed(c.scheme, csr.mac, csr.ed, csr.x) && csr.mac == c.scheme.macOf(csr.ed)
    ensures Inv(c, Decide(c, ca, csr).ca)
    ensures var r := Decide(c, ca, csr).reply;
            r.Ok? && r.value.Issued? ==>
              SoundCert(c, r.value.cert) && r.value.cert.body.ed == csr.ed && r.value.cert.body.x == csr.x
  {
    EnqueueKeeps(c, ca, csr);
    match Live(ca, csr.mac)
    case Some(row) => SignKeeps(c, ca, csr, Monus(row.notAfter, row.notBefore));
    case None => SignKeeps(c, ca, csr, ca.policy.certTtl);
  }

  lemma SubmitKeeps(c: Config, ca: Ca, csr: Csr)
    requires Inv(c, ca)
    ensures Inv(c, Submit(c, ca, csr).ca)
    ensures HandedOut(c, ca, Submits(csr)).Some? ==> SoundCert(c, HandedOut(c, ca, Submits(csr)).value)
  {
    EvictKeeps(c, ca);
    if WellFormed(c.scheme, csr.mac, csr.ed, csr.x) && csr.mac == c.scheme.macOf(csr.ed) {
      DecideKeeps(c, Evict(c, ca), csr);
    }
  }

  lemma RenewKeeps(c: Config, ca: Ca, mac: Bytes, ed: Bytes, x: Bytes)
    requires Inv(c, ca)
    ensures Inv(c, Renew(c, ca, mac, ed, x).ca)
    ensures HandedOut(c, ca, Renews(mac, ed, x)).Some? ==> SoundCert(c, HandedOut(c, ca, Renews(mac, ed, x)).value)
  {
    if WellFormed(c.scheme, mac, ed, x) && mac == c.scheme.macOf(ed) && Live(ca, mac).Some? {
      var row := Live(ca, mac).value;
      SignKeeps(c, ca, Csr(mac, ed, x, ""), Monus(row.notAfter, row.notBefore));
    }
  }

  lemma ApproveKeeps(c: Config, ca: Ca, mac: Bytes, ttl: Option<nat>)
    requires Inv(c, ca)
    ensures Inv(c, ApproveCsr(c, ca, mac, ttl).ca)
  {
    EvictKeeps(c, ca);
    var swept, life := Evict(c, ca), LifetimeFor(c, ca, ttl);
    if ApproveCsr(c, ca, mac, ttl).result.Ok? {
      var h := swept.held[mac];
      SignKeeps(c, swept, Csr(mac, h.ed, h.x, ""), life.value);
      var cert := DeviceCert(c, ca.now, mac, h.ed, h.x, life.value);
      PutHeldKeeps(c, swept.(issued := swept.issued[mac := NewRow(ca.now, h.ed, life.value)]), mac,
                   h.(status := Approved(cert), since := ca.now));
    }
  }

  lemma DenyKeeps(c: Config, ca: Ca, mac: Bytes)
    requires Inv(c, ca)
    ensures Inv(c, DenyCsr(c, ca, mac).ca)
  {
    EvictKeeps(c, ca);
    var swept := Evict(c, ca);
    if Waiting(swept, mac) {
      PutHeldKeeps(c, swept, mac, swept.held[mac].(status := Denied, since := ca.now));
    }
  }

  lemma StepKeeps(c: Config, ca: Ca, step: Step)
    requires Inv(c, ca)
    ensures Inv(c, Next(c, ca, step))
    ensures HandedOut(c, ca, step).Some? ==> SoundCert(c, HandedOut(c, ca, step).value)
  {
    match step
    case Submits(csr) => SubmitKeeps(c, ca, csr);
    case Renews(mac, ed, x) => RenewKeeps(c, ca, mac, ed, x);
    case Approves(mac, ttl) => ApproveKeeps(c, ca, mac, ttl);
    case Denies(mac) => DenyKeeps(c, ca, mac);
    case Sweep => EvictKeeps(c, ca);
    case _ =>
  }

  /** In every run from an empty authority the queue stays within its bound, every
      held request and logged row is under the address its key derives, and every
      certificate handed out is this authority's own for a key and its address. */
  lemma {:induction false} EveryRunSound(c: Config, ca: Ca, steps: seq<Step>, step: Step)
    requires Inv(c, ca)
    ensures Inv(c, Run(c, ca, steps))
    ensures var cert := HandedOut(c, Run(c, ca, steps), step);
            cert.Some? ==> SoundCert(c, cert.value)
  {
    if steps != [] {
      EveryRunSound(c, ca, steps[..|steps| - 1], steps[|steps| - 1]);
      StepKeeps(c, Run(c, ca, steps[..|steps| - 1]), steps[|steps| - 1]);
    }
    StepKeeps(c, Run(c, ca, steps), step);
  }
}
