// What the authority promises over whole runs: who is ever certified, what a
// revocation ends, what an approval starts, and what waiting in the queue keeps.
module AuthorityRuns {
  import opened Wrappers
  import opened Identifiers
  import opened Credentials
  import opened Authority
  import Finite

  function Last<T>(s: seq<T>): T
    requires s != []
  {
    s[|s| - 1]
  }

  function Front<T>(s: seq<T>): seq<T>
    requires s != []
  {
    s[..|s| - 1]
  }

  // ------------------------------------------------------------------ runs

  lemma {:induction false} RunJoins(c: Config, ca: Ca, a: seq<Step>, b: seq<Step>)
    ensures Run(c, ca, a + b) == Run(c, Run(c, ca, a), b)
    decreases |b|
  {
    if b == [] {
      assert a + b == a;
    } else {
      RunJoins(c, ca, a, Front(b));
      assert Front(a + b) == a + Front(b) && Last(a + b) == Last(b);
    }
  }

  lemma OneStep(c: Config, ca: Ca, step: Step)
    ensures Run(c, ca, [step]) == Next(c, ca, step)
  {
    assert Run(c, ca, [step][..0]) == ca;
  }

  /** Two steps make a run of two. */
  lemma TwoSteps(c: Config, ca: Ca, a: Step, b: Step)
    ensures Run(c, ca, [a, b]) == Next(c, Next(c, ca, a), b)
  {
    assert [a, b][..1] == [a] && Run(c, ca, [a][..0]) == ca;
  }

  // ------------------------------------------------------- only approved keys

  /** The address and key of each request an operator approved in the run. */
  function Admitted(c: Config, ca: Ca, steps: seq<Step>): set<(Bytes, Bytes)>
  {
    if steps == [] then {}
    else
      var before, step := Run(c, ca, Front(steps)), Last(steps);
      Admitted(c, ca, Front(steps)) +
      if step.Approves? && ApproveCsr(c, before, step.mac, step.ttl).result.Ok?
      then {(step.mac, Evict(c, before).held[step.mac].ed)} else {}
  }

  /** Every logged row and approved request belongs to an admitted key. */
  ghost predicate Vouched(ca: Ca, admitted: set<(Bytes, Bytes)>)
  {
    && !ca.policy.autoApprove
    && (forall m :: m in ca.issued ==> (m, ca.issued[m].ed) in admitted)
    && (forall m :: m in ca.held && ca.held[m].status.Approved? ==> (m, ca.held[m].ed) in admitted)
  }

  predicate ManualPolicy(steps: seq<Step>)
  {
    forall s :: s in steps && s.Reconfigure? ==> !s.policy.autoApprove
  }

  lemma VouchedDecide(c: Config, ca: Ca, csr: Csr, admitted: set<(Bytes, Bytes)>)
    requires Vouched(ca, admitted)
    ensures Vouched(Decide(c, ca, csr).ca, admitted)
  {
  }

  lemma VouchedStep(c: Config, ca: Ca, step: Step, admitted: set<(Bytes, Bytes)>)
    requires Vouched(ca, admitted)
    requires step.Reconfigure? ==> !step.policy.autoApprove
    requires step.Approves? && ApproveCsr(c, ca, step.mac, step.ttl).result.Ok? ==>
               (step.mac, Evict(c, ca).held[step.mac].ed) in admitted
    ensures Vouched(Next(c, ca, step), admitted)
  {
    assert Vouched(Evict(c, ca), admitted);
    if step.Submits? {
      VouchedDecide(c, Evict(c, ca), step.csr, admitted);
    }
  }

  lemma {:induction false} EveryRowVouched(c: Config, ca: Ca, steps: seq<Step>)
    requires Fresh(ca) && !ca.policy.autoApprove && ManualPolicy(steps)
    ensures Vouched(Run(c, ca, steps), Admitted(c, ca, steps))
  {
    if steps != [] {
      EveryRowVouched(c, ca, Front(steps));
      var before := Run(c, ca, Front(steps));
      assert Vouched(before, Admitted(c, ca, steps));
      VouchedStep(c, before, Last(steps), Admitted(c, ca, steps));
    }
  }

  /** A provider that does not approve on its own certifies no key an operator has
      not approved: over every run from an empty authority, whatever is asked. */
  lemma {:induction false} OnlyApproved(c: Config, ca: Ca, steps: seq<Step>, step: Step)
    requires Fresh(ca) && !ca.policy.autoApprove && ManualPolicy(steps)
    ensures var cert := HandedOut(c, Run(c, ca, steps), step);
            cert.Some? ==> (cert.value.body.mac, cert.value.body.ed) in Admitted(c, ca, steps)
  {
    EveryRowVouched(c, ca, steps);
    assert Inv(c, ca);
    EveryRunSound(c, ca, steps, step);
    HandedOutHeld(c, Run(c, ca, steps), step);
  }

  /** A certificate is handed out either under a row or from an approved request. */
  lemma HandedOutHeld(c: Config, ca: Ca, step: Step)
    requires Inv(c, ca) && !ca.policy.autoApprove
    ensures var cert := HandedOut(c, ca, step);
            cert.Some? ==>
              var mac, ed := cert.value.body.mac, cert.value.body.ed;
              (mac in ca.issued && ca.issued[mac].ed == ed) ||
              (mac in ca.held && ca.held[mac].status.Approved? && ca.held[mac].ed == ed)
  {
    if step.Submits? {
      var csr := step.csr;
      if WellFormed(c.scheme, csr.mac, csr.ed, csr.x) && csr.mac == c.scheme.macOf(csr.ed) {
        EvictKeeps(c, ca);
        DecideKeeps(c, Evict(c, ca), csr);
      }
    }
  }

  // -------------------------------------------------------------- revocation

  /** Nothing approved and still to be collected was signed after `t`. */
  ghost predicate SignedBy(ca: Ca, t: nat)
  {
    forall m :: m in ca.held && ca.held[m].status.Approved? ==> ca.held[m].status.cert.body.notBefore <= t
  }

  predicate ReadingsUpTo(ca: Ca, steps: seq<Step>, t: nat)
  {
    ca.now <= t && forall s :: s in steps && s.Tick? ==> s.now <= t
  }

  lemma SignedByDecide(c: Config, ca: Ca, csr: Csr, t: nat)
    requires SignedBy(ca, t)
    ensures SignedBy(Decide(c, ca, csr).ca, t)
  {
  }

  lemma SignedByAct(c: Config, ca: Ca, mac: Bytes, ttl: Option<nat>, t: nat)
    requires SignedBy(ca, t) && ca.now <= t
    ensures SignedBy(ApproveCsr(c, ca, mac, ttl).ca, t) && SignedBy(DenyCsr(c, ca, mac).ca, t)
  {
    assert SignedBy(Evict(c, ca), t);
  }

  lemma SignedByStep(c: Config, ca: Ca, step: Step, t: nat)
    requires SignedBy(ca, t) && ca.now <= t
    ensures SignedBy(Next(c, ca, step), t)
  {
    assert SignedBy(Evict(c, ca), t);
    match step
    case Submits(csr) => SignedByDecide(c, Evict(c, ca), csr, t);
    case Approves(mac, ttl) => SignedByAct(c, ca, mac, ttl, t);
    case Denies(mac) => SignedByAct(c, ca, mac, None, t);
    case _ =>
  }

  lemma {:induction false} SignedByRun(c: Config, ca: Ca, steps: seq<Step>, t: nat)
    requires SignedBy(ca, t) && ReadingsUpTo(ca, steps, t)
    ensures SignedBy(Run(c, ca, steps), t) && Run(c, ca, steps).now <= t
  {
    if steps != [] {
      SignedByRun(c, ca, Front(steps), t);
      SignedByStep(c, Run(c, ca, Front(steps)), Last(steps), t);
    }
  }

  /** `mac` was revoked at `t` and has not been re-admitted. */
  predicate Barred(ca: Ca, mac: Bytes, t: nat)
  {
    && (mac in ca.issued ==> ca.issued[mac].revoked)
    && (mac in ca.held && ca.held[mac].status.Approved? ==> ca.held[mac].status.cert.body.notBefore <= t)
  }

  /** Re-admission needs an operator: approval is manual, or the revoked row has
      not lapsed yet. */
  predicate Guarded(ca: Ca, mac: Bytes)
  {
    !ca.policy.autoApprove || Live(ca, mac).Some?
  }

  /** The run never re-approves `mac` and stays guarded at every state. */
  predicate StaysGuarded(c: Config, ca: Ca, steps: seq<Step>, mac: Bytes)
  {
    Guarded(Run(c, ca, steps), mac) &&
    (steps != [] ==>
       !(Last(steps).Approves? && Last(steps).mac == mac) && StaysGuarded(c, ca, Front(steps), mac))
  }

  lemma BarredDecide(c: Config, ca: Ca, csr: Csr, mac: Bytes, t: nat)
    requires Barred(ca, mac, t) && Guarded(ca, mac)
    ensures Barred(Decide(c, ca, csr).ca, mac, t)
    ensures var r := Decide(c, ca, csr).reply;
            csr.mac == mac && r.Ok? && r.value.Issued? ==> r.value.cert.body.notBefore <= t
  {
  }

  lemma BarredStep(c: Config, ca: Ca, step: Step, mac: Bytes, t: nat)
    requires Barred(ca, mac, t) && Guarded(ca, mac)
    requires !(step.Approves? && step.mac == mac)
    ensures Barred(Next(c, ca, step), mac, t)
  {
    assert Barred(Evict(c, ca), mac, t);
    if step.Submits? {
      BarredDecide(c, Evict(c, ca), step.csr, mac, t);
    }
  }

  lemma {:induction false} BarredRun(c: Config, ca: Ca, steps: seq<Step>, mac: Bytes, t: nat)
    requires Barred(ca, mac, t) && StaysGuarded(c, ca, steps, mac)
    ensures Barred(Run(c, ca, steps), mac, t)
  {
    if steps != [] {
      BarredRun(c, ca, Front(steps), mac, t);
      BarredStep(c, Run(c, ca, Front(steps)), Last(steps), mac, t);
    }
  }

  lemma BarredHandsOut(c: Config, ca: Ca, step: Step, mac: Bytes, t: nat)
    requires Inv(c, ca) && Barred(ca, mac, t) && Guarded(ca, mac)
    ensures var cert := HandedOut(c, ca, step);
            cert.Some? && cert.value.body.mac == mac ==> cert.value.body.notBefore <= t
  {
    if step.Submits? {
      var csr := step.csr;
      if WellFormed(c.scheme, csr.mac, csr.ed, csr.x) && csr.mac == c.scheme.macOf(csr.ed) {
        EvictKeeps(c, ca);
        DecideKeeps(c, Evict(c, ca), csr);
        BarredDecide(c, Evict(c, ca), csr, mac, t);
      }
    }
  }

  /** After a revocation, whatever anyone asks until an operator approves the
      address again, the authority hands out no certificate for it that the
      revocation does not name. */
  lemma {:induction false} RevokedStaysOut(c: Config, ca: Ca, before: seq<Step>, mac: Bytes,
                                           after: seq<Step>, step: Step)
    requires Fresh(ca)
    requires Revoke(Run(c, ca, before), mac).1.Ok?
    requires ReadingsUpTo(ca, before, Run(c, ca, before).now)
    requires StaysGuarded(c, Revoke(Run(c, ca, before), mac).0, after, mac)
    ensures var record := Revoke(Run(c, ca, before), mac).1.value;
            var cert := HandedOut(c, Run(c, Revoke(Run(c, ca, before), mac).0, after), step);
            cert.Some? && cert.value.body.mac == mac ==> Names(record, cert.value)
  {
    var at := Run(c, ca, before);
    var revoked := Revoke(at, mac).0;
    SignedByRun(c, ca, before, at.now);
    EveryRunSound(c, ca, before, Revokes(mac));
    StepKeeps(c, at, Revokes(mac));
    BarredRun(c, revoked, after, mac, at.now);
    EveryRunSound(c, revoked, after, step);
    BarredHandsOut(c, Run(c, revoked, after), step, mac, at.now);
  }

  /** What the guard is for: a request from the barred holder is signed for anew
      exactly when approval is automatic and its revoked row has lapsed. */
  lemma ReadmittedIff(c: Config, ca: Ca, csr: Csr, t: nat)
    requires Barred(ca, csr.mac, t) && t < ca.now
    requires TokenFits(ca.policy, csr.token) && WellFormed(c.scheme, csr.mac, csr.ed, csr.x)
    requires c.scheme.macOf(csr.ed) == csr.mac
    ensures var cert := HandedOut(c, ca, Submits(csr));
            (cert.Some? && cert.value.body.notBefore > t) <==>
            (ca.policy.autoApprove && Live(ca, csr.mac).None?)
  {
  }

  /** A record's own window outlasts the certificate it cancels, at every instant a
      verifier would still accept it, exactly when the authority's default lifetime
      exceeds what remains of that certificate's, and that one ends before time does. */
  lemma RevocationCoversIff(c: Config, ca: Ca, mac: Bytes, cert: Cert)
    requires Revoke(ca, mac).1.Ok? && SoundCert(c, cert) && c.scheme.Sound()
    requires cert.body.mac == mac && cert.body.notBefore <= ca.now <= cert.body.notAfter
    ensures (forall t: nat :: t >= ca.now && Verify(c.scheme, OurAnchor(c), cert, At(t)).None? ==>
               Cancels(Revoke(ca, mac).1.value, cert, t))
            <==> cert.body.notAfter - ca.now < ca.policy.certTtl && cert.body.notAfter < U64_MAX
  {
    var record := Revoke(ca, mac).1.value;
    forall t: nat ensures Verify(c.scheme, OurAnchor(c), cert, At(t)).None? <==>
                     cert.body.notBefore <= t <= cert.body.notAfter
    {
      GenuineVerifies(c.scheme, c.root, c.meshId, cert, At(t));
    }
    var end := cert.body.notAfter;
    assert Verify(c.scheme, OurAnchor(c), cert, At(end)).None?;
  }

  /** Approved for two minutes by an authority whose default is one, and revoked at
      once: a minute on, the certificate still verifies and the record has lapsed. */
  lemma RevocationLapsesFirst(c: Config, csr: Csr)
    requires c.scheme.Sound() && WellFormed(c.scheme, csr.mac, csr.ed, csr.x) && c.scheme.macOf(csr.ed) == csr.mac
    ensures var ca := Ca(1000, Policy(None, false, 60), map[], map[]);
            var at := Run(c, ca, [Submits(csr), Approves(csr.mac, Some(120))]);
            var cert := DeviceCert(c, 1000, csr.mac, csr.ed, csr.x, 120);
            && csr.mac in at.held && at.held[csr.mac].status == Approved(cert)
            && Revoke(at, csr.mac).1 == Ok(Revocation(csr.mac, 1000, 1060))
            && Verify(c.scheme, OurAnchor(c), cert, At(1060)) == None
            && !Cancels(Revocation(csr.mac, 1000, 1060), cert, 1060)
  {
    var ca := Ca(1000, Policy(None, false, 60), map[], map[]);
    TwoSteps(c, ca, Submits(csr), Approves(csr.mac, Some(120)));
    var h := Held(csr.ed, csr.x, 1000, Pending);
    assert Evict(c, ca) == ca;
    assert Next(c, ca, Submits(csr)) == ca.(held := map[csr.mac := h]);
    assert !TimedOut(c, 1000, h);
    var cert := DeviceCert(c, 1000, csr.mac, csr.ed, csr.x, 120);
    GenuineVerifies(c.scheme, c.root, c.meshId, cert, At(1060));
  }

  // ------------------------------------------------------- approval and renewal

  /** No operator decides about `mac` in this step. */
  predicate Undecided(step: Step, mac: Bytes)
  {
    !(step.Approves? && step.mac == mac) && !(step.Revokes? && step.mac == mac)
  }

  /** In every state of the run the row of `mac` is inside its window, and no operator
      decides about it. */
  predicate StaysLive(c: Config, ca: Ca, steps: seq<Step>, mac: Bytes)
  {
    Live(Run(c, ca, steps), mac).Some? &&
    (steps != [] ==> Undecided(Last(steps), mac) && StaysLive(c, ca, Front(steps), mac))
  }

  lemma RowDecide(c: Config, ca: Ca, csr: Csr, mac: Bytes)
    requires Live(ca, mac).Some?
    ensures var after := Decide(c, ca, csr).ca;
            mac in after.issued && after.issued[mac].ed == ca.issued[mac].ed
            && after.issued[mac].revoked == ca.issued[mac].revoked
  {
  }

  lemma RowStep(c: Config, ca: Ca, step: Step, mac: Bytes)
    requires Live(ca, mac).Some? && Undecided(step, mac)
    ensures var after := Next(c, ca, step);
            mac in after.issued && after.issued[mac].ed == ca.issued[mac].ed
            && after.issued[mac].revoked == ca.issued[mac].revoked
  {
    if step.Submits? {
      RowDecide(c, Evict(c, ca), step.csr, mac);
    }
  }

  /** While a row is live and nobody decides about it, its key and its being revoked or
      not never change, whatever is asked and however often it is renewed. */
  lemma {:induction false} RowRun(c: Config, ca: Ca, steps: seq<Step>, mac: Bytes)
    requires mac in ca.issued && StaysLive(c, ca, steps, mac)
    ensures var after := Run(c, ca, steps);
            mac in after.issued && after.issued[mac].ed == ca.issued[mac].ed
            && after.issued[mac].revoked == ca.issued[mac].revoked
  {
    if steps != [] {
      RowRun(c, ca, Front(steps), mac);
      RowStep(c, Run(c, ca, Front(steps)), Last(steps), mac);
    }
  }

  /** `mac` is certified under `ed`, for `ttl` seconds from its last signing or until
      the end of time. */
  predicate Certified(ca: Ca, mac: Bytes, ed: Bytes, ttl: nat)
  {
    && mac in ca.issued && ca.issued[mac].ed == ed && !ca.issued[mac].revoked
    && ca.issued[mac].notAfter == Saturated(ca.issued[mac].notBefore + ttl)
  }

  /** The clock has not gone back behind the last signing, unless `ttl` seconds from
      then are within 64-bit time anyway. */
  predicate ClockFits(ca: Ca, mac: Bytes, ttl: nat)
  {
    mac in ca.issued ==> ca.issued[mac].notBefore <= ca.now || ca.issued[mac].notBefore + ttl <= U64_MAX
  }

  predicate ClockHolds(c: Config, ca: Ca, steps: seq<Step>, mac: Bytes, ttl: nat)
  {
    ClockFits(Run(c, ca, steps), mac, ttl) && (steps != [] ==> ClockHolds(c, ca, Front(steps), mac, ttl))
  }

  /** The certificate stays inside its window, nobody decides about it, and the clock
      holds. */
  predicate Undisturbed(c: Config, ca: Ca, steps: seq<Step>, mac: Bytes, ttl: nat)
  {
    StaysLive(c, ca, steps, mac) && ClockHolds(c, ca, steps, mac, ttl)
  }

  lemma SameEnd(notBefore: U64, now: nat, ttl: nat)
    ensures Saturated(now + Monus(Saturated(notBefore + ttl), notBefore)) <= Saturated(now + ttl)
    ensures Saturated(now + Monus(Saturated(notBefore + ttl), notBefore)) == Saturated(now + ttl) <==>
              notBefore <= now || notBefore + ttl <= U64_MAX
  {
  }

  /** A renewal keeps the approved lifetime if and only if the clock has not been set
      back behind the last signing where that lifetime passes the end of 64-bit time. */
  lemma LifetimeKeptIff(c: Config, ca: Ca, mac: Bytes, ed: Bytes, x: Bytes, ttl: nat)
    requires Certified(ca, mac, ed, ttl) && HandedOut(c, ca, Renews(mac, ed, x)).Some?
    ensures Certified(Renew(c, ca, mac, ed, x).ca, mac, ed, ttl) <==> ClockFits(ca, mac, ttl)
  {
    SameEnd(ca.issued[mac].notBefore, ca.now, ttl);
  }

  lemma CertifiedDecide(c: Config, ca: Ca, csr: Csr, mac: Bytes, ed: Bytes, ttl: nat)
    requires Certified(ca, mac, ed, ttl) && Live(ca, mac).Some? && ClockFits(ca, mac, ttl)
    ensures Certified(Decide(c, ca, csr).ca, mac, ed, ttl)
  {
    SameEnd(ca.issued[mac].notBefore, ca.now, ttl);
  }

  lemma CertifiedStep(c: Config, ca: Ca, step: Step, mac: Bytes, ed: Bytes, ttl: nat)
    requires Certified(ca, mac, ed, ttl) && Live(ca, mac).Some? && ClockFits(ca, mac, ttl) && Undecided(step, mac)
    ensures Certified(Next(c, ca, step), mac, ed, ttl)
  {
    SameEnd(ca.issued[mac].notBefore, ca.now, ttl);
    if step.Submits? {
      CertifiedDecide(c, Evict(c, ca), step.csr, mac, ed, ttl);
    }
  }

  lemma {:induction false} CertifiedRun(c: Config, ca: Ca, steps: seq<Step>, mac: Bytes, ed: Bytes, ttl: nat)
    requires Certified(ca, mac, ed, ttl) && Undisturbed(c, ca, steps, mac, ttl)
    ensures Certified(Run(c, ca, steps), mac, ed, ttl)
  {
    if steps != [] {
      CertifiedRun(c, ca, Front(steps), mac, ed, ttl);
      CertifiedStep(c, Run(c, ca, Front(steps)), Last(steps), mac, ed, ttl);
    }
  }

  lemma ApprovalCertifies(c: Config, ca: Ca, mac: Bytes, ttl: Option<nat>)
    requires ApproveCsr(c, ca, mac, ttl).result.Ok?
    ensures mac in Evict(c, ca).held
    ensures Certified(ApproveCsr(c, ca, mac, ttl).ca, mac, Evict(c, ca).held[mac].ed, LifetimeFor(c, ca, ttl).value)
  {
  }

  /** A certified holder that asks is answered at once. */
  lemma CertifiedCollects(c: Config, ca: Ca, csr: Csr, ttl: nat)
    requires c.scheme.Sound() && WellFormed(c.scheme, csr.mac, csr.ed, csr.x) && c.scheme.macOf(csr.ed) == csr.mac
    requires Certified(ca, csr.mac, csr.ed, ttl) && Live(ca, csr.mac).Some? && ClockFits(ca, csr.mac, ttl)
    requires ca.now > 0 && TokenFits(ca.policy, csr.token)
    ensures var cert := DeviceCert(c, ca.now, csr.mac, csr.ed, csr.x, ttl);
            Submit(c, ca, csr).reply == Ok(Issued(cert, OurAnchor(c)))
            && cert.body.notAfter == Saturated(ca.now + ttl)
            && Verify(c.scheme, OurAnchor(c), cert, At(ca.now)) == None
  {
    SameEnd(ca.issued[csr.mac].notBefore, ca.now, ttl);
    SignKeeps(c, Ca(ca.now, ca.policy, map[], map[]), csr, ttl);
    GenuineVerifies(c.scheme, c.root, c.meshId, DeviceCert(c, ca.now, csr.mac, csr.ed, csr.x, ttl), At(ca.now));
  }

  lemma LaterCollects(c: Config, ca: Ca, steps: seq<Step>, csr: Csr, ttl: nat)
    requires c.scheme.Sound() && WellFormed(c.scheme, csr.mac, csr.ed, csr.x) && c.scheme.macOf(csr.ed) == csr.mac
    requires Certified(ca, csr.mac, csr.ed, ttl) && Undisturbed(c, ca, steps, csr.mac, ttl)
    requires Run(c, ca, steps).now > 0 && TokenFits(Run(c, ca, steps).policy, csr.token)
    ensures var later := Run(c, ca, steps);
            var cert := DeviceCert(c, later.now, csr.mac, csr.ed, csr.x, ttl);
            Submit(c, later, csr).reply == Ok(Issued(cert, OurAnchor(c)))
            && cert.body.notAfter == Saturated(later.now + ttl)
            && Verify(c.scheme, OurAnchor(c), cert, At(later.now)) == None
  {
    CertifiedRun(c, ca, steps, csr.mac, csr.ed, ttl);
    CertifiedCollects(c, Run(c, ca, steps), csr, ttl);
  }

  /** Re-submitting is how a certificate is collected: once a request is approved,
      and for as long as its certificate stays inside its window, the same request
      is answered with a fresh certificate of exactly the approved lifetime, or until
      the end of 64-bit time, which every node of the mesh accepts at that instant. */
  lemma {:induction false} ApprovalCollected(c: Config, ca: Ca, mac: Bytes, ttl: Option<nat>, life: nat,
                                             steps: seq<Step>, csr: Csr)
    requires c.scheme.Sound() && Inv(c, ca)
    requires ApproveCsr(c, ca, mac, ttl).result.Ok? && LifetimeFor(c, ca, ttl) == Some(life)
    requires var h := Evict(c, ca).held[mac];
             csr.mac == mac && csr.ed == h.ed && csr.x == h.x
    requires var later := Run(c, ApproveCsr(c, ca, mac, ttl).ca, steps);
             later.now > 0 && TokenFits(later.policy, csr.token)
    requires Undisturbed(c, ApproveCsr(c, ca, mac, ttl).ca, steps, mac, life)
    ensures var later := Run(c, ApproveCsr(c, ca, mac, ttl).ca, steps);
            var cert := DeviceCert(c, later.now, mac, csr.ed, csr.x, life);
            Submit(c, later, csr).reply == Ok(Issued(cert, OurAnchor(c)))
            && cert.body.notAfter == Saturated(later.now + life)
            && Verify(c.scheme, OurAnchor(c), cert, At(later.now)) == None
  {
    ApprovalCertifies(c, ca, mac, ttl);
    HeldWellFormed(c, ca, mac);
    LaterCollects(c, ApproveCsr(c, ca, mac, ttl).ca, steps, csr, life);
  }

  lemma HeldWellFormed(c: Config, ca: Ca, mac: Bytes)
    requires Inv(c, ca) && mac in Evict(c, ca).held
    ensures var h := Evict(c, ca).held[mac]; WellFormed(c.scheme, mac, h.ed, h.x) && c.scheme.macOf(h.ed) == mac
  {
    EvictKeeps(c, ca);
  }

  /** Renewal over the mesh succeeds exactly for the live, unrevoked holder; there
      it does what a submission does, and it never queues anything. */
  lemma RenewAgrees(c: Config, ca: Ca, csr: Csr)
    ensures var r := Renew(c, ca, csr.mac, csr.ed, csr.x);
            r.ca.held == ca.held && (HandedOut(c, ca, Renews(csr.mac, csr.ed, csr.x)).None? ==> r.ca == ca)
    ensures HandedOut(c, ca, Renews(csr.mac, csr.ed, csr.x)).Some? <==>
              ca.now > 0 && WellFormed(c.scheme, csr.mac, csr.ed, csr.x) && c.scheme.macOf(csr.ed) == csr.mac
              && Live(ca, csr.mac).Some? && ca.issued[csr.mac].ed == csr.ed && !ca.issued[csr.mac].revoked
    ensures HandedOut(c, ca, Renews(csr.mac, csr.ed, csr.x)).Some? && TokenFits(ca.policy, csr.token) ==>
              Submit(c, ca, csr).reply == Renew(c, ca, csr.mac, csr.ed, csr.x).reply
              && Submit(c, ca, csr).ca.issued == Renew(c, ca, csr.mac, csr.ed, csr.x).ca.issued
  {
  }

  // ---------------------------------------------------------------- the queue

  /** The request has not timed out in any state, and nobody decides it. */
  predicate LeftWaiting(c: Config, ca: Ca, steps: seq<Step>, mac: Bytes, h: Held)
  {
    !TimedOut(c, Run(c, ca, steps).now, h) &&
    (steps != [] ==>
       !(Last(steps).Approves? && Last(steps).mac == mac) && !(Last(steps).Denies? && Last(steps).mac == mac)
       && LeftWaiting(c, ca, Front(steps), mac, h))
  }

  lemma WaitingDecide(c: Config, ca: Ca, csr: Csr, mac: Bytes, h: Held)
    requires mac in ca.held && ca.held[mac] == h
    ensures var after := Decide(c, ca, csr).ca; mac in after.held && after.held[mac] == h
  {
  }

  lemma WaitingStep(c: Config, ca: Ca, step: Step, mac: Bytes, h: Held)
    requires mac in ca.held && ca.held[mac] == h && !TimedOut(c, ca.now, h)
    requires !(step.Approves? && step.mac == mac) && !(step.Denies? && step.mac == mac)
    ensures var after := Next(c, ca, step); mac in after.held && after.held[mac] == h
  {
    if step.Submits? {
      WaitingDecide(c, Evict(c, ca), step.csr, mac, h);
    }
  }

  lemma {:induction false} WaitingRun(c: Config, ca: Ca, steps: seq<Step>, mac: Bytes, h: Held)
    requires mac in ca.held && ca.held[mac] == h && LeftWaiting(c, ca, steps, mac, h)
    ensures var after := Run(c, ca, steps); mac in after.held && after.held[mac] == h
  {
    if steps != [] {
      WaitingRun(c, ca, Front(steps), mac, h);
      WaitingStep(c, Run(c, ca, Front(steps)), Last(steps), mac, h);
    }
  }

  /** What an operator reviewed is what an approval signs: no submission, however
      many and under whatever keys, replaces or displaces a request that waits. */
  lemma {:induction false} ReviewedIsSigned(c: Config, ca: Ca, steps: seq<Step>, mac: Bytes, ttl: Option<nat>)
    requires Inv(c, ca) && Waiting(ca, mac) && LeftWaiting(c, ca, steps, mac, ca.held[mac])
    requires var now := Run(c, ca, steps); now.now > 0 && LifetimeFor(c, now, ttl).Some?
    ensures var now := Run(c, ca, steps);
            var act := ApproveCsr(c, now, mac, ttl);
            var cert := DeviceCert(c, now.now, mac, ca.held[mac].ed, ca.held[mac].x, LifetimeFor(c, now, ttl).value);
            act.result == Ok(()) && mac in act.ca.held && act.ca.held[mac].status == Approved(cert)
            && act.ca.issued[mac] == NewRow(now.now, ca.held[mac].ed, LifetimeFor(c, now, ttl).value)
  {
    WaitingRun(c, ca, steps, mac, ca.held[mac]);
  }

  /** What a well-formed request with a fitting token needs of the log to be judged by
      the queue: a live row that is its own and revoked, or no live row and no
      automatic approval. */
  predicate LeftToQueue(ca: Ca, csr: Csr)
  {
    match Live(ca, csr.mac)
    case Some(row) => row.ed == csr.ed && row.revoked
    case None => !ca.policy.autoApprove
  }

  /** A request for the address its key derives, with a token the policy takes. */
  predicate Presentable(c: Config, ca: Ca, csr: Csr)
  {
    && ca.now > 0 && TokenFits(ca.policy, csr.token)
    && WellFormed(c.scheme, csr.mac, csr.ed, csr.x) && c.scheme.macOf(csr.ed) == csr.mac
  }

  /** A request that has timed out frees its address: the next one for it is parked,
      under whatever agreement key it brings and however full the queue was, exactly
      when it is left to the queue. */
  lemma StaleMakesRoom(c: Config, ca: Ca, csr: Csr)
    requires Inv(c, ca) && csr.mac in ca.held && TimedOut(c, ca.now, ca.held[csr.mac]) && Presentable(c, ca, csr)
    ensures Submit(c, ca, csr).reply == Ok(Parked) <==> LeftToQueue(ca, csr)
    ensures LeftToQueue(ca, csr) ==>
              var after := Submit(c, ca, csr).ca;
              csr.mac in after.held && after.held[csr.mac] == Held(csr.ed, csr.x, ca.now, Pending)
  {
    var left := Evict(c, ca).held;
    assert left.Keys <= ca.held.Keys - {csr.mac};
    Finite.SubsetSize(left.Keys, ca.held.Keys - {csr.mac});
    assert |left| == |left.Keys| && |ca.held| == |ca.held.Keys|;
  }

  /** The queue holds the tombstone of a denial for `mac`. */
  predicate Turned(ca: Ca, mac: Bytes, h: Held)
  {
    mac in ca.held && ca.held[mac] == h && h.status.Denied?
  }

  predicate InTime(c: Config, ca: Ca, steps: seq<Step>, h: Held)
  {
    !TimedOut(c, Run(c, ca, steps).now, h) && (steps != [] ==> InTime(c, ca, Front(steps), h))
  }

  lemma TurnedDecide(c: Config, ca: Ca, csr: Csr, mac: Bytes, h: Held)
    requires Turned(ca, mac, h)
    ensures Turned(Decide(c, ca, csr).ca, mac, h)
  {
  }

  lemma TurnedStep(c: Config, ca: Ca, step: Step, mac: Bytes, h: Held)
    requires Turned(ca, mac, h) && !TimedOut(c, ca.now, h)
    ensures Turned(Next(c, ca, step), mac, h)
  {
    assert Turned(Evict(c, ca), mac, h);
    if step.Submits? {
      TurnedDecide(c, Evict(c, ca), step.csr, mac, h);
    }
  }

  lemma {:induction false} TurnedRun(c: Config, ca: Ca, steps: seq<Step>, mac: Bytes, h: Held)
    requires Turned(ca, mac, h) && InTime(c, ca, steps, h)
    ensures Turned(Run(c, ca, steps), mac, h)
  {
    if steps != [] {
      TurnedRun(c, ca, Front(steps), mac, h);
      TurnedStep(c, Run(c, ca, Front(steps)), Last(steps), mac, h);
    }
  }

  /** A request for a denied address is rejected unless its own live, unrevoked row, or
      automatic approval in the absence of a live one, answers it first. */
  lemma TurnedAnswers(c: Config, ca: Ca, csr: Csr, h: Held)
    requires Turned(ca, csr.mac, h) && !TimedOut(c, ca.now, h) && Presentable(c, ca, csr)
    ensures var reply := Submit(c, ca, csr).reply;
            && reply.Ok? && (reply.value.Rejected? || reply.value.Issued?)
            && (reply.value.Rejected? <==>
                match Live(ca, csr.mac)
                case Some(row) => row.ed != csr.ed || row.revoked
                case None => !ca.policy.autoApprove)
  {
    assert Turned(Evict(c, ca), csr.mac, h);
  }

  /** Whatever is submitted, decided or reconfigured after a denial, until its tombstone
      times out the address cannot be approved, and a presentable request for it is
      rejected, exactly unless a live unrevoked row under its key or automatic approval
      without a live row has it issued. */
  lemma {:induction false} DenialStands(c: Config, ca: Ca, mac: Bytes, steps: seq<Step>, csr: Csr, ttl: Option<nat>)
    requires DenyCsr(c, ca, mac).result.Ok?
    requires var denied := DenyCsr(c, ca, mac).ca; InTime(c, denied, steps, denied.held[mac])
    ensures var later := Run(c, DenyCsr(c, ca, mac).ca, steps);
            && ApproveCsr(c, later, mac, ttl).result.Err?
            && (csr.mac == mac && Presentable(c, later, csr) ==>
                var reply := Submit(c, later, csr).reply;
                && reply.Ok? && (reply.value.Rejected? || reply.value.Issued?)
                && (reply.value.Rejected? <==>
                    match Live(later, mac)
                    case Some(row) => row.ed != csr.ed || row.revoked
                    case None => !later.policy.autoApprove))
  {
    var denied := DenyCsr(c, ca, mac).ca;
    var h := denied.held[mac];
    TurnedRun(c, denied, steps, mac, h);
    var later := Run(c, denied, steps);
    assert Turned(Evict(c, later), mac, h);
    if csr.mac == mac && Presentable(c, later, csr) {
      TurnedAnswers(c, later, csr, h);
    }
  }

  /** Parked, then signed for while approval was automatic, then denied: the same
      request is issued a certificate, under manual approval and with the tombstone in
      force, because the row it was signed under is live. */
  lemma DeniedYetIssued(c: Config, csr: Csr)
    requires WellFormed(c.scheme, csr.mac, csr.ed, csr.x) && c.scheme.macOf(csr.ed) == csr.mac
    ensures var manual, auto := Policy(None, false, 60), Policy(None, true, 60);
            var ca := Ca(1000, manual, map[], map[]);
            var before := Run(c, ca, [Submits(csr), Reconfigure(auto)] + [Submits(csr), Reconfigure(manual)]);
            var denied := DenyCsr(c, before, csr.mac);
            && denied.result == Ok(()) && denied.ca.policy == manual
            && csr.mac in denied.ca.held && !TimedOut(c, denied.ca.now, denied.ca.held[csr.mac])
            && HandedOut(c, denied.ca, Submits(csr)).Some?
  {
    var manual, auto := Policy(None, false, 60), Policy(None, true, 60);
    var ca := Ca(1000, manual, map[], map[]);
    var h := Held(csr.ed, csr.x, 1000, Pending);
    var held := map[csr.mac := h];
    assert Evict(c, ca) == ca && Next(c, ca, Submits(csr)) == ca.(held := held);
    TwoSteps(c, ca, Submits(csr), Reconfigure(auto));
    var parked := Ca(1000, auto, held, map[]);
    assert Evict(c, parked) == parked by {
      assert !TimedOut(c, 1000, h);
    }
    var signed := parked.(issued := map[csr.mac := NewRow(1000, csr.ed, 60)]);
    assert Next(c, parked, Submits(csr)) == signed;
    TwoSteps(c, parked, Submits(csr), Reconfigure(manual));
    RunJoins(c, ca, [Submits(csr), Reconfigure(auto)], [Submits(csr), Reconfigure(manual)]);
    DeniedButLive(c, signed.(policy := manual), csr, h);
  }

  /** A denial does nothing about a live row. */
  lemma DeniedButLive(c: Config, ca: Ca, csr: Csr, h: Held)
    requires Presentable(c, ca, csr) && csr.mac in ca.held && ca.held[csr.mac] == h && h.status.Pending?
    requires h.since == ca.now && Live(ca, csr.mac).Some?
    requires ca.issued[csr.mac].ed == csr.ed && !ca.issued[csr.mac].revoked
    ensures var denied := DenyCsr(c, ca, csr.mac);
            && denied.result == Ok(()) && denied.ca.policy == ca.policy
            && csr.mac in denied.ca.held && !TimedOut(c, denied.ca.now, denied.ca.held[csr.mac])
            && HandedOut(c, denied.ca, Submits(csr)).Some?
  {
    assert !TimedOut(c, ca.now, h);
  }
}
