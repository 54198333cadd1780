// What each door of the authority lets through (libs/wayfinder-server/src/
// authority.rs): the shared token, the lifetimes an operator may ask for, the time a
// decision is kept, the room in the queue, and the renewals a certificate allows.
module AuthorityGates {
  import opened Wrappers
  import opened Identifiers
  import opened Credentials
  import opened Authority
  import opened AuthorityRuns

  /** `after` is `ca` without the held requests older than their time. */
  ghost predicate OnlySwept(c: Config, ca: Ca, after: Ca)
  {
    && after.now == ca.now && after.policy == ca.policy && after.issued == ca.issued
    && (forall m :: m in after.held <==> m in ca.held && ca.now <= ca.held[m].since + c.pendingTtl)
    && (forall m :: m in after.held ==> after.held[m] == ca.held[m])
  }

  lemma EvictSweeps(c: Config, ca: Ca)
    requires ca.now > 0
    ensures OnlySwept(c, ca, Evict(c, ca))
  {
  }

  // ------------------------------------------------------------- the shared token

  /** Without the token configured a request is rejected, whatever else it says, and
      touches nothing. */
  lemma WrongTokenRejected(c: Config, ca: Ca, csr: Csr, token: string)
    requires ca.now > 0 && ca.policy.token == Some(token) && csr.token != token
    ensures Submit(c, ca, csr).reply == Ok(Rejected) && OnlySwept(c, ca, Submit(c, ca, csr).ca)
  {
    EvictSweeps(c, ca);
  }

  lemma DecideOpen(c: Config, ca: Ca, csr: Csr)
    ensures var open := Decide(c, ca.(policy := ca.policy.(token := None)), csr);
            var answer := Decide(c, ca, csr);
            answer.reply == open.reply && answer.ca == open.ca.(policy := ca.policy)
  {
  }

  /** With it, or with none configured, the token plays no part. */
  lemma RightTokenIsNoToken(c: Config, ca: Ca, csr: Csr)
    requires ca.policy.token == Some(csr.token) || ca.policy.token == None
    ensures var open := Submit(c, ca.(policy := ca.policy.(token := None)), csr);
            var answer := Submit(c, ca, csr);
            answer.reply == open.reply && answer.ca == open.ca.(policy := ca.policy)
  {
    var bare := ca.(policy := ca.policy.(token := None));
    assert Evict(c, bare) == Evict(c, ca).(policy := bare.policy);
    DecideOpen(c, Evict(c, ca), csr);
  }

  /** Some step of the run submits `ed` for `mac` with this token. */
  ghost predicate Showed(steps: seq<Step>, token: string, mac: Bytes, ed: Bytes)
  {
    exists k :: 0 <= k < |steps| && steps[k].Submits? && steps[k].csr.token == token
                && steps[k].csr.mac == mac && steps[k].csr.ed == ed
  }

  predicate KeepsToken(steps: seq<Step>, token: string)
  {
    forall s :: s in steps && s.Reconfigure? ==> s.policy.token == Some(token)
  }

  ghost predicate AllShowed(ca: Ca, steps: seq<Step>, token: string)
  {
    && ca.policy.token == Some(token)
    && (forall m :: m in ca.held ==> Showed(steps, token, m, ca.held[m].ed))
    && (forall m :: m in ca.issued ==> Showed(steps, token, m, ca.issued[m].ed))
  }

  lemma ShowedMore(steps: seq<Step>, step: Step, token: string, mac: Bytes, ed: Bytes)
    ensures Showed(steps, token, mac, ed) ==> Showed(steps + [step], token, mac, ed)
    ensures step.Submits? && step.csr.token == token && step.csr.mac == mac && step.csr.ed == ed ==>
              Showed(steps + [step], token, mac, ed)
  {
    if Showed(steps, token, mac, ed) {
      var k :| 0 <= k < |steps| && steps[k].Submits? && steps[k].csr.token == token
               && steps[k].csr.mac == mac && steps[k].csr.ed == ed;
      assert (steps + [step])[k] == steps[k];
    }
    assert (steps + [step])[|steps|] == step;
  }

  lemma AllShowedMore(ca: Ca, steps: seq<Step>, step: Step, token: string)
    requires AllShowed(ca, steps, token)
    ensures AllShowed(ca, steps + [step], token)
  {
    forall m | m in ca.held ensures Showed(steps + [step], token, m, ca.held[m].ed) {
      ShowedMore(steps, step, token, m, ca.held[m].ed);
    }
    forall m | m in ca.issued ensures Showed(steps + [step], token, m, ca.issued[m].ed) {
      ShowedMore(steps, step, token, m, ca.issued[m].ed);
    }
  }

  lemma DecideShowed(c: Config, ca: Ca, csr: Csr, steps: seq<Step>, token: string)
    requires AllShowed(ca, steps, token) && Showed(steps, token, csr.mac, csr.ed)
    ensures AllShowed(Decide(c, ca, csr).ca, steps, token)
  {
  }

  lemma SubmitShowed(c: Config, ca: Ca, csr: Csr, steps: seq<Step>, token: string)
    requires AllShowed(ca, steps, token) && (csr.token == token ==> Showed(steps, token, csr.mac, csr.ed))
    ensures AllShowed(Submit(c, ca, csr).ca, steps, token)
  {
    if ca.now > 0 && csr.token == token {
      DecideShowed(c, Evict(c, ca), csr, steps, token);
    } else if ca.now > 0 {
      WrongTokenRejected(c, ca, csr, token);
    }
  }

  lemma ApproveShowed(c: Config, ca: Ca, mac: Bytes, ttl: Option<nat>, steps: seq<Step>, token: string)
    requires AllShowed(ca, steps, token)
    ensures AllShowed(ApproveCsr(c, ca, mac, ttl).ca, steps, token)
  {
  }

  lemma OtherShowed(c: Config, ca: Ca, step: Step, steps: seq<Step>, token: string)
    requires AllShowed(ca, steps, token) && !step.Submits? && !step.Approves?
    requires step.Reconfigure? ==> step.policy.token == Some(token)
    ensures AllShowed(Next(c, ca, step), steps, token)
  {
  }

  lemma StepShowed(c: Config, ca: Ca, steps: seq<Step>, step: Step, token: string)
    requires AllShowed(ca, steps, token) && (step.Reconfigure? ==> step.policy.token == Some(token))
    ensures AllShowed(Next(c, ca, step), steps + [step], token)
  {
    AllShowedMore(ca, steps, step, token);
    if step.Submits? {
      ShowedMore(steps, step, token, step.csr.mac, step.csr.ed);
      SubmitShowed(c, ca, step.csr, steps + [step], token);
    } else if step.Approves? {
      ApproveShowed(c, ca, step.mac, step.ttl, steps + [step], token);
    } else {
      OtherShowed(c, ca, step, steps + [step], token);
    }
  }

  /** While a token is set, nobody is in the queue or in the log whose key was not
      submitted with it. */
  lemma {:induction false} EveryoneShowedToken(c: Config, ca: Ca, steps: seq<Step>, token: string)
    requires Fresh(ca) && ca.policy.token == Some(token) && KeepsToken(steps, token)
    ensures AllShowed(Run(c, ca, steps), steps, token)
  {
    if steps != [] {
      EveryoneShowedToken(c, ca, Front(steps), token);
      StepShowed(c, Run(c, ca, Front(steps)), Front(steps), Last(steps), token);
      assert Front(steps) + [Last(steps)] == steps;
    }
  }

  // -------------------------------------------------------------------- decisions

  /** The lifetime an approval gives: as asked, or the default. */
  function Asked(ca: Ca, ttl: Option<nat>): nat
  {
    match ttl
    case None => ca.policy.certTtl
    case Some(t) => t
  }

  predicate OutOfBounds(c: Config, ttl: Option<nat>)
  {
    ttl.Some? && (ttl.value == 0 || (ttl.value > 315_360_000 && !c.unbounded))
  }

  /** The request for `mac` waits and has not timed out. */
  predicate Decidable(c: Config, ca: Ca, mac: Bytes)
  {
    && mac in ca.held && ca.held[mac].status.Pending?
    && (ca.now == 0 || ca.now <= ca.held[mac].since + c.pendingTtl)
  }

  /** An approval succeeds exactly for a waiting request and a lifetime in bounds, ten
      years unless the configuration lifts that; it then certifies that request's keys
      from now for exactly that lifetime, in the log and in the queue. */
  lemma ApprovalExact(c: Config, ca: Ca, mac: Bytes, ttl: Option<nat>)
    requires Inv(c, ca)
    ensures ApproveCsr(c, ca, mac, ttl).result == Err(BadLifetime) <==> OutOfBounds(c, ttl)
    ensures ApproveCsr(c, ca, mac, ttl).result.Ok? <==>
              !OutOfBounds(c, ttl) && ca.now > 0 && Decidable(c, ca, mac)
    ensures ApproveCsr(c, ca, mac, ttl).result.Ok? ==>
              var after, h := ApproveCsr(c, ca, mac, ttl).ca, ca.held[mac];
              var end := if ca.now + Asked(ca, ttl) <= U64_MAX then ca.now + Asked(ca, ttl) else U64_MAX;
              && after.issued == ca.issued[mac := Row(h.ed, ca.now, end, false)]
              && mac in after.held && after.held[mac].status.Approved? && after.held[mac].since == ca.now
              && after.held[mac].ed == h.ed && after.held[mac].x == h.x
              && var body := after.held[mac].status.cert.body;
                 && body.mac == mac && body.ed == h.ed && body.x == h.x && body.flags == {Member}
                 && body.notBefore == ca.now && body.notAfter == end
  {
    if Decidable(c, ca, mac) {
      assert SoundHeld(c, mac, ca.held[mac]);
    }
  }

  /** A denial succeeds exactly for a waiting request, and leaves the same keys denied
      from now and everything else as it was but for timed-out requests. */
  lemma DenialExact(c: Config, ca: Ca, mac: Bytes)
    requires Inv(c, ca) && ca.now > 0
    ensures DenyCsr(c, ca, mac).result.Ok? <==> Decidable(c, ca, mac)
    ensures DenyCsr(c, ca, mac).result.Ok? ==>
              var after, h := DenyCsr(c, ca, mac).ca, ca.held[mac];
              && mac in after.held && after.held[mac] == Held(h.ed, h.x, ca.now, Denied)
              && OnlySwept(c, ca, after.(held := after.held[mac := h]))
  {
    EvictSweeps(c, ca);
    if Decidable(c, ca, mac) {
      assert SoundHeld(c, mac, ca.held[mac]);
    }
  }

  /** A revocation needs a clock and an address, known or not; it signs a record from now
      for the default lifetime, marks the row of that address if there is one, and
      changes nothing else. */
  lemma RevocationExact(c: Config, ca: Ca, mac: Bytes)
    ensures var (after, result) := Revoke(ca, mac);
            && (result == Err(NoClock) <==> ca.now == 0)
            && (result == Err(Malformed) <==> ca.now > 0 && |mac| != 6)
            && (result.Err? ==> after == ca)
            && (result.Ok? ==>
                  && result.value.mac == mac && result.value.notBefore == ca.now
                  && result.value.notAfter == (if ca.now + ca.policy.certTtl <= U64_MAX
                                               then ca.now + ca.policy.certTtl else U64_MAX)
                  && after == ca.(issued := after.issued) && after.issued.Keys == ca.issued.Keys
                  && forall m :: m in ca.issued ==>
                       after.issued[m] == if m == mac then ca.issued[m].(revoked := true) else ca.issued[m])
  {
  }

  /** A certificate approved after a revocation escapes its record exactly if the clock
      has moved on since, and one of another address always does. */
  lemma ReapprovalEscapesIff(c: Config, ca: Ca, mac: Bytes, ttl: Option<nat>, record: Revocation)
    requires Inv(c, ca) && ApproveCsr(c, ca, mac, ttl).result.Ok? && record.notBefore < record.notAfter
    ensures mac in ApproveCsr(c, ca, mac, ttl).ca.held && ApproveCsr(c, ca, mac, ttl).ca.held[mac].status.Approved?
    ensures var cert := ApproveCsr(c, ca, mac, ttl).ca.held[mac].status.cert;
            (forall t: nat :: !Cancels(record, cert, t)) <==> record.mac != mac || ca.now > record.notBefore
  {
    ApprovalExact(c, ca, mac, ttl);
    var cert := ApproveCsr(c, ca, mac, ttl).ca.held[mac].status.cert;
    if record.mac == mac && ca.now <= record.notBefore {
      assert Cancels(record, cert, record.notBefore);
    }
  }

  /** A decision is kept for the whole of a request's time from when it was taken, and
      no longer. */
  lemma DecisionKept(c: Config, ca: Ca, mac: Bytes, ttl: Option<nat>, t: U64)
    requires Inv(c, ca) && t > 0
    ensures var act := DenyCsr(c, ca, mac);
            ca.now > 0 && act.result.Ok? ==>
              (mac in Next(c, act.ca.(now := t), Sweep).held <==> t <= ca.now + c.pendingTtl)
    ensures var act := ApproveCsr(c, ca, mac, ttl);
            act.result.Ok? ==>
              (mac in Next(c, act.ca.(now := t), Sweep).held <==> t <= ca.now + c.pendingTtl)
  {
    ApprovalExact(c, ca, mac, ttl);
    if ca.now > 0 {
      DenialExact(c, ca, mac);
      EvictSweeps(c, DenyCsr(c, ca, mac).ca.(now := t));
    }
    EvictSweeps(c, ApproveCsr(c, ca, mac, ttl).ca.(now := t));
  }

  // ------------------------------------------------------------ room in the queue

  /** A request that the queue is to decide and does not know is parked, waiting from
      now, if and only if fewer than 128 are waiting or decided. */
  lemma ParkedIffRoom(c: Config, ca: Ca, csr: Csr)
    requires Presentable(c, ca, csr) && LeftToQueue(ca, csr)
    requires csr.mac !in ca.held || ca.now > ca.held[csr.mac].since + c.pendingTtl
    ensures var answer := Submit(c, ca, csr);
            && (answer.reply == Ok(Parked) <==> |Evict(c, ca).held| < 128)
            && (answer.reply == Ok(Rejected) <==> |Evict(c, ca).held| >= 128)
            && (answer.reply == Ok(Parked) ==>
                  csr.mac in answer.ca.held && answer.ca.held[csr.mac] == Held(csr.ed, csr.x, ca.now, Pending))
            && (answer.reply == Ok(Rejected) ==> OnlySwept(c, ca, answer.ca))
  {
    EvictSweeps(c, ca);
  }

  // ------------------------------------------------------------------- renewals

  /** The holder of a certificate an operator approved can renew it exactly as long as
      it verifies. */
  lemma RenewableWhileValid(c: Config, ca: Ca, mac: Bytes, ttl: Option<nat>, t: U64)
    requires c.scheme.Sound() && Inv(c, ca) && ApproveCsr(c, ca, mac, ttl).result.Ok? && ca.now <= t
    ensures var after := ApproveCsr(c, ca, mac, ttl).ca;
            && mac in after.held && after.held[mac].status.Approved?
            && var cert := after.held[mac].status.cert;
               HandedOut(c, after.(now := t), Renews(mac, cert.body.ed, cert.body.x)).Some? <==>
               Verify(c.scheme, OurAnchor(c), cert, At(t)) == None
  {
    ApprovalExact(c, ca, mac, ttl);
    ApproveKeeps(c, ca, mac, ttl);
    var after := ApproveCsr(c, ca, mac, ttl).ca;
    var cert := after.held[mac].status.cert;
    GenuineVerifies(c.scheme, c.root, c.meshId, cert, At(t));
    RenewAgrees(c, after.(now := t), Csr(mac, cert.body.ed, cert.body.x, ""));
  }

  // --------------------------------------------------------------------- errors

  /** What is an error rather than an answer: nothing without a clock, and keys or
      addresses of the wrong length; a submission also refuses a degenerate agreement
      key so, where a renewal rejects it. */
  lemma ErrorsAre(c: Config, ca: Ca, csr: Csr)
    ensures Submit(c, ca, csr).reply == Err(NoClock) <==> ca.now == 0
    ensures Renew(c, ca, csr.mac, csr.ed, csr.x).reply == Err(NoClock) <==> ca.now == 0
    ensures ca.policy.token == None || ca.policy.token == Some(csr.token) ==>
              (Submit(c, ca, csr).reply == Err(Malformed) <==>
               ca.now > 0 && (|csr.mac| != 6 || |csr.ed| != 32 || |csr.x| != 32 || c.scheme.lowOrder(csr.x)))
    ensures Renew(c, ca, csr.mac, csr.ed, csr.x).reply == Err(Malformed) <==>
              ca.now > 0 && (|csr.mac| != 6 || |csr.ed| != 32)
  {
  }

  /** A key that does not derive the address is rejected by both, and changes nothing. */
  lemma OtherAddressRejected(c: Config, ca: Ca, csr: Csr)
    requires ca.now > 0 && (ca.policy.token == None || ca.policy.token == Some(csr.token))
    requires |csr.mac| == 6 && |csr.ed| == 32 && |csr.x| == 32 && !c.scheme.lowOrder(csr.x)
    requires c.scheme.macOf(csr.ed) != csr.mac
    ensures Submit(c, ca, csr).reply == Ok(Rejected) && OnlySwept(c, ca, Submit(c, ca, csr).ca)
    ensures Renew(c, ca, csr.mac, csr.ed, csr.x) == Answer(ca, Ok(Rejected))
  {
    EvictSweeps(c, ca);
  }
}
