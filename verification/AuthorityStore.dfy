// The authority as it runs: two lists scanned for an address and rewritten in
// place. Each operation is shown to do to the lists what `Authority` says it does
// to the queue and the log they stand for.
module AuthorityStore {
  import opened Wrappers
  import opened Identifiers
  import opened Credentials
  import opened Authority
  import Finite

  ghost predicate Listed<V>(rows: seq<(Bytes, V)>, mac: Bytes)
  {
    exists i :: 0 <= i < |rows| && rows[i].0 == mac
  }

  /** A list of rows keyed by address, each address once, standing for `m`. */
  ghost predicate Lists<V>(rows: seq<(Bytes, V)>, m: map<Bytes, V>)
  {
    && |rows| == |m|
    && (forall i :: 0 <= i < |rows| ==> rows[i].0 in m && m[rows[i].0] == rows[i].1)
    && (forall i, j :: 0 <= i < j < |rows| ==> rows[i].0 != rows[j].0)
    && (forall k :: k in m ==> Listed(rows, k))
  }

  lemma ListedKept<V>(rows: seq<(Bytes, V)>, after: seq<(Bytes, V)>, mac: Bytes)
    requires |rows| <= |after| && forall i :: 0 <= i < |rows| ==> rows[i].0 == after[i].0
    requires Listed(rows, mac)
    ensures Listed(after, mac)
  {
    var i :| 0 <= i < |rows| && rows[i].0 == mac;
    assert after[i].0 == mac;
  }

  lemma ListsReplace<V>(rows: seq<(Bytes, V)>, m: map<Bytes, V>, i: nat, v: V)
    requires Lists(rows, m) && i < |rows|
    ensures Lists(rows[i := (rows[i].0, v)], m[rows[i].0 := v])
  {
    var mac := rows[i].0;
    Finite.PutSize(m, mac, v);
    forall k | k in m ensures Listed(rows[i := (mac, v)], k) {
      ListedKept(rows, rows[i := (mac, v)], k);
    }
  }

  lemma ListsAppend<V>(rows: seq<(Bytes, V)>, m: map<Bytes, V>, mac: Bytes, v: V)
    requires Lists(rows, m) && mac !in m
    ensures Lists(rows + [(mac, v)], m[mac := v])
  {
    var after := rows + [(mac, v)];
    Finite.PutSize(m, mac, v);
    assert after[|rows|].0 == mac;
    forall k | k in m ensures Listed(after, k) {
      ListedKept(rows, after, k);
    }
    assert Listed(after, mac);
  }

  /** The position of the row for `mac`, or the length if there is none. */
  method Position<V>(rows: seq<(Bytes, V)>, mac: Bytes, ghost m: map<Bytes, V>) returns (at: nat)
    requires Lists(rows, m)
    ensures at <= |rows|
    ensures at < |rows| <==> mac in m
    ensures at < |rows| ==> rows[at] == (mac, m[mac])
  {
    at := 0;
    while at < |rows| && rows[at].0 != mac
      invariant at <= |rows|
      invariant forall i :: 0 <= i < at ==> rows[i].0 != mac
    {
      at := at + 1;
    }
  }

  /** Replace the row for `mac`, or add one. */
  method Put<V>(rows: seq<(Bytes, V)>, mac: Bytes, v: V, ghost m: map<Bytes, V>) returns (after: seq<(Bytes, V)>)
    requires Lists(rows, m)
    ensures Lists(after, m[mac := v])
  {
    var at := Position(rows, mac, m);
    if at < |rows| {
      ListsReplace(rows, m, at, v);
      after := rows[at := (mac, v)];
    } else {
      ListsAppend(rows, m, mac, v);
      after := rows + [(mac, v)];
    }
  }

  /** `part` holds the unexpired requests among the first `n` rows and no others. */
  ghost predicate Gathers(c: Config, now: nat, rows: seq<(Bytes, Held)>, m: map<Bytes, Held>, n: nat,
                          part: map<Bytes, Held>)
    requires n <= |rows|
  {
    && (forall k :: k in part ==> k in m && part[k] == m[k] && !TimedOut(c, now, part[k]))
    && (forall j :: 0 <= j < |rows| ==> (rows[j].0 in part <==> j < n && !TimedOut(c, now, rows[j].1)))
  }

  lemma GathersStep(c: Config, now: nat, rows: seq<(Bytes, Held)>, m: map<Bytes, Held>, n: nat,
                    part: map<Bytes, Held>)
    requires n < |rows| && Lists(rows, m) && Gathers(c, now, rows, m, n, part)
    ensures if TimedOut(c, now, rows[n].1) then Gathers(c, now, rows, m, n + 1, part)
            else rows[n].0 !in part && Gathers(c, now, rows, m, n + 1, part[rows[n].0 := rows[n].1])
  {
  }

  lemma GathersAll(c: Config, now: nat, rows: seq<(Bytes, Held)>, m: map<Bytes, Held>, part: map<Bytes, Held>)
    requires Lists(rows, m) && Gathers(c, now, rows, m, |rows|, part)
    ensures part == Unexpired(c, now, m)
  {
    forall k | k in m && !TimedOut(c, now, m[k]) ensures k in part {
      assert Listed(rows, k);
    }
  }

  /** The requests that have not timed out, in the order they stand. */
  method Retain(c: Config, now: nat, rows: seq<(Bytes, Held)>, ghost m: map<Bytes, Held>)
    returns (kept: seq<(Bytes, Held)>)
    requires Lists(rows, m)
    ensures Lists(kept, Unexpired(c, now, m))
  {
    kept := [];
    ghost var part: map<Bytes, Held> := map[];
    for i := 0 to |rows|
      invariant Lists(kept, part) && Gathers(c, now, rows, m, i, part)
    {
      var row := rows[i];
      GathersStep(c, now, rows, m, i, part);
      if !TimedOut(c, now, row.1) {
        ListsAppend(kept, part, row.0, row.1);
        kept := kept + [(row.0, row.1)];
        part := part[row.0 := row.1];
      }
    }
    GathersAll(c, now, rows, m, part);
  }

  class CertAuthority {
    const config: Config
    var now: U64
    var policy: Policy
    var held: seq<(Bytes, Held)>
    var issued: seq<(Bytes, Row)>
    ghost var ca: Ca

    ghost predicate Valid()
      reads this
    {
      ca.now == now && ca.policy == policy && Lists(held, ca.held) && Lists(issued, ca.issued)
    }

    constructor (config: Config, policy: Policy)
      ensures Valid() && this.config == config && ca == Ca(0, policy, map[], map[])
    {
      this.config, this.policy := config, policy;
      now, held, issued := 0, [], [];
      ca := Ca(0, policy, map[], map[]);
    }

    method SetClock(reading: U64)
      requires Valid()
      modifies this`now, this`ca
      ensures Valid() && ca == old(ca).(now := reading)
    {
      now := reading;
      ca := ca.(now := reading);
    }

    method EvictExpired()
      requires Valid()
      modifies this`held, this`ca
      ensures Valid() && ca == Evict(config, old(ca))
    {
      if now == 0 {
        return;
      }
      held := Retain(config, now, held, ca.held);
      ca := Evict(config, ca);
    }

    /** `issue`: sign and log, replacing whatever row the address had. */
    method SignAndLog(mac: Bytes, ed: Bytes, x: Bytes, ttl: nat) returns (out: Outcome)
      requires Valid()
      modifies this`issued, this`ca
      ensures Valid() && Answer(ca, Ok(out)) == Sign(config, old(ca), mac, ed, x, ttl)
    {
      issued := Put(issued, mac, NewRow(now, ed, ttl), ca.issued);
      out := Issued(DeviceCert(config, now, mac, ed, x, ttl), OurAnchor(config));
      ca := Sign(config, ca, mac, ed, x, ttl).ca;
    }

    method LiveHolder(mac: Bytes) returns (holder: Option<Row>)
      requires Valid()
      ensures holder == Live(ca, mac)
    {
      var at := Position(issued, mac, ca.issued);
      if at < |issued| && now <= issued[at].1.notAfter {
        return Some(issued[at].1);
      }
      return None;
    }

    method ConsultQueue(csr: Csr) returns (out: Outcome)
      requires Valid()
      modifies this`held, this`ca
      ensures Valid() && Answer(ca, Ok(out)) == Enqueue(config, old(ca), csr)
    {
      var at := Position(held, csr.mac, ca.held);
      if at < |held| {
        var h := held[at].1;
        if h.ed != csr.ed || h.x != csr.x {
          return Rejected;
        }
        match h.status
        case Pending => return Parked;
        case Approved(cert) => return Issued(cert, OurAnchor(config));
        case Denied => return Rejected;
      }
      if |held| >= MAX_HELD {
        return Rejected;
      }
      var h := Held(csr.ed, csr.x, now, Pending);
      ListsAppend(held, ca.held, csr.mac, h);
      held := held + [(csr.mac, h)];
      ca := ca.(held := ca.held[csr.mac := h]);
      out := Parked;
    }

    method SubmitCsr(csr: Csr) returns (reply: Result<Outcome, Problem>)
      requires Valid()
      modifies this`held, this`issued, this`ca
      ensures Valid() && Answer(ca, reply) == Submit(config, old(ca), csr)
    {
      if now == 0 {
        return Err(NoClock);
      }
      EvictExpired();
      if policy.token.Some? && policy.token.value != csr.token {
        return Ok(Rejected);
      }
      if !WellFormed(config.scheme, csr.mac, csr.ed, csr.x) {
        return Err(Malformed);
      }
      if config.scheme.macOf(csr.ed) != csr.mac {
        return Ok(Rejected);
      }
      var holder := LiveHolder(csr.mac);
      var out: Outcome;
      if holder.Some? {
        var row := holder.value;
        if row.ed != csr.ed {
          return Ok(Rejected);
        }
        if !row.revoked {
          out := SignAndLog(csr.mac, csr.ed, csr.x, Monus(row.notAfter, row.notBefore));
          return Ok(out);
        }
      }
      if policy.autoApprove && holder.None? {
        out := SignAndLog(csr.mac, csr.ed, csr.x, policy.certTtl);
        return Ok(out);
      }
      out := ConsultQueue(csr);
      return Ok(out);
    }

    method RenewHolder(mac: Bytes, ed: Bytes, x: Bytes) returns (reply: Result<Outcome, Problem>)
      requires Valid()
      modifies this`issued, this`ca
      ensures Valid() && Answer(ca, reply) == Renew(config, old(ca), mac, ed, x)
    {
      if now == 0 {
        return Err(NoClock);
      }
      if |mac| != 6 || |ed| != 32 {
        return Err(Malformed);
      }
      if |x| != 32 || config.scheme.lowOrder(x) || config.scheme.macOf(ed) != mac {
        return Ok(Rejected);
      }
      var holder := LiveHolder(mac);
      if holder.None? || holder.value.ed != ed || holder.value.revoked {
        return Ok(Rejected);
      }
      var out := SignAndLog(mac, ed, x, Monus(holder.value.notAfter, holder.value.notBefore));
      return Ok(out);
    }

    /** Rewrite one held request in place. */
    method Mark(at: nat, h: Held)
      requires Valid() && at < |held|
      modifies this`held, this`ca
      ensures Valid() && ca == old(ca).(held := old(ca).held[old(held)[at].0 := h])
    {
      var mac := held[at].0;
      ListsReplace(held, ca.held, at, h);
      held := held[at := (mac, h)];
      ca := ca.(held := ca.held[mac := h]);
    }

    method Approve(mac: Bytes, ttl: Option<nat>) returns (result: Result<(), Problem>)
      requires Valid()
      modifies this`held, this`issued, this`ca
      ensures Valid() && Act(ca, result) == ApproveCsr(config, old(ca), mac, ttl)
    {
      var life := policy.certTtl;
      if ttl.Some? {
        if ttl.value == 0 || (ttl.value > MAX_CERT_TTL && !config.unbounded) {
          return Err(BadLifetime);
        }
        life := ttl.value;
      }
      if now == 0 {
        return Err(NoClock);
      }
      if |mac| != 6 {
        return Err(Malformed);
      }
      EvictExpired();
      var at := Position(held, mac, ca.held);
      if at == |held| || held[at].1.status != Pending {
        return Err(NothingPending);
      }
      var h := held[at].1;
      if config.scheme.macOf(h.ed) != mac || |h.x| != 32 || config.scheme.lowOrder(h.x) {
        return Err(Malformed);
      }
      var done := h.(status := Approved(DeviceCert(config, now, mac, h.ed, h.x, life)), since := now);
      Mark(at, done);
      var _ := SignAndLog(mac, h.ed, h.x, life);
      return Ok(());
    }

    method Deny(mac: Bytes) returns (result: Result<(), Problem>)
      requires Valid()
      modifies this`held, this`ca
      ensures Valid() && Act(ca, result) == DenyCsr(config, old(ca), mac)
    {
      if |mac| != 6 {
        return Err(Malformed);
      }
      EvictExpired();
      var at := Position(held, mac, ca.held);
      if at == |held| || held[at].1.status != Pending {
        return Err(NothingPending);
      }
      Mark(at, held[at].1.(status := Denied, since := now));
      return Ok(());
    }

    /** Mark the row of `mac`, if there is one. */
    method FlagRow(mac: Bytes)
      requires Valid()
      modifies this`issued, this`ca
      ensures Valid() && ca == RevokeRow(old(ca), mac)
    {
      var at := Position(issued, mac, ca.issued);
      if at < |issued| {
        issued := Put(issued, mac, issued[at].1.(revoked := true), ca.issued);
        ca := RevokeRow(ca, mac);
      }
    }

    method RevokeNode(mac: Bytes) returns (result: Result<Revocation, Problem>)
      requires Valid()
      modifies this`issued, this`ca
      ensures Valid() && (ca, result) == Revoke(old(ca), mac)
    {
      if now == 0 {
        return Err(NoClock);
      }
      if |mac| != 6 {
        return Err(Malformed);
      }
      FlagRow(mac);
      return Ok(Revocation(mac, now, Saturated(now + policy.certTtl)));
    }

    method SetPolicy(update: Policy)
      requires Valid()
      modifies this`policy, this`ca
      ensures Valid() && ca == old(ca).(policy := update)
    {
      policy := update;
      ca := ca.(policy := update);
    }

    /** Any one step of a run, on the lists. */
    method Take(step: Step)
      requires Valid()
      modifies this
      ensures Valid() && ca == Next(config, old(ca), step)
    {
      if step.Submits? || step.Renews? {
        TakeRequest(step);
      } else if step.Approves? || step.Denies? || step.Revokes? {
        TakeDecision(step);
      } else {
        TakeOther(step);
      }
    }

    method TakeRequest(step: Step)
      requires Valid() && (step.Submits? || step.Renews?)
      modifies this
      ensures Valid() && ca == Next(config, old(ca), step)
    {
      if step.Submits? {
        var reply := SubmitCsr(step.csr);
        assert Answer(ca, reply).ca == Submit(config, old(ca), step.csr).ca;
      } else {
        var reply := RenewHolder(step.mac, step.ed, step.x);
        assert Answer(ca, reply).ca == Renew(config, old(ca), step.mac, step.ed, step.x).ca;
      }
    }

    method TakeDecision(step: Step)
      requires Valid() && (step.Approves? || step.Denies? || step.Revokes?)
      modifies this
      ensures Valid() && ca == Next(config, old(ca), step)
    {
      if step.Approves? {
        assert step == Approves(step.mac, step.ttl);
        TakeApproval(step.mac, step.ttl);
      } else if step.Denies? {
        assert step == Denies(step.mac);
        TakeDenial(step.mac);
      } else {
        assert step == Revokes(step.mac);
        TakeRevocation(step.mac);
      }
    }

    method TakeApproval(mac: Bytes, ttl: Option<nat>)
      requires Valid()
      modifies this
      ensures Valid() && ca == Next(config, old(ca), Approves(mac, ttl))
    {
      var result := Approve(mac, ttl);
      assert Act(ca, result).ca == ApproveCsr(config, old(ca), mac, ttl).ca;
    }

    method TakeDenial(mac: Bytes)
      requires Valid()
      modifies this
      ensures Valid() && ca == Next(config, old(ca), Denies(mac))
    {
      var result := Deny(mac);
      assert Act(ca, result).ca == DenyCsr(config, old(ca), mac).ca;
    }

    method TakeRevocation(mac: Bytes)
      requires Valid()
      modifies this
      ensures Valid() && ca == Next(config, old(ca), Revokes(mac))
    {
      var result := RevokeNode(mac);
      assert (ca, result).0 == Revoke(old(ca), mac).0;
    }

    method TakeOther(step: Step)
      requires Valid() && (step.Tick? || step.Reconfigure? || step.Sweep?)
      modifies this
      ensures Valid() && ca == Next(config, old(ca), step)
    {
      if step.Tick? {
        SetClock(step.now);
      } else if step.Reconfigure? {
        SetPolicy(step.policy);
      } else {
        EvictExpired();
      }
    }

    /** A whole run on the lists is the run the theorems are about. */
    method TakeAll(steps: seq<Step>)
      requires Valid()
      modifies this
      ensures Valid() && ca == Run(config, old(ca), steps)
    {
      for i := 0 to |steps|
        invariant Valid() && ca == Run(config, old(ca), steps[..i])
      {
        assert steps[..i + 1][..i] == steps[..i];
        Take(steps[i]);
      }
      assert steps[..|steps|] == steps;
    }
  }
}
