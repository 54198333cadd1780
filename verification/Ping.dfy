// bins/wayfinder-ctl/src/ping.rs: follow a ping session on a node by polling it
// until it ends, is displaced, is interrupted, or overruns its own budget.
module Ping {
  import opened Finite
  import opened Wrappers

  datatype Probe = Probe(seqno: nat, pending: bool)

  datatype Session = Session(probes: seq<Probe>, active: bool)

  /** What one poll of the node comes to. */
  datatype Reply = Broken | Interrupted | NoSession | Status(session: Session)

  /** How the command ends; only the first two are a success. */
  datatype Ending =
    Finished | Cancelled | TransportError | NeverSeen | Displaced(last: Session) | Overran(last: Session)

  datatype Started = Started(count: nat, intervalMs: nat, timeoutMs: nat)

  function Period(s: Started): (p: nat)
    ensures p >= 50
  {
    (if s.intervalMs < 100 then 100 else s.intervalMs) / 2
  }

  /** Saturating 64-bit arithmetic: how long the described session can take. */
  function Budget(s: Started): nat
  {
    var max := 0xFFFF_FFFF_FFFF_FFFF;
    var run := s.count * (s.intervalMs + s.timeoutMs);
    var capped := if run > max then max else run;
    if capped + 30_000 > max then max else capped + 30_000
  }

  /** The session's probes, each with its interval and its timeout, and half a minute; or
      the end of 64-bit time. Polls come twice per interval, and every 50 ms at most. */
  lemma BudgetIs(s: Started)
    ensures Budget(s) == if s.count * (s.intervalMs + s.timeoutMs) + 30_000 <= 0xFFFF_FFFF_FFFF_FFFF
                         then s.count * (s.intervalMs + s.timeoutMs) + 30_000 else 0xFFFF_FFFF_FFFF_FFFF
    ensures s.intervalMs >= 100 ==> s.intervalMs - 1 <= 2 * Period(s) <= s.intervalMs
    ensures s.intervalMs < 100 ==> Period(s) == 50
  {
  }

  /** The probes of a poll whose outcome is known. */
  function Settled(probes: seq<Probe>): set<nat>
  {
    set p | p in probes && !p.pending :: p.seqno
  }

  function Shown(lines: seq<nat>): set<nat>
  {
    set n | n in lines
  }

  /** Everything settled in the first `n` polls. */
  function SeenSettled(replies: nat -> Reply, n: nat): set<nat>
  {
    if n == 0 then {}
    else SeenSettled(replies, n - 1) +
         match replies(n - 1) case Status(session) => Settled(session.probes) case _ => {}
  }

  lemma {:induction false} SeenSettledIff(replies: nat -> Reply, n: nat, seqno: nat)
    ensures seqno in SeenSettled(replies, n) <==>
              exists i: nat :: i < n && replies(i).Status? && Probe(seqno, false) in replies(i).session.probes
  {
    if n > 0 {
      SeenSettledIff(replies, n - 1, seqno);
      if replies(n - 1).Status? {
        var probes := replies(n - 1).session.probes;
        assert seqno in Settled(probes) <==> Probe(seqno, false) in probes;
      }
    }
  }

  lemma SettledMore(probes: seq<Probe>, i: nat)
    requires i < |probes|
    ensures Settled(probes[..i + 1]) == Settled(probes[..i]) + if probes[i].pending then {} else {probes[i].seqno}
  {
    assert probes[..i + 1] == probes[..i] + [probes[i]];
    assert forall p :: p in probes[..i + 1] <==> p in probes[..i] || p == probes[i];
  }

  lemma ShownMore(lines: seq<nat>, n: nat)
    ensures Shown(lines + [n]) == Shown(lines) + {n}
  {
  }

  /** One poll's lines: each newly settled probe once, in the order it is listed. */
  method PrintProbes(probes: seq<Probe>, lines: seq<nat>, printed: set<nat>) returns (more: seq<nat>, after: set<nat>)
    requires Distinct(lines) && printed == Shown(lines)
    ensures Distinct(more) && lines <= more && after == Shown(more)
    ensures Shown(more) == Shown(lines) + Settled(probes)
  {
    more, after := lines, printed;
    for i := 0 to |probes|
      invariant Distinct(more) && lines <= more && after == Shown(more)
      invariant Shown(more) == Shown(lines) + Settled(probes[..i])
    {
      SettledMore(probes, i);
      var probe := probes[i];
      if probe.pending || probe.seqno in after {
        continue;
      }
      after := after + {probe.seqno};
      ShownMore(more, probe.seqno);
      assert probe.seqno !in more;
      more := more + [probe.seqno];
    }
    assert probes[..|probes|] == probes;
  }

  lemma PacedBound(i: nat, period: nat, budget: nat)
    requires period > 0
    ensures i * period < budget ==> i <= budget / period
  {
    var q := budget / period;
    assert budget == q * period + budget % period;
    if i > q {
      Longer(q + 1, i, period);
      assert (q + 1) * period == q * period + period;
    }
  }

  lemma Longer(a: nat, b: nat, period: nat)
    requires a <= b
    ensures a * period <= b * period
  {
  }

  /** The polling loop. `replies(i)` is what poll `i` comes to and `clock(i)` the
      time read after it; each poll follows the one before by at least a period. */
  method Follow(s: Started, start: nat, replies: nat -> Reply, clock: nat -> nat, stream: bool)
    returns (lines: seq<nat>, polls: nat, ending: Ending)
    requires forall i: nat :: clock(i) >= start + i * Period(s)
    // At most one poll for each period of the budget, and one more.
    ensures 0 < polls <= Budget(s) / Period(s) + 2
    // Each probe is printed at most once, never while pending, and none that any
    // poll reported settled is missing.
    ensures Distinct(lines)
    ensures stream ==> Shown(lines) == SeenSettled(replies, polls)
    ensures !stream ==> lines == []
    // Success means an inactive session or an interrupt, met at the last poll.
    ensures ending.Finished? <==> replies(polls - 1).Status? && !replies(polls - 1).session.active
    ensures ending.Cancelled? <==> replies(polls - 1).Interrupted?
    ensures ending.TransportError? <==> replies(polls - 1).Broken?
    ensures ending.NeverSeen? <==> replies(polls - 1).NoSession? && polls == 1
    ensures ending.Displaced? ==>
              replies(polls - 1).NoSession? && polls > 1 && replies(polls - 2) == Status(ending.last)
    ensures ending.Overran? ==> replies(polls - 1) == Status(ending.last) && ending.last.active
                                && clock(polls - 1) >= start + Budget(s)
    // Until then every poll found the session running, and in time.
    ensures forall i: nat :: i < polls - 1 ==>
              replies(i).Status? && replies(i).session.active && clock(i) < start + Budget(s)
  {
    var period, budget := Period(s), Budget(s);
    var printed: set<nat> := {};
    var last: Option<Session> := None;
    lines, polls := [], 0;
    while true
      invariant Distinct(lines) && printed == Shown(lines)
      invariant stream ==> Shown(lines) == SeenSettled(replies, polls)
      invariant !stream ==> lines == []
      invariant last.None? <==> polls == 0
      invariant polls > 0 ==> replies(polls - 1) == Status(last.value)
      invariant forall i: nat :: i < polls ==>
                  replies(i).Status? && replies(i).session.active && clock(i) < start + budget
      invariant polls <= budget / period + 1
      decreases budget / period + 2 - polls
    {
      var reply := replies(polls);
      polls := polls + 1;
      if reply.Broken? {
        return lines, polls, TransportError;
      }
      if reply.Interrupted? {
        return lines, polls, Cancelled;
      }
      if reply.NoSession? {
        return lines, polls, if last.Some? then Displaced(last.value) else NeverSeen;
      }
      var session := reply.session;
      if stream {
        lines, printed := PrintProbes(session.probes, lines, printed);
      }
      if !session.active {
        return lines, polls, Finished;
      }
      last := Some(session);
      var now := clock(polls - 1);
      if now >= start + budget {
        return lines, polls, Overran(session);
      }
      PacedBound(polls - 1, period, budget);
    }
  }
}
