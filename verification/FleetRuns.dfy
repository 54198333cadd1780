// scripts/topology.py, `enroll_members`, run again and again: what one run leaves
// standing at the provider, and what the next run makes of it.
module FleetRuns {
  import opened Finite
  import opened Wrappers
  import opened Identifiers
  import opened Credentials
  import opened Authority
  import opened AuthorityRuns
  import opened Enrollment
  import opened FleetEnrollment

  // --------------------------------------------------------------- runs and turns

  /** Everything the provider does during the turns of `members`. */
  function Turns(c: Config, members: seq<Member>): seq<Step>
  {
    if members == [] then []
    else Turns(c, Front(members)) + Last(members).meanwhile + [Submits(CsrOf(c, Last(members)))]
  }

  lemma {:induction false} TurnsJoin(c: Config, a: seq<Member>, b: seq<Member>)
    ensures Turns(c, a + b) == Turns(c, a) + Turns(c, b)
    decreases |b|
  {
    if b == [] {
      assert a + b == a;
    } else {
      TurnsJoin(c, a, Front(b));
      assert Front(a + b) == a + Front(b) && Last(a + b) == Last(b);
    }
  }

  /** To the provider, a run of the script is a run like any other. */
  lemma {:induction false} ScriptIsRun(c: Config, start: Tally, members: seq<Member>)
    requires EnrollAll(c, start, members).ending.Completed?
    ensures EnrollAll(c, start, members).ca == Run(c, start.ca, Turns(c, members))
  {
    if members != [] {
      ScriptIsRun(c, start, Front(members));
      var m, before := Last(members), Turns(c, Front(members));
      RunJoins(c, start.ca, before, m.meanwhile);
      RunJoins(c, start.ca, before + m.meanwhile, [Submits(CsrOf(c, m))]);
      OneStep(c, Run(c, start.ca, before + m.meanwhile), Submits(CsrOf(c, m)));
    }
  }

  /** The tally before member `k`'s turn, and the provider when it submits. */
  function Before(c: Config, start: Tally, members: seq<Member>, k: nat): Tally
    requires k <= |members|
  {
    EnrollAll(c, start, members[..k])
  }

  function WhenAsked(c: Config, start: Tally, members: seq<Member>, k: nat): Ca
    requires k < |members|
  {
    AtTurn(c, Before(c, start, members, k).ca, members[k])
  }

  lemma TurnAt(c: Config, start: Tally, members: seq<Member>, k: nat)
    requires k < |members| && EnrollAll(c, start, members).ending.Completed?
    ensures Before(c, start, members, k).ending.Completed? && Before(c, start, members, k + 1).ending.Completed?
    ensures Before(c, start, members, k + 1) == EnrollOne(c, Before(c, start, members, k), members[k])
  {
    var head := members[..k + 1];
    assert Front(head) == members[..k] && Last(head) == members[k];
    if !Before(c, start, members, k + 1).ending.Completed? {
      StoppedStays(c, start, members, k + 1);
    }
    if !Before(c, start, members, k).ending.Completed? {
      StoppedStays(c, start, members, k);
    }
  }

  lemma LastTurn(c: Config, start: Tally, members: seq<Member>, n: string)
    requires members != [] && EnrollAll(c, start, members).ending.Completed?
    ensures EnrollAll(c, start, Front(members)).ending.Completed?
    ensures n in EnrollAll(c, start, members).enrolled <==>
              || n in EnrollAll(c, start, Front(members)).enrolled
              || (n == Last(members).name && TurnIssues(c, EnrollAll(c, start, Front(members)).ca, Last(members)))
  {
    TurnLists(c, EnrollAll(c, start, Front(members)), Last(members));
  }

  lemma OnlyListed(c: Config, start: Tally, members: seq<Member>, n: string)
    requires start.enrolled == start.pending == [] && EnrollAll(c, start, members).ending.Completed?
    ensures n in EnrollAll(c, start, members).enrolled ==> n in Roster(members)
  {
    CompletedMerges(c, start, members);
    var t := EnrollAll(c, start, members);
    MergesMembers(Roster(members), t.enrolled, t.pending, n);
  }

  /** In a completed run a member is on the enrolled list exactly when the provider
      issued to it at its turn. */
  lemma {:induction false} EnrolledIffIssued(c: Config, start: Tally, members: seq<Member>, k: nat)
    requires start.enrolled == start.pending == [] && Distinct(Roster(members)) && k < |members|
    requires EnrollAll(c, start, members).ending.Completed?
    ensures members[k].name in EnrollAll(c, start, members).enrolled <==>
              TurnIssues(c, Before(c, start, members, k).ca, members[k])
    decreases |members|
  {
    var front, last := Front(members), Last(members);
    LastTurn(c, start, members, members[k].name);
    RosterFront(members);
    if k < |front| {
      assert front[..k] == members[..k];
      EnrolledIffIssued(c, start, front, k);
      NotLast(members, k);
    } else {
      assert front == members[..k];
      OnlyListed(c, start, front, last.name);
    }
  }

  lemma NotLast(members: seq<Member>, k: nat)
    requires k + 1 < |members| && Distinct(Roster(members))
    ensures members[k].name != Last(members).name
  {
    RosterAt(members, k);
    RosterAt(members, |members| - 1);
  }

  lemma RosterFront(members: seq<Member>)
    requires members != [] && Distinct(Roster(members))
    ensures Distinct(Roster(Front(members))) && Last(members).name !in Roster(Front(members))
  {
    var names := Roster(members);
    assert names == Roster(Front(members)) + [Last(members).name];
    DistinctFront(names);
  }

  lemma {:induction false} RosterAt(members: seq<Member>, k: nat)
    requires k < |members|
    ensures |Roster(members)| == |members| && Roster(members)[k] == members[k].name
  {
    if |members| > 1 {
      RosterAt(Front(members), if k < |members| - 1 then k else 0);
    }
  }

  lemma DistinctFront(names: seq<string>)
    requires names != [] && Distinct(names)
    ensures Distinct(Front(names)) && Last(names) !in Front(names)
  {
  }

  // ------------------------------------------------------------ what an answer needs

  /** The queue still holds, at this instant, an approved certificate for `seed`. */
  predicate Collectable(c: Config, ca: Ca, seed: Bytes)
  {
    var csr := RequestOf(c.scheme, seed, "");
    var held := Evict(c, ca).held;
    csr.mac in held && held[csr.mac].ed == csr.ed && held[csr.mac].x == csr.x && held[csr.mac].status.Approved?
  }

  /** A member whose row is live and that is not turned away is issued a certificate if
      and only if its row is not revoked or the queue still holds an approved one. */
  lemma LiveIssuedIff(c: Config, ca: Ca, m: Member)
    requires var answer := Submit(c, AtTurn(c, ca, m), CsrOf(c, m)).reply;
             answer.Ok? && !answer.value.Rejected?
    requires Live(AtTurn(c, ca, m), CsrOf(c, m).mac).Some?
    ensures TurnIssues(c, ca, m) <==>
              !AtTurn(c, ca, m).issued[CsrOf(c, m).mac].revoked || Collectable(c, AtTurn(c, ca, m), m.seed)
  {
  }

  lemma {:induction false} StaysLivePrefix(c: Config, ca: Ca, steps: seq<Step>, n: nat, mac: Bytes)
    requires n <= |steps| && StaysLive(c, ca, steps, mac)
    ensures StaysLive(c, ca, steps[..n], mac)
    decreases |steps|
  {
    if n < |steps| {
      assert Front(steps)[..n] == steps[..n];
      StaysLivePrefix(c, ca, Front(steps), n, mac);
    } else {
      assert steps[..n] == steps;
    }
  }

  // ------------------------------------------------------------------ the second run

  /** What the provider does from the end of member `k`'s turn in the first run to its
      submission in the second. */
  function Since(c: Config, members: seq<Member>, k: nat, between: seq<Step>, again: seq<Member>, j: nat): seq<Step>
    requires k < |members| && j < |again|
  {
    Turns(c, members[k + 1..]) + between + Turns(c, again[..j]) + again[j].meanwhile
  }

  /** The second run, started from what the first left at the provider. */
  function Second(c: Config, first: Tally, between: seq<Step>): Tally
  {
    Opening(Run(c, first.ca, between), first.installed)
  }

  lemma TurnsSplit(c: Config, ca: Ca, members: seq<Member>, k: nat)
    requires k <= |members|
    ensures Run(c, ca, Turns(c, members)) == Run(c, Run(c, ca, Turns(c, members[..k])), Turns(c, members[k..]))
  {
    assert members[..k] + members[k..] == members;
    TurnsJoin(c, members[..k], members[k..]);
    RunJoins(c, ca, Turns(c, members[..k]), Turns(c, members[k..]));
  }

  lemma RestOfRun(c: Config, start: Tally, members: seq<Member>, k: nat)
    requires k <= |members| && EnrollAll(c, start, members).ending.Completed?
    requires Before(c, start, members, k).ending.Completed?
    ensures EnrollAll(c, start, members).ca == Run(c, Before(c, start, members, k).ca, Turns(c, members[k..]))
  {
    ScriptIsRun(c, start, members);
    ScriptIsRun(c, start, members[..k]);
    TurnsSplit(c, start.ca, members, k);
  }

  /** The provider at the second submission has run on from the first. */
  lemma SinceReaches(c: Config, start: Tally, members: seq<Member>, k: nat, between: seq<Step>,
                     again: seq<Member>, j: nat)
    requires k < |members| && j < |again|
    requires EnrollAll(c, start, members).ending.Completed?
    requires EnrollAll(c, Second(c, EnrollAll(c, start, members), between), again).ending.Completed?
    ensures WhenAsked(c, Second(c, EnrollAll(c, start, members), between), again, j)
         == Run(c, Before(c, start, members, k + 1).ca, Since(c, members, k, between, again, j))
  {
    var after := Before(c, start, members, k + 1).ca;
    var second := Second(c, EnrollAll(c, start, members), between);
    var rest, turns := Turns(c, members[k + 1..]), Turns(c, again[..j]);
    TurnAt(c, start, members, k);
    RestOfRun(c, start, members, k + 1);
    TurnAt(c, second, again, j);
    ScriptIsRun(c, second, again[..j]);
    RunJoins(c, after, rest, between);
    RunJoins(c, after, rest + between, turns);
    RunJoins(c, after, rest + between + turns, again[j].meanwhile);
  }

  /** A member enrolled in one run is enrolled again in a completed next one, provided
      its row stays live and nobody decides about it from the one turn to the other, if
      and only if that row was not left revoked, or the queue still holds its approved
      certificate when it asks. */
  lemma {:induction false} EnrolledAgainIff(c: Config, start: Tally, members: seq<Member>, k: nat, between: seq<Step>,
                                            again: seq<Member>, j: nat)
    requires start.enrolled == start.pending == []
    requires Distinct(Roster(members)) && Distinct(Roster(again)) && k < |members| && j < |again|
    requires again[j].name == members[k].name && again[j].seed == members[k].seed
    requires EnrollAll(c, start, members).ending.Completed? && members[k].name in EnrollAll(c, start, members).enrolled
    requires EnrollAll(c, Second(c, EnrollAll(c, start, members), between), again).ending.Completed?
    requires StaysLive(c, Before(c, start, members, k + 1).ca, Since(c, members, k, between, again, j),
                       CsrOf(c, members[k]).mac)
    ensures CsrOf(c, members[k]).mac in Before(c, start, members, k + 1).ca.issued
    ensures var second := Second(c, EnrollAll(c, start, members), between);
            again[j].name in EnrollAll(c, second, again).enrolled <==>
              || !Before(c, start, members, k + 1).ca.issued[CsrOf(c, members[k]).mac].revoked
              || Collectable(c, WhenAsked(c, second, again, j), members[k].seed)
  {
    var second := Second(c, EnrollAll(c, start, members), between);
    var after, mac := Before(c, start, members, k + 1).ca, CsrOf(c, members[k]).mac;
    var since := Since(c, members, k, between, again, j);
    StaysLivePrefix(c, after, since, 0, mac);
    assert since[..0] == [];
    RowRun(c, after, since, mac);
    SinceReaches(c, start, members, k, between, again, j);
    EnrolledIffIssued(c, second, again, j);
    TurnAt(c, second, again, j);
    LiveIssuedIff(c, Before(c, second, again, j).ca, again[j]);
  }

  /** Member `k`'s certificate survives from its turn in one run to its turn in the
      next over the same members. */
  ghost predicate Survives(c: Config, start: Tally, members: seq<Member>, k: nat, between: seq<Step>,
                           again: seq<Member>)
    requires k < |members| == |again|
  {
    var after, mac := Before(c, start, members, k + 1).ca, CsrOf(c, members[k]).mac;
    && StaysLive(c, after, Since(c, members, k, between, again, k), mac)
    && (mac in after.issued ==> !after.issued[mac].revoked)
  }

  /** Across repeated runs the enrolled never get fewer, while the certificates of those
      enrolled survive. */
  lemma {:induction false} EnrolledNeverShrinks(c: Config, start: Tally, members: seq<Member>, between: seq<Step>,
                                                again: seq<Member>)
    requires start.enrolled == start.pending == [] && Distinct(Roster(members)) && |again| == |members|
    requires forall k :: 0 <= k < |members| ==> again[k].name == members[k].name && again[k].seed == members[k].seed
    requires EnrollAll(c, start, members).ending.Completed?
    requires EnrollAll(c, Second(c, EnrollAll(c, start, members), between), again).ending.Completed?
    requires forall k :: 0 <= k < |members| && members[k].name in EnrollAll(c, start, members).enrolled ==>
               Survives(c, start, members, k, between, again)
    ensures forall n :: n in EnrollAll(c, start, members).enrolled ==>
              n in EnrollAll(c, Second(c, EnrollAll(c, start, members), between), again).enrolled
  {
    var first := EnrollAll(c, start, members);
    SameRoster(members, again);
    CompletedMerges(c, start, members);
    forall n | n in first.enrolled
      ensures n in EnrollAll(c, Second(c, first, between), again).enrolled
    {
      MergesMembers(Roster(members), first.enrolled, first.pending, n);
      var k := NamedAt(members, n);
      assert Survives(c, start, members, k, between, again);
      EnrolledAgainIff(c, start, members, k, between, again, k);
    }
  }

  lemma {:induction false} SameRoster(a: seq<Member>, b: seq<Member>)
    requires |a| == |b| && forall k :: 0 <= k < |a| ==> a[k].name == b[k].name
    ensures Roster(a) == Roster(b)
  {
    if a != [] {
      SameRoster(Front(a), Front(b));
    }
  }

  lemma {:induction false} NamedAt(members: seq<Member>, n: string) returns (k: nat)
    requires n in Roster(members)
    ensures k < |members| && members[k].name == n
  {
    if Last(members).name == n {
      k := |members| - 1;
    } else {
      k := NamedAt(Front(members), n);
    }
  }

  // ------------------------------------------------------------- everybody approved

  /** The provider holds a live, unrevoked certificate for the keys of `seed`. */
  predicate Standing(c: Config, ca: Ca, seed: Bytes)
  {
    var ed := c.scheme.edOf(seed);
    var row := Live(ca, c.scheme.macOf(ed));
    row.Some? && row.value.ed == ed && !row.value.revoked
  }

  /** The provider can answer, and asks for no token. */
  predicate Answers(ca: Ca)
  {
    ca.now > 0 && ca.policy.token.None?
  }

  lemma StandingIsIssued(c: Config, ca: Ca, seed: Bytes)
    requires c.scheme.Sound() && !c.scheme.lowOrder(c.scheme.xOf(seed))
    requires Answers(ca) && Standing(c, ca, seed)
    ensures var answer := Submit(c, ca, RequestOf(c.scheme, seed, "")).reply;
            answer.Ok? && answer.value.Issued?
  {
    assert |c.scheme.edOf(seed)| == 32 && |c.scheme.xOf(seed)| == 32;
    assert |c.scheme.macOf(c.scheme.edOf(seed))| == 6;
  }

  /** What the provider does before member `k` submits. */
  function UntilTurn(c: Config, members: seq<Member>, k: nat): seq<Step>
    requires k < |members|
  {
    Turns(c, members[..k]) + members[k].meanwhile
  }

  /** Before the run the provider has approved member `k`, and its certificate stays
      live and undecided until its own turn comes. */
  predicate ApprovedFor(c: Config, ca: Ca, members: seq<Member>, k: nat)
    requires k < |members|
  {
    Standing(c, ca, members[k].seed) && StaysLive(c, ca, UntilTurn(c, members, k), CsrOf(c, members[k]).mac)
  }

  /** Member `k` can be reached, and the provider can answer when its turn comes. */
  predicate Reachable(c: Config, ca: Ca, members: seq<Member>, k: nat)
    requires k < |members|
  {
    && members[k].up && !c.scheme.lowOrder(c.scheme.xOf(members[k].seed))
    && Answers(Run(c, ca, UntilTurn(c, members, k)))
  }

  lemma StillStanding(c: Config, ca: Ca, members: seq<Member>, k: nat)
    requires k < |members| && ApprovedFor(c, ca, members, k)
    ensures Standing(c, Run(c, ca, UntilTurn(c, members, k)), members[k].seed)
  {
    RowRun(c, ca, UntilTurn(c, members, k), CsrOf(c, members[k]).mac);
  }

  /** The last member's turn, when the run before it has completed. */
  lemma LastIsEnrolled(c: Config, start: Tally, members: seq<Member>)
    requires c.scheme.Sound() && members != [] && EnrollAll(c, start, Front(members)).ending.Completed?
    requires ApprovedFor(c, start.ca, members, |members| - 1) && Reachable(c, start.ca, members, |members| - 1)
    ensures var t, m := EnrollAll(c, start, Front(members)), Last(members);
            m.up && TurnIssues(c, t.ca, m)
  {
    var m, k := Last(members), |members| - 1;
    ScriptIsRun(c, start, Front(members));
    RunJoins(c, start.ca, Turns(c, Front(members)), m.meanwhile);
    StillStanding(c, start.ca, members, k);
    StandingIsIssued(c, Run(c, start.ca, UntilTurn(c, members, k)), m.seed);
  }

  lemma FrontApproved(c: Config, ca: Ca, members: seq<Member>, k: nat)
    requires k + 1 < |members| && ApprovedFor(c, ca, members, k) && Reachable(c, ca, members, k)
    ensures ApprovedFor(c, ca, Front(members), k) && Reachable(c, ca, Front(members), k)
  {
    assert Front(members)[..k] == members[..k];
  }

  /** Once every member has been approved, the next run enrolls all of them: approvals
      given before the run survive the turns of the others and whatever happens
      between them. */
  lemma {:induction false} AllApprovedAllEnrolled(c: Config, start: Tally, members: seq<Member>)
    requires c.scheme.Sound() && start.ending.Completed? && start.enrolled == start.pending == []
    requires forall k :: 0 <= k < |members| ==>
               ApprovedFor(c, start.ca, members, k) && Reachable(c, start.ca, members, k)
    ensures var t := EnrollAll(c, start, members);
            t.ending.Completed? && t.enrolled == Roster(members) && t.pending == []
  {
    if members != [] {
      forall k | 0 <= k < |Front(members)|
        ensures ApprovedFor(c, start.ca, Front(members), k) && Reachable(c, start.ca, Front(members), k)
      {
        FrontApproved(c, start.ca, members, k);
      }
      AllApprovedAllEnrolled(c, start, Front(members));
      LastIsEnrolled(c, start, members);
      TurnLists(c, EnrollAll(c, start, Front(members)), Last(members));
    }
  }

  // ------------------------------------------------------ enrolled, and then pending

  /** Parked, approved and revoked at one instant, and not collected yet. */
  function LeftBehind(c: Config, ca: Ca, csr: Csr, ttl: nat): Ca
  {
    var cert := DeviceCert(c, ca.now, csr.mac, csr.ed, csr.x, ttl);
    ca.(held := map[csr.mac := Held(csr.ed, csr.x, ca.now, Approved(cert))],
        issued := map[csr.mac := NewRow(ca.now, csr.ed, ttl).(revoked := true)])
  }

  lemma ReachesLeftBehind(c: Config, ca: Ca, csr: Csr, ttl: nat)
    requires Authority.Fresh(ca) && ca.now > 0 && !ca.policy.autoApprove && TokenFits(ca.policy, csr.token)
    requires WellFormed(c.scheme, csr.mac, csr.ed, csr.x) && c.scheme.macOf(csr.ed) == csr.mac
    requires LifetimeFor(c, ca, Some(ttl)) == Some(ttl)
    ensures Run(c, ca, [Submits(csr), Approves(csr.mac, Some(ttl))] + [Revokes(csr.mac)]) == LeftBehind(c, ca, csr, ttl)
  {
    TwoSteps(c, ca, Submits(csr), Approves(csr.mac, Some(ttl)));
    RunJoins(c, ca, [Submits(csr), Approves(csr.mac, Some(ttl))], [Revokes(csr.mac)]);
    assert Evict(c, ca) == ca;
    assert Next(c, ca, Submits(csr)) == ca.(held := map[csr.mac := Held(csr.ed, csr.x, ca.now, Pending)]);
    ParkedIsApproved(c, ca, csr, ttl);
    OneStep(c, Run(c, ca, [Submits(csr), Approves(csr.mac, Some(ttl))]), Revokes(csr.mac));
  }

  lemma ParkedIsApproved(c: Config, ca: Ca, csr: Csr, ttl: nat)
    requires Authority.Fresh(ca) && ca.now > 0 && LifetimeFor(c, ca, Some(ttl)) == Some(ttl)
    requires WellFormed(c.scheme, csr.mac, csr.ed, csr.x) && c.scheme.macOf(csr.ed) == csr.mac
    ensures var parked := ca.(held := map[csr.mac := Held(csr.ed, csr.x, ca.now, Pending)]);
            var cert := DeviceCert(c, ca.now, csr.mac, csr.ed, csr.x, ttl);
            Next(c, parked, Approves(csr.mac, Some(ttl))) ==
            ca.(held := map[csr.mac := Held(csr.ed, csr.x, ca.now, Approved(cert))],
                issued := map[csr.mac := NewRow(ca.now, csr.ed, ttl)])
  {
    var h := Held(csr.ed, csr.x, ca.now, Pending);
    var parked := ca.(held := map[csr.mac := h]);
    assert !TimedOut(c, ca.now, h) && Evict(c, parked) == parked;
  }

  /** From there one run enrolls the member out of the queue. When nothing but time
      passes, less than the certificate's lifetime but more than the queue keeps a
      request, the next run finds it pending. */
  lemma EnrolledThenPending(c: Config, ca: Ca, m: Member, ttl: nat)
    requires c.scheme.Sound() && Authority.Fresh(ca) && Answers(ca) && !ca.policy.autoApprove
    requires m.up && m.meanwhile == [] && !c.scheme.lowOrder(c.scheme.xOf(m.seed))
    requires c.pendingTtl < ttl && ca.now + ttl <= U64_MAX
    ensures var first := EnrollAll(c, Opening(LeftBehind(c, ca, CsrOf(c, m), ttl), map[]), [m]);
            var later := ca.now + c.pendingTtl + 1;
            var second := EnrollAll(c, Opening(first.ca.(now := later), first.installed), [m]);
            && first.ending.Completed? && first.enrolled == [m.name] && first.pending == []
            && Live(first.ca.(now := later), CsrOf(c, m).mac).Some?
            && second.ending.Completed? && second.enrolled == [] && second.pending == [m.name]
  {
    var csr := CsrOf(c, m);
    assert |csr.mac| == 6 && |csr.ed| == 32 && |csr.x| == 32;
    var left := LeftBehind(c, ca, csr, ttl);
    var h := left.held[csr.mac];
    assert !TimedOut(c, ca.now, h) && Evict(c, left) == left;
    OneTurn(c, Opening(left, map[]), m);
    assert Submit(c, left, csr) == Answer(left, Ok(Issued(h.status.cert, OurAnchor(c))));
    var late := left.(now := ca.now + c.pendingTtl + 1);
    assert TimedOut(c, late.now, h) && Evict(c, late).held == map[];
    OneTurn(c, Opening(late, map[m.name := (h.status.cert, OurAnchor(c))]), m);
  }

  lemma OneTurn(c: Config, start: Tally, m: Member)
    requires start.ending.Completed?
    ensures EnrollAll(c, start, [m]) == EnrollOne(c, start, m)
  {
    assert EnrollAll(c, start, Front([m])) == start;
  }
}
