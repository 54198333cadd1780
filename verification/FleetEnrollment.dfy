// scripts/topology.py, `enroll_members`: walk every member of a fleet through
// request, submission and installation, and be run again until all are enrolled.
module FleetEnrollment {
  import opened Finite
  import opened Wrappers
  import opened Identifiers
  import opened Credentials
  import opened Authority
  import opened AuthorityRuns
  import opened Enrollment

  /** A member to enroll: its name, the seed it runs under, whether its management
      API answers, and what the provider does before this member's turn comes. */
  datatype Member = Member(name: string, seed: Bytes, up: bool, meanwhile: seq<Step>)

  datatype Ending = Completed | Unreachable(name: string) | Failed(name: string)

  /** `installed` is what each node holds. */
  datatype Tally = Tally(ca: Ca, installed: map<string, (Cert, Anchor)>, enrolled: seq<string>, pending: seq<string>,
                         ending: Ending)

  function CsrOf(c: Config, m: Member): Csr
  {
    RequestOf(c.scheme, m.seed, "")
  }

  /** The provider as it stands when `m` submits. */
  function AtTurn(c: Config, ca: Ca, m: Member): Ca
  {
    Run(c, ca, m.meanwhile)
  }

  /** One member's turn. */
  function EnrollOne(c: Config, t: Tally, m: Member): Tally
  {
    if !m.up then t.(ending := Unreachable(m.name))
    else
      var answer := Submit(c, AtTurn(c, t.ca, m), CsrOf(c, m));
      match answer.reply
      case Ok(Issued(cert, anchor)) =>
        t.(ca := answer.ca, installed := t.installed[m.name := (cert, anchor)], enrolled := t.enrolled + [m.name])
      case Ok(Parked) => t.(ca := answer.ca, pending := t.pending + [m.name])
      case _ => t.(ca := answer.ca, ending := Failed(m.name))
  }

  /** The turns of all `members`, in order, up to the first that stops the run. */
  function EnrollAll(c: Config, start: Tally, members: seq<Member>): Tally
  {
    if members == [] then start
    else
      var t := EnrollAll(c, start, Front(members));
      if t.ending.Completed? then EnrollOne(c, t, Last(members)) else t
  }

  function Opening(ca: Ca, installed: map<string, (Cert, Anchor)>): Tally
  {
    Tally(ca, installed, [], [], Completed)
  }

  /** The names of the first members, in their order. */
  function Roster(members: seq<Member>): seq<string>
  {
    if members == [] then [] else Roster(Front(members)) + [Last(members).name]
  }

  // ---------------------------------------------------------- what one run does

  /** `names` is `a` and `b` merged, each kept in its order. */
  predicate Merges(names: seq<string>, a: seq<string>, b: seq<string>)
  {
    if names == [] then a == [] && b == []
    else
      || (a != [] && Last(a) == Last(names) && Merges(Front(names), Front(a), b))
      || (b != [] && Last(b) == Last(names) && Merges(Front(names), a, Front(b)))
  }

  lemma MergesMore(names: seq<string>, a: seq<string>, b: seq<string>, n: string)
    requires Merges(names, a, b)
    ensures Merges(names + [n], a + [n], b) && Merges(names + [n], a, b + [n])
  {
    assert Front(names + [n]) == names && Front(a + [n]) == a && Front(b + [n]) == b;
  }

  /** The provider answers `m`'s submission with a certificate. */
  predicate TurnIssues(c: Config, ca: Ca, m: Member)
  {
    var reply := Submit(c, AtTurn(c, ca, m), CsrOf(c, m)).reply;
    reply.Ok? && reply.value.Issued?
  }

  /** A turn that does not stop the run adds the name to one list, to the enrolled
      exactly when the provider issued; one that does leaves both lists as they were. */
  lemma TurnLists(c: Config, t: Tally, m: Member)
    requires t.ending.Completed?
    ensures var after := EnrollOne(c, t, m);
            if !after.ending.Completed? then after.enrolled == t.enrolled && after.pending == t.pending
            else if TurnIssues(c, t.ca, m) then after.enrolled == t.enrolled + [m.name] && after.pending == t.pending
            else after.enrolled == t.enrolled && after.pending == t.pending + [m.name]
  {
  }

  /** A run that completes puts every member, in order, on one of its two lists. */
  lemma {:induction false} CompletedMerges(c: Config, start: Tally, members: seq<Member>)
    requires start.enrolled == start.pending == []
    requires EnrollAll(c, start, members).ending.Completed?
    ensures var t := EnrollAll(c, start, members); Merges(Roster(members), t.enrolled, t.pending)
  {
    if members != [] {
      CompletedMerges(c, start, Front(members));
      var t := EnrollAll(c, start, Front(members));
      MergesMore(Roster(Front(members)), t.enrolled, t.pending, Last(members).name);
      TurnLists(c, t, Last(members));
    }
  }

  lemma {:induction false} MergesMembers(names: seq<string>, a: seq<string>, b: seq<string>, n: string)
    requires Merges(names, a, b)
    ensures n in names <==> n in a || n in b
    ensures |names| == |a| + |b|
  {
    if names != [] {
      assert names == Front(names) + [Last(names)];
      if a != [] && Last(a) == Last(names) && Merges(Front(names), Front(a), b) {
        MergesMembers(Front(names), Front(a), b, n);
        assert a == Front(a) + [Last(a)];
      } else {
        MergesMembers(Front(names), a, Front(b), n);
        assert b == Front(b) + [Last(b)];
      }
    }
  }

  /** With distinct names the lists are disjoint: each member is on exactly one. */
  lemma {:induction false} ExactlyOne(names: seq<string>, a: seq<string>, b: seq<string>, n: string)
    requires Merges(names, a, b) && Distinct(names) && n in names
    ensures n in a <==> n !in b
  {
    var front, last := Front(names), Last(names);
    assert names == front + [last] && Distinct(front) && last !in front;
    if a != [] && Last(a) == last && Merges(front, Front(a), b) {
      assert a == Front(a) + [last];
      MergesMembers(front, Front(a), b, last);
      if n != last {
        ExactlyOne(front, Front(a), b, n);
      }
    } else {
      assert b == Front(b) + [last];
      MergesMembers(front, a, Front(b), last);
      if n != last {
        ExactlyOne(front, a, Front(b), n);
      }
    }
  }

  /** Every node holds a certificate of this provider for its own keys. */
  ghost predicate Proper(c: Config, t: Tally, seeds: map<string, Bytes>)
  {
    && Inv(c, t.ca)
    && forall n :: n in t.installed && n in seeds ==>
         CertFor(c, seeds[n], t.installed[n].0) && t.installed[n].1 == OurAnchor(c)
  }

  /** What has been installed since `start`: on the enrolled and nowhere else. */
  ghost predicate InstalledOnly(start: Tally, t: Tally)
  {
    && (forall n :: n in t.enrolled ==> n in t.installed)
    && (forall n :: n in start.installed ==> n in t.installed)
    && (forall n :: n in t.installed && n !in t.enrolled ==>
          n in start.installed && t.installed[n] == start.installed[n])
  }

  lemma TurnInstallsOwn(c: Config, start: Tally, t: Tally, m: Member, seeds: map<string, Bytes>)
    requires Proper(c, t, seeds) && InstalledOnly(start, t)
    requires m.name in seeds && seeds[m.name] == m.seed
    ensures Proper(c, EnrollOne(c, t, m), seeds) && InstalledOnly(start, EnrollOne(c, t, m))
  {
    var ca := AtTurn(c, t.ca, m);
    EveryRunSound(c, t.ca, m.meanwhile, Sweep);
    SubmitKeeps(c, ca, CsrOf(c, m));
    IssuedForAsker(c, ca, CsrOf(c, m));
  }

  /** Only what the provider issued for a member's seed is installed on it; nothing
      else on any node changes; whoever is enrolled holds a certificate. */
  lemma {:induction false} InstallsOwn(c: Config, start: Tally, members: seq<Member>, seeds: map<string, Bytes>)
    requires Proper(c, start, seeds) && start.enrolled == []
    requires forall m :: m in members ==> m.name in seeds && seeds[m.name] == m.seed
    ensures var t := EnrollAll(c, start, members); Proper(c, t, seeds) && InstalledOnly(start, t)
  {
    if members != [] {
      InstallsOwn(c, start, Front(members), seeds);
      assert Last(members) in members;
      TurnInstallsOwn(c, start, EnrollAll(c, start, Front(members)), Last(members), seeds);
    }
  }

  // ------------------------------------------------------------------- the script

  /** The script's loop over the members, with its early exits. */
  method EnrollMembers(c: Config, ca: Ca, installed: map<string, (Cert, Anchor)>, members: seq<Member>)
    returns (ok: bool, t: Tally)
    requires c.scheme.Sound()
    ensures t == EnrollAll(c, Opening(ca, installed), members)
    ensures ok <==> t.ending.Completed?
  {
    t := Opening(ca, installed);
    var i := 0;
    while i < |members|
      invariant i <= |members|
      invariant t == EnrollAll(c, Opening(ca, installed), members[..i]) && t.ending.Completed?
    {
      assert Front(members[..i + 1]) == members[..i];
      t := TakeTurn(c, t, members[i]);
      if !t.ending.Completed? {
        StoppedStays(c, Opening(ca, installed), members, i + 1);
        return false, t;
      }
      i := i + 1;
    }
    assert members[..i] == members;
    ok := true;
  }

  /** Wait for the node, take its request, submit it, and install what comes back. */
  method TakeTurn(c: Config, t: Tally, m: Member) returns (after: Tally)
    requires c.scheme.Sound()
    ensures after == EnrollOne(c, t, m)
  {
    if !m.up {
      return t.(ending := Unreachable(m.name));
    }
    var request := RequestFor(c.scheme, Running(c.scheme, m.seed), "");
    RequestForIff(c.scheme, Running(c.scheme, m.seed), "");
    assert |c.scheme.edOf(m.seed)| == 32 && |c.scheme.xOf(m.seed)| == 32;
    var answer := Submit(c, AtTurn(c, t.ca, m), request.value);
    match answer.reply
    case Ok(Issued(cert, anchor)) =>
      return t.(ca := answer.ca, installed := t.installed[m.name := (cert, anchor)], enrolled := t.enrolled + [m.name]);
    case Ok(Parked) =>
      return t.(ca := answer.ca, pending := t.pending + [m.name]);
    case _ =>
      return t.(ca := answer.ca, ending := Failed(m.name));
  }

  lemma {:induction false} StoppedStays(c: Config, start: Tally, members: seq<Member>, n: nat)
    requires n <= |members| && !EnrollAll(c, start, members[..n]).ending.Completed?
    ensures EnrollAll(c, start, members) == EnrollAll(c, start, members[..n])
    decreases |members|
  {
    if n == |members| {
      assert members[..n] == members;
    } else {
      assert Front(members)[..n] == members[..n];
      StoppedStays(c, start, Front(members), n);
    }
  }
}
