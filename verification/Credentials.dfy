// Membership certificates: what an authority signs and a node verifies
// (libs/wayfinder-auth), and the offline tools that sign one from a node's seed
// or from its request (bins/wayfinder-ctl/src/cert.rs and csr.rs).
module Credentials {
  import opened Wrappers
  import opened Identifiers

  const CERT_VERSION := 1

  datatype Flag = Admin | User | Viewer | Member

  /** Every field the signature covers. */
  datatype Body = Body(version: nat, flags: set<Flag>, meshId: nat, mac: Bytes, ed: Bytes, x: Bytes,
                       notBefore: nat, notAfter: nat)

  datatype Cert = Cert(body: Body, signature: Bytes)

  datatype Anchor = Anchor(meshId: nat, root: Bytes)

  /** What an enrolling node sends: its address, its two public keys and a token. */
  datatype Csr = Csr(mac: Bytes, ed: Bytes, x: Bytes, token: string)

  /** The cryptography, as functions the rest is proved for every choice of. */
  datatype Scheme = Scheme(
    edOf: Bytes -> Bytes,
    xOf: Bytes -> Bytes,
    macOf: Bytes -> Bytes,
    lowOrder: Bytes -> bool,
    sign: (Bytes, Body) -> Bytes,
    accepts: (Bytes, Body, Bytes) -> bool)
  {
    /** Keys have 32 bytes, a derived address is six bytes, unicast and locally
        administered, and a signature is accepted under its signer's key. */
    ghost predicate Sound()
    {
      && (forall seed :: |edOf(seed)| == 32 && |xOf(seed)| == 32)
      && (forall key :: |macOf(key)| == 6 && macOf(key)[0] % 4 == 2)
      && (forall seed, body :: accepts(edOf(seed), body, sign(seed, body)))
    }
  }

  /** The assumptions can be met. */
  lemma SoundExists() returns (s: Scheme)
    ensures s.Sound()
  {
    var key: Bytes := seq(32, _ => 1);
    var mac: Bytes := [2, 0, 0, 0, 0, 1];
    s := Scheme(_ => key, _ => key, _ => mac, _ => false, (_, _) => [], (_, _, _) => true);
  }

  function AnchorOf(s: Scheme, root: Bytes, meshId: nat): Anchor
  {
    Anchor(meshId, s.edOf(root))
  }

  function SignCert(s: Scheme, root: Bytes, meshId: nat, flags: set<Flag>, mac: Bytes, ed: Bytes, x: Bytes,
                    notBefore: nat, notAfter: nat): Cert
  {
    var body := Body(CERT_VERSION, flags, meshId, mac, ed, x, notBefore, notAfter);
    Cert(body, s.sign(root, body))
  }

  // ---------------------------------------------------------------- verification

  /** What a verifier knows about the time: a reading, a lower bound, or nothing. */
  datatype Clock = At(now: nat) | AtLeast(floor: nat) | Unknown

  predicate ProvesPast(c: Clock, instant: nat)
  {
    match c
    case At(t) => t > instant
    case AtLeast(t) => t > instant
    case Unknown => false
  }

  predicate ProvesBefore(c: Clock, instant: nat)
  {
    c.At? && c.now < instant
  }

  datatype AuthError =
    BadVersion | WrongMesh | BadSignature | ReservedAddress | MacKeyMismatch | NotYetValid | Expired

  predicate Reserved(mac: Bytes)
  {
    mac != [] && (mac[0] % 2 != 0 || forall i :: 0 <= i < |mac| ==> mac[i] == 0)
  }

  /** A node's check of a presented certificate: the error, if there is one. */
  function Verify(s: Scheme, anchor: Anchor, cert: Cert, clock: Clock): Option<AuthError>
  {
    var b := cert.body;
    if b.version != CERT_VERSION then Some(BadVersion)
    else if b.meshId != anchor.meshId then Some(WrongMesh)
    else if !s.accepts(anchor.root, b, cert.signature) then Some(BadSignature)
    else if Reserved(b.mac) then Some(ReservedAddress)
    else if s.macOf(b.ed) != b.mac then Some(MacKeyMismatch)
    else if ProvesBefore(clock, b.notBefore) then Some(NotYetValid)
    else if ProvesPast(clock, b.notAfter) then Some(Expired)
    else None
  }

  /** `cert` is this authority's own signature over an address its key derives. */
  predicate Genuine(s: Scheme, root: Bytes, meshId: nat, cert: Cert)
  {
    && cert.body.version == CERT_VERSION && cert.body.meshId == meshId
    && cert.body.mac == s.macOf(cert.body.ed)
    && cert.signature == s.sign(root, cert.body)
  }

  /** A genuine certificate fails verification only for its window, and only when
      the verifier's clock proves it is outside. */
  lemma GenuineVerifies(s: Scheme, root: Bytes, meshId: nat, cert: Cert, clock: Clock)
    requires s.Sound() && Genuine(s, root, meshId, cert)
    ensures Verify(s, AnchorOf(s, root, meshId), cert, clock) ==
            if ProvesBefore(clock, cert.body.notBefore) then Some(NotYetValid)
            else if ProvesPast(clock, cert.body.notAfter) then Some(Expired)
            else None
  {
    var mac := s.macOf(cert.body.ed);
    assert mac[0] % 4 == 2;
    assert s.accepts(s.edOf(root), cert.body, s.sign(root, cert.body));
  }

  /** What a node that knows the time admits: this version, its own mesh, the root's
      signature, a unicast address that is not zero and that the key derives, and a
      window that has begun and not ended. */
  lemma VerifiesIff(s: Scheme, anchor: Anchor, cert: Cert, now: nat)
    requires |cert.body.mac| == 6
    ensures Verify(s, anchor, cert, At(now)) == None <==>
              && cert.body.version == 1 && cert.body.meshId == anchor.meshId
              && s.accepts(anchor.root, cert.body, cert.signature)
              && cert.body.mac[0] % 2 == 0 && cert.body.mac != [0, 0, 0, 0, 0, 0]
              && s.macOf(cert.body.ed) == cert.body.mac
              && cert.body.notBefore <= now <= cert.body.notAfter
  {
    var mac := cert.body.mac;
    if forall i :: 0 <= i < |mac| ==> mac[i] == 0 {
      assert mac == [0, 0, 0, 0, 0, 0];
    }
  }

  /** One that does not is stricter about nothing, and laxer about the window alone: with
      a lower bound it still refuses what has certainly ended. */
  lemma ClockOnlyWindow(s: Scheme, anchor: Anchor, cert: Cert, now: nat)
    ensures Verify(s, anchor, cert, At(now)) == None ==> Verify(s, anchor, cert, AtLeast(now)) == None
    ensures Verify(s, anchor, cert, AtLeast(now)) == None ==> Verify(s, anchor, cert, Unknown) == None
    ensures Verify(s, anchor, cert, Unknown) == None ==>
              && (Verify(s, anchor, cert, AtLeast(now)) == None <==> now <= cert.body.notAfter)
              && (Verify(s, anchor, cert, At(now)) == None <==> cert.body.notBefore <= now <= cert.body.notAfter)
  {
  }

  // --------------------------------------------------------------- the tool's files

  /** A file as the tool can read it: raw bytes, or one of its own formats. */
  datatype File = Raw(bytes: Bytes) | CertFile(cert: Cert) | AnchorFile(anchor: Anchor) | CsrFile(csr: Csr)

  type Files = map<string, File>

  datatype Refusal =
    | EmptyWindow
    | Unreadable(path: string)
    | BadMac
    | MacMismatch
    | BadRequest
    | BadLength
    | BothCapabilities
    | LowOrderKey

  function ReadSeed(files: Files, path: string): Result<Bytes, Refusal>
  {
    if path in files && files[path].Raw? && |files[path].bytes| == 32 then Ok(files[path].bytes)
    else Err(Unreadable(path))
  }

  datatype Terms = Terms(notBefore: nat, notAfter: nat, admin: bool, viewer: bool)

  function FlagsFor(terms: Terms): set<Flag>
  {
    if terms.admin then {User, Admin} else if terms.viewer then {User, Viewer} else {Member}
  }

  function IssueWithFlags(s: Scheme, root: Bytes, meshId: nat, mac: Bytes, ed: Bytes, x: Bytes, terms: Terms)
    : Result<Cert, Refusal>
  {
    if terms.admin && terms.viewer then Err(BothCapabilities)
    else if s.lowOrder(x) then Err(LowOrderKey)
    else Ok(SignCert(s, root, meshId, FlagsFor(terms), mac, ed, x, terms.notBefore, terms.notAfter))
  }

  /** `cert issue`: sign for the node whose seed is at `nodeSeed`. */
  function Issue(s: Scheme, files: Files, caSeed: string, meshId: nat, mac: Option<string>, nodeSeed: string,
                 terms: Terms): Result<Cert, Refusal>
  {
    if terms.notAfter <= terms.notBefore then Err(EmptyWindow)
    else
      var root := ReadSeed(files, caSeed);
      if root.Err? then Err(root.error)
      else
        var node := ReadSeed(files, nodeSeed);
        if node.Err? then Err(node.error)
        else
          var derived := s.macOf(s.edOf(node.value));
          if mac.Some? && ParseMac6(mac.value).None? then Err(BadMac)
          else if mac.Some? && ParseMac6(mac.value) != Some(derived) then Err(MacMismatch)
          else IssueWithFlags(s, root.value, meshId, derived, s.edOf(node.value), s.xOf(node.value), terms)
  }

  /** `cert approve`: sign for the request at `request`, never seeing a seed. */
  function Approve(s: Scheme, files: Files, caSeed: string, meshId: nat, request: string, terms: Terms)
    : Result<Cert, Refusal>
  {
    if terms.notAfter <= terms.notBefore then Err(EmptyWindow)
    else if request !in files then Err(Unreadable(request))
    else if !files[request].CsrFile? then Err(BadRequest)
    else
      var req := files[request].csr;
      if |req.mac| != 6 || |req.ed| != 32 || |req.x| != 32 then Err(BadLength)
      else if req.mac != s.macOf(req.ed) then Err(MacMismatch)
      else
        var root := ReadSeed(files, caSeed);
        if root.Err? then Err(root.error)
        else IssueWithFlags(s, root.value, meshId, req.mac, req.ed, req.x, terms)
  }

  // ------------------------------------------------------- asking a node about itself

  /** What a node answers: its address, whether it is a provider, and its keys. */
  datatype NodeReply = NodeReply(nodeId: Bytes, provider: bool, ed: Bytes, x: Bytes)

  datatype RequestError = IsProvider | NoIdentity | MalformedKeys | ShortAddress | OldBuild

  /** `csr request`: describe the connected node, or say why it cannot be. */
  function RequestFor(s: Scheme, node: NodeReply, token: string): Result<Csr, RequestError>
  {
    if node.provider then Err(IsProvider)
    else if node.ed == [] || node.x == [] then Err(NoIdentity)
    else if |node.ed| != 32 || |node.x| != 32 then Err(MalformedKeys)
    else if |node.nodeId| != 6 then Err(ShortAddress)
    else if s.macOf(node.ed) != node.nodeId then Err(OldBuild)
    else Ok(Csr(s.macOf(node.ed), node.ed, node.x, token))
  }

  /** The answers of a node that runs under the identity of `seed`. */
  function Running(s: Scheme, seed: Bytes): NodeReply
  {
    NodeReply(s.macOf(s.edOf(seed)), false, s.edOf(seed), s.xOf(seed))
  }

  /** A request is built exactly for a node that is no provider and runs under the
      address its own 32-byte key derives, and it names that node and no other. */
  lemma RequestForIff(s: Scheme, node: NodeReply, token: string)
    requires s.Sound()
    ensures RequestFor(s, node, token).Ok? <==>
            !node.provider && |node.ed| == 32 && |node.x| == 32 && node.nodeId == s.macOf(node.ed)
    ensures RequestFor(s, node, token).Ok? ==>
              RequestFor(s, node, token).value == Csr(node.nodeId, node.ed, node.x, token)
  {
    assert |s.macOf(node.ed)| == 6;
  }

  /** Why a node cannot be described, the first reason that applies. */
  lemma RequestRefused(s: Scheme, node: NodeReply, token: string)
    requires s.Sound()
    ensures var r := RequestFor(s, node, token);
            var keys := |node.ed| == 32 && |node.x| == 32;
            && (r == Err(IsProvider) <==> node.provider)
            && (r == Err(NoIdentity) <==> !node.provider && (|node.ed| == 0 || |node.x| == 0))
            && (r == Err(MalformedKeys) <==> !node.provider && |node.ed| > 0 && |node.x| > 0 && !keys)
            && (r == Err(ShortAddress) <==> !node.provider && keys && |node.nodeId| != 6)
            && (r == Err(OldBuild) <==>
                  !node.provider && keys && |node.nodeId| == 6 && node.nodeId != s.macOf(node.ed))
  {
  }

  // ----------------------------------------------------------------- the two paths

  /** Approving the request a node makes gives, in every case, what issuing from
      its seed gives: the same certificate or the same refusal. */
  lemma ApproveMatchesIssue(s: Scheme, files: Files, caSeed: string, meshId: nat, nodeSeed: string, request: string,
                            token: string, terms: Terms)
    requires s.Sound()
    requires ReadSeed(files, nodeSeed).Ok?
    requires request in files && files[request].CsrFile?
    requires RequestFor(s, Running(s, ReadSeed(files, nodeSeed).value), token) == Ok(files[request].csr)
    ensures Approve(s, files, caSeed, meshId, request, terms)
         == Issue(s, files, caSeed, meshId, None, nodeSeed, terms)
  {
    var seed := ReadSeed(files, nodeSeed).value;
    assert |s.edOf(seed)| == 32 && |s.xOf(seed)| == 32;
    assert |s.macOf(s.edOf(seed))| == 6;
  }

  /** Naming the address changes the answer only by refusing a wrong one. */
  lemma NamedMacOnlyChecks(s: Scheme, files: Files, caSeed: string, meshId: nat, mac: string, nodeSeed: string,
                           terms: Terms)
    ensures var plain := Issue(s, files, caSeed, meshId, None, nodeSeed, terms);
            var named := Issue(s, files, caSeed, meshId, Some(mac), nodeSeed, terms);
            named == plain || named in {Err(BadMac), Err(MacMismatch)}
    ensures ReadSeed(files, nodeSeed).Ok? ==>
              (ParseMac6(mac) == Some(s.macOf(s.edOf(ReadSeed(files, nodeSeed).value))) ==>
                 Issue(s, files, caSeed, meshId, Some(mac), nodeSeed, terms) ==
                 Issue(s, files, caSeed, meshId, None, nodeSeed, terms))
  {
  }

  /** A wrong address is refused, and so is a spelling of none, wherever the node's seed
      can be read at all. */
  lemma WrongMacRefused(s: Scheme, files: Files, caSeed: string, meshId: nat, m: Bytes, mac: string, nodeSeed: string,
                        terms: Terms)
    requires Issue(s, files, caSeed, meshId, None, nodeSeed, terms).Ok? && |m| == 6
    ensures ReadSeed(files, nodeSeed).Ok?
    ensures var named := Issue(s, files, caSeed, meshId, Some(Colons(m)), nodeSeed, terms);
            if m == s.macOf(s.edOf(ReadSeed(files, nodeSeed).value))
            then named == Issue(s, files, caSeed, meshId, None, nodeSeed, terms)
            else named == Err(MacMismatch)
    ensures ParseId(mac).None? || |ParseId(mac).value| != 6 ==>
              Issue(s, files, caSeed, meshId, Some(mac), nodeSeed, terms) == Err(BadMac)
  {
    ParseUndoesColons(m);
  }

  /** The file at `path` holds these 32 bytes. */
  predicate HoldsSeed(files: Files, path: string, seed: Bytes)
  {
    |seed| == 32 && path in files && files[path] == Raw(seed)
  }

  /** Signing from a seed succeeds exactly with a non-empty window, both seeds, at most
      one capability and a sound agreement key; what is signed is then determined field
      by field. */
  lemma IssueExact(s: Scheme, files: Files, caSeed: string, meshId: nat, nodeSeed: string, terms: Terms, root: Bytes,
                   seed: Bytes)
    requires HoldsSeed(files, caSeed, root) && HoldsSeed(files, nodeSeed, seed)
    ensures var r := Issue(s, files, caSeed, meshId, None, nodeSeed, terms);
            && (r.Ok? <==> terms.notBefore < terms.notAfter && !(terms.admin && terms.viewer)
                           && !s.lowOrder(s.xOf(seed)))
            && (r.Ok? ==>
                  && Genuine(s, root, meshId, r.value)
                  && r.value.body == Body(1, if terms.admin then {User, Admin} else if terms.viewer then {User, Viewer}
                                             else {Member},
                                          meshId, s.macOf(s.edOf(seed)), s.edOf(seed), s.xOf(seed), terms.notBefore,
                                          terms.notAfter))
  {
  }

  /** Without either seed it is refused. */
  lemma NoSeedNoCert(s: Scheme, files: Files, caSeed: string, meshId: nat, mac: Option<string>, nodeSeed: string,
                     terms: Terms)
    requires (forall root :: !HoldsSeed(files, caSeed, root)) || (forall seed :: !HoldsSeed(files, nodeSeed, seed))
    ensures Issue(s, files, caSeed, meshId, mac, nodeSeed, terms).Err?
  {
    if ReadSeed(files, caSeed).Ok? {
      assert HoldsSeed(files, caSeed, ReadSeed(files, caSeed).value);
    }
    if ReadSeed(files, nodeSeed).Ok? {
      assert HoldsSeed(files, nodeSeed, ReadSeed(files, nodeSeed).value);
    }
  }

  /** Only a request for the address its own key derives is signed, for what it says. */
  lemma ApproveExact(s: Scheme, files: Files, caSeed: string, meshId: nat, request: string, terms: Terms, root: Bytes,
                     req: Csr)
    requires HoldsSeed(files, caSeed, root) && request in files && files[request] == CsrFile(req)
    ensures var r := Approve(s, files, caSeed, meshId, request, terms);
            && (r.Ok? <==> terms.notBefore < terms.notAfter && !(terms.admin && terms.viewer) && !s.lowOrder(req.x)
                           && |req.mac| == 6 && |req.ed| == 32 && |req.x| == 32 && req.mac == s.macOf(req.ed))
            && (r.Ok? ==>
                  && Genuine(s, root, meshId, r.value)
                  && r.value.body == Body(1, if terms.admin then {User, Admin} else if terms.viewer then {User, Viewer}
                                             else {Member},
                                          meshId, req.mac, req.ed, req.x, terms.notBefore, terms.notAfter))
  {
  }

  /** What both paths promise of a certificate they sign. */
  ghost predicate WellIssued(s: Scheme, root: Bytes, meshId: nat, terms: Terms, cert: Cert)
  {
    && Genuine(s, root, meshId, cert)
    && cert.body.notBefore == terms.notBefore < terms.notAfter == cert.body.notAfter
    && !({Admin, Viewer} <= cert.body.flags)
    && (Member in cert.body.flags <==> !terms.admin && !terms.viewer)
    && (Admin in cert.body.flags <==> terms.admin)
    && (Viewer in cert.body.flags <==> terms.viewer)
    && !s.lowOrder(cert.body.x)
  }

  /** The offline tool, over the files it reads and writes. */
  class Workbench {
    var files: Files

    constructor (files: Files)
      ensures this.files == files
    {
      this.files := files;
    }

    method IssueCert(s: Scheme, caSeed: string, meshId: nat, mac: Option<string>, nodeSeed: string, terms: Terms,
                     out: string) returns (r: Result<Cert, Refusal>)
      modifies this
      ensures r == Issue(s, old(files), caSeed, meshId, mac, nodeSeed, terms)
      ensures r.Ok? ==> files == old(files)[out := CertFile(r.value)]
      ensures r.Err? ==> files == old(files)
      ensures r.Ok? ==> WellIssued(s, ReadSeed(old(files), caSeed).value, meshId, terms, r.value)
    {
      if terms.notAfter <= terms.notBefore {
        return Err(EmptyWindow);
      }
      var root := ReadSeed(files, caSeed);
      if root.Err? {
        return Err(root.error);
      }
      var node := ReadSeed(files, nodeSeed);
      if node.Err? {
        return Err(node.error);
      }
      var derived := s.macOf(s.edOf(node.value));
      if mac.Some? {
        var named := ParseMac6(mac.value);
        if named.None? {
          return Err(BadMac);
        }
        if named.value != derived {
          return Err(MacMismatch);
        }
      }
      r := IssueWithFlags(s, root.value, meshId, derived, s.edOf(node.value), s.xOf(node.value), terms);
      if r.Ok? {
        files := files[out := CertFile(r.value)];
      }
    }

    method ApproveRequest(s: Scheme, caSeed: string, meshId: nat, request: string, terms: Terms, out: string)
      returns (r: Result<Cert, Refusal>)
      modifies this
      ensures r == Approve(s, old(files), caSeed, meshId, request, terms)
      ensures r.Ok? ==> files == old(files)[out := CertFile(r.value)]
      ensures r.Err? ==> files == old(files)
      ensures r.Ok? ==> WellIssued(s, ReadSeed(old(files), caSeed).value, meshId, terms, r.value)
    {
      if terms.notAfter <= terms.notBefore {
        return Err(EmptyWindow);
      }
      if request !in files {
        return Err(Unreadable(request));
      }
      if !files[request].CsrFile? {
        return Err(BadRequest);
      }
      var req := files[request].csr;
      if |req.mac| != 6 || |req.ed| != 32 || |req.x| != 32 {
        return Err(BadLength);
      }
      if req.mac != s.macOf(req.ed) {
        return Err(MacMismatch);
      }
      var root := ReadSeed(files, caSeed);
      if root.Err? {
        return Err(root.error);
      }
      r := IssueWithFlags(s, root.value, meshId, req.mac, req.ed, req.x, terms);
      if r.Ok? {
        files := files[out := CertFile(r.value)];
      }
    }

    method WriteRequest(s: Scheme, node: NodeReply, token: string, out: string) returns (r: Result<Csr, RequestError>)
      modifies this
      ensures r == RequestFor(s, node, token)
      ensures r.Ok? ==> files == old(files)[out := CsrFile(r.value)]
      ensures r.Err? ==> files == old(files)
    {
      r := RequestFor(s, node, token);
      if r.Ok? {
        files := files[out := CsrFile(r.value)];
      }
    }
  }
}
