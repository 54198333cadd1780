// bins/wayfinder-ctl/src/csr.rs, `submit` and `install`: carry a request file to
// the provider, bring certificate and anchor back as files, and check the pair
// before a node is handed it.
module RequestRelay {
  import opened Wrappers
  import opened Identifiers
  import opened Credentials
  import opened Authority
  import opened AuthorityStore
  import opened Enrollment

  datatype RelayError =
    | NoRequest(path: string)
    | Failed(problem: Problem)
    | Refused
    | AwaitingApproval
    | NotACert(path: string)
    | NotAnAnchor(path: string)
    | OtherMesh

  /** `read_credential`: the two files as a pair of one mesh. */
  function ReadCredential(files: Files, cert: string, anchor: string): Result<(Cert, Anchor), RelayError>
  {
    if cert !in files || !files[cert].CertFile? then Err(NotACert(cert))
    else if anchor !in files || !files[anchor].AnchorFile? then Err(NotAnAnchor(anchor))
    else if files[cert].cert.body.meshId != files[anchor].anchor.meshId then Err(OtherMesh)
    else Ok((files[cert].cert, files[anchor].anchor))
  }

  /** The files after an issued submission, in the order they are written. */
  function Delivered(files: Files, outCert: string, outAnchor: string, cert: Cert, anchor: Anchor): Files
  {
    files[outCert := CertFile(cert)][outAnchor := AnchorFile(anchor)]
  }

  /** What a submission wrote can be installed if and only if it was told two
      different files; then it is what the provider issued, byte for byte. */
  lemma InstallableIff(c: Config, files: Files, outCert: string, outAnchor: string, cert: Cert)
    requires SoundCert(c, cert)
    ensures var after := Delivered(files, outCert, outAnchor, cert, OurAnchor(c));
            && (ReadCredential(after, outCert, outAnchor).Ok? <==> outCert != outAnchor)
            && (outCert != outAnchor ==> ReadCredential(after, outCert, outAnchor) == Ok((cert, OurAnchor(c))))
  {
  }

  /** The pair check refuses a certificate of another mesh exactly where a node under
      that anchor would. */
  lemma OtherMeshIff(s: Scheme, files: Files, cert: string, anchor: string, clock: Clock)
    requires cert in files && files[cert].CertFile? && anchor in files && files[anchor].AnchorFile?
    requires files[cert].cert.body.version == CERT_VERSION
    ensures ReadCredential(files, cert, anchor) ==
            if Verify(s, files[anchor].anchor, files[cert].cert, clock) == Some(WrongMesh) then Err(OtherMesh)
            else Ok((files[cert].cert, files[anchor].anchor))
  {
  }

  class Courier {
    var files: Files

    constructor (files: Files)
      ensures this.files == files
    {
      this.files := files;
    }

    /** Only an issued reply writes anything, and what it writes is the provider's
        certificate for the keys in the request file. */
    method SubmitRequest(provider: CertAuthority, request: string, outCert: string, outAnchor: string)
      returns (r: Result<Cert, RelayError>)
      requires provider.Valid() && Inv(provider.config, provider.ca)
      modifies this, provider`held, provider`issued, provider`ca
      ensures provider.Valid() && Inv(provider.config, provider.ca)
      ensures r.Err? ==> files == old(files)
      ensures r.Ok? ==> files == Delivered(old(files), outCert, outAnchor, r.value, OurAnchor(provider.config))
      ensures request in old(files) && old(files)[request].CsrFile? ==>
                var csr := old(files)[request].csr;
                var answer := Submit(provider.config, old(provider.ca), csr);
                && provider.ca == answer.ca
                && (r == Err(AwaitingApproval) <==> answer.reply == Ok(Parked))
                && (r == Err(Refused) <==> answer.reply == Ok(Rejected))
                && (r.Ok? <==> answer.reply.Ok? && answer.reply.value.Issued?)
                && (r.Ok? ==>
                      SoundCert(provider.config, r.value) && r.value.body.ed == csr.ed && r.value.body.x == csr.x)
      ensures !(request in old(files) && old(files)[request].CsrFile?) ==>
                r == Err(NoRequest(request)) && provider.ca == old(provider.ca)
    {
      if request !in files || !files[request].CsrFile? {
        return Err(NoRequest(request));
      }
      var csr := files[request].csr;
      SubmitKeeps(provider.config, provider.ca, csr);
      IssuedForAsker(provider.config, provider.ca, csr);
      var reply := provider.SubmitCsr(csr);
      match reply
      case Err(problem) => return Err(Failed(problem));
      case Ok(Rejected) => return Err(Refused);
      case Ok(Parked) => return Err(AwaitingApproval);
      case Ok(Issued(cert, anchor)) =>
        files := files[outCert := CertFile(cert)];
        files := files[outAnchor := AnchorFile(anchor)];
        return Ok(cert);
    }
  }
}
