/** `lkm_sign`: read the module, obtain a signature (computed with CMS, or
    read from a raw signature file), append the signature, the trailer
    record and the magic marker, write the result to the destination and,
    without `--dest`, move it over the module. Each failure the model
    distinguishes (a missing file, a failed decode or signature, a file that
    cannot be created or written in full, an overlong signature, a failed
    rename) is a `SignError` that ends the run. */
module Signer {
  import opened Wrappers
  import opened Bytes
  import opened ModSig
  import opened Trailer
  import opened Options
  import opened Certificate
  import opened FileSystem

  /** Objects of the cryptographic library, known only through `Crypto`. */
  type PrivateKey
  type X509
  type CmsContentInfo

  /** The cryptographic collaborator: PEM/DER decoding, CMS signing (detached,
      binary, no certificates, no attributes, no S/MIME capabilities) and DER
      output. Each may fail. */
  datatype Crypto = Crypto(
    privateKeyFromPem: seq<byte> -> Option<PrivateKey>,
    x509FromDer: seq<byte> -> Option<X509>,
    x509FromPem: seq<byte> -> Option<X509>,
    cmsSign: (X509, PrivateKey, seq<byte>) -> Option<CmsContentInfo>,
    toDer: CmsContentInfo -> Option<seq<byte>>)

  datatype SignError =
    | OpenModule(path: Path)
    | OpenPrivateKey(path: Path)
    | BadPrivateKey
    | OpenX509(path: Path)
    | X509TooShort
    | BadDerX509
    | BadPemX509
    | CmsSignFailed
    | DerConversionFailed
    | CreateSigFile(path: Path)
    | WriteSigFile(path: Path)
    | OpenRawSig(path: Path)
    | SigLenOverflow(len: nat)
    | CreateDest(path: Path)
    | WriteDest(path: Path)
    | ReplaceFailed(from: Path, to: Path)

  /** What a run did: how it ended and the file effects it performed. */
  datatype Trace = Trace(outcome: Outcome<SignError>, log: seq<Effect>)

  /** `<module>.p7s`, where `--save-sig` stores the detached signature. */
  function SigFileName(moduleFile: Path): (p: Path)
    ensures p != moduleFile
  {
    moduleFile + ".p7s"
  }

  /** `read_private_key`: open the file, then decode it as PEM. */
  function ReadPrivateKey(fs: Fs, path: Path, crypto: Crypto): (r: Result<PrivateKey, SignError>)
    ensures path !in fs.files ==> r == Failure(OpenPrivateKey(path))
    ensures path in fs.files && crypto.privateKeyFromPem(fs.files[path]).None? ==> r == Failure(BadPrivateKey)
    ensures r.Success? <==> path in fs.files && crypto.privateKeyFromPem(fs.files[path]).Some?
    ensures r.Success? ==> crypto.privateKeyFromPem(fs.files[path]) == Some(r.value)
  {
    match Read(fs, path)
    case None => Failure(OpenPrivateKey(path))
    case Some(data) =>
      match crypto.privateKeyFromPem(data)
      case None => Failure(BadPrivateKey)
      case Some(key) => Success(key)
  }

  /** `read_x509`: open the file, choose DER or PEM from its first two bytes,
      then decode it in that encoding only. */
  function ReadX509(fs: Fs, path: Path, crypto: Crypto): (r: Result<X509, SignError>)
    ensures path !in fs.files ==> r == Failure(OpenX509(path))
    ensures path in fs.files && SniffEncoding(fs.files[path]).Failure? ==> r == Failure(X509TooShort)
    ensures path in fs.files && SniffEncoding(fs.files[path]) == Success(Der) ==>
      r == (match crypto.x509FromDer(fs.files[path]) case Some(c) => Success(c) case None => Failure(BadDerX509))
    ensures path in fs.files && SniffEncoding(fs.files[path]) == Success(Pem) ==>
      r == (match crypto.x509FromPem(fs.files[path]) case Some(c) => Success(c) case None => Failure(BadPemX509))
  {
    match Read(fs, path)
    case None => Failure(OpenX509(path))
    case Some(data) =>
      match SniffEncoding(data)
      case Failure(_) => Failure(X509TooShort)
      case Success(Der) =>
        (match crypto.x509FromDer(data) case Some(c) => Success(c) case None => Failure(BadDerX509))
      case Success(Pem) =>
        (match crypto.x509FromPem(data) case Some(c) => Success(c) case None => Failure(BadPemX509))
  }

  /** The direct path's signature: the key is loaded before the certificate,
      and the DER form of the CMS container over the module is the blob. */
  function CmsSignature(opts: SignerOptions, fs: Fs, crypto: Crypto, kmod: seq<byte>): (r: Result<seq<byte>, SignError>)
    ensures ReadPrivateKey(fs, opts.keyFile, crypto).Failure? ==> r == Failure(ReadPrivateKey(fs, opts.keyFile, crypto).error)
    ensures ReadPrivateKey(fs, opts.keyFile, crypto).Success? && ReadX509(fs, opts.x509File, crypto).Failure? ==>
      r == Failure(ReadX509(fs, opts.x509File, crypto).error)
    ensures r.Success? ==> ReadPrivateKey(fs, opts.keyFile, crypto).Success? && ReadX509(fs, opts.x509File, crypto).Success?
    ensures ReadPrivateKey(fs, opts.keyFile, crypto).Success? && ReadX509(fs, opts.x509File, crypto).Success? ==>
      var key := ReadPrivateKey(fs, opts.keyFile, crypto).value;
      var cert := ReadX509(fs, opts.x509File, crypto).value;
      && (crypto.cmsSign(cert, key, kmod).None? ==> r == Failure(CmsSignFailed))
      && (crypto.cmsSign(cert, key, kmod).Some? && crypto.toDer(crypto.cmsSign(cert, key, kmod).value).None? ==>
            r == Failure(DerConversionFailed))
      && (crypto.cmsSign(cert, key, kmod).Some? && crypto.toDer(crypto.cmsSign(cert, key, kmod).value).Some? ==>
            r.Success?)
    ensures r.Success? ==>
      var key := ReadPrivateKey(fs, opts.keyFile, crypto).value;
      var cert := ReadX509(fs, opts.x509File, crypto).value;
      crypto.cmsSign(cert, key, kmod).Some? && crypto.toDer(crypto.cmsSign(cert, key, kmod).value) == Some(r.value)
  {
    var key :- ReadPrivateKey(fs, opts.keyFile, crypto);
    var x509 :- ReadX509(fs, opts.x509File, crypto);
    match crypto.cmsSign(x509, key, kmod)
    case None => Failure(CmsSignFailed)
    case Some(cms) =>
      match crypto.toDer(cms)
      case None => Failure(DerConversionFailed)
      case Some(der) => Success(der)
  }

  /** The signature blob of either path: computed, or the raw file's bytes
      exactly as read. */
  function SignatureBlob(opts: SignerOptions, fs: Fs, crypto: Crypto, kmod: seq<byte>): (r: Result<seq<byte>, SignError>)
    ensures opts.rawSig ==> r == (if opts.rawSigfile in fs.files then Success(fs.files[opts.rawSigfile])
                                  else Failure(OpenRawSig(opts.rawSigfile)))
    ensures !opts.rawSig ==> r == CmsSignature(opts, fs, crypto, kmod)
  {
    if opts.rawSig then
      match Read(fs, opts.rawSigfile)
      case None => Failure(OpenRawSig(opts.rawSigfile))
      case Some(raw) => Success(raw)
    else CmsSignature(opts, fs, crypto, kmod)
  }

  /** The common tail of both paths: record the length, write the signed
      image to the destination and, when replacing, rename it over the module. */
  function Finish(opts: SignerOptions, fs: Fs, kmod: seq<byte>, signature: seq<byte>): Trace
  {
    if SigInfoFor(|signature|).None? then Trace(Fail(SigLenOverflow(|signature|)), [])
    else if !CanWrite(fs, opts.dest) then Trace(Fail(CreateDest(opts.dest)), [])
    else
      var image := SignedImage(kmod, signature);
      var written := Write(opts.dest, Stored(fs, opts.dest, image));
      if !Fits(fs, opts.dest, |image|) then Trace(Fail(WriteDest(opts.dest)), [written])
      else if !opts.replaceOrig then Trace(Pass, [written])
      else if !CanRename(Apply(fs, written), opts.dest, opts.moduleFile) then
        Trace(Fail(ReplaceFailed(opts.dest, opts.moduleFile)), [written])
      else Trace(Pass, [written, Rename(opts.dest, opts.moduleFile)])
  }

  /** What follows once the module and the signature are in hand: on the
      direct path the optional `.p7s` file and the `--sign-only` stop, then
      the common tail. */
  function AfterSignature(opts: SignerOptions, fs: Fs, kmod: seq<byte>, signature: seq<byte>): Trace
  {
    if opts.rawSig then Finish(opts, fs, kmod, signature)
    else
      var sigFile := SigFileName(opts.moduleFile);
      if opts.saveSig && !CanWrite(fs, sigFile) then Trace(Fail(CreateSigFile(sigFile)), [])
      else
        var saved := if opts.saveSig then [Write(sigFile, Stored(fs, sigFile, signature))] else [];
        if opts.saveSig && !Fits(fs, sigFile, |signature|) then Trace(Fail(WriteSigFile(sigFile)), saved)
        else if opts.signOnly then Trace(Pass, saved)
        else
          var rest := Finish(opts, Replay(fs, saved), kmod, signature);
          Trace(rest.outcome, saved + rest.log)
  }

  /** A run of `lkm_sign`, stated as the trace it produces. */
  function Run(opts: SignerOptions, fs: Fs, crypto: Crypto): Trace
  {
    match Read(fs, opts.moduleFile)
    case None => Trace(Fail(OpenModule(opts.moduleFile)), [])
    case Some(kmod) =>
      match SignatureBlob(opts, fs, crypto, kmod)
      case Failure(e) => Trace(Fail(e), [])
      case Success(signature) => AfterSignature(opts, fs, kmod, signature)
  }

  /** `lkm_sign` step by step: the module contents grow by the signature, the
      encoded record and the marker, and each file effect is performed on the
      file system as it happens. */
  method LkmSign(opts: SignerOptions, fs0: Fs, crypto: Crypto) returns (outcome: Outcome<SignError>, fs: Fs, log: seq<Effect>)
    ensures Trace(outcome, log) == Run(opts, fs0, crypto)
    ensures Performable(fs0, log) && fs == Replay(fs0, log)
  {
    fs, log := fs0, [];

    var moduleRead := Read(fs, opts.moduleFile);
    if moduleRead.None? {
      outcome := Fail(OpenModule(opts.moduleFile));
      return;
    }
    var kmodContents := moduleRead.value;
    ghost var kmod := kmodContents;

    var signature: seq<byte> := [];
    if !opts.rawSig {
      var signed := CmsSignature(opts, fs, crypto, kmodContents);
      if signed.Failure? {
        outcome := Fail(signed.error);
        return;
      }
      signature := signed.value;
      assert SignatureBlob(opts, fs0, crypto, kmod) == Success(signature);

      if opts.saveSig {
        var sigFileName := SigFileName(opts.moduleFile);
        if !CanWrite(fs, sigFileName) {
          outcome := Fail(CreateSigFile(sigFileName));
          return;
        }
        var saved := Write(sigFileName, Stored(fs, sigFileName, signature));
        ReplaySnoc(fs0, log, saved);
        fs, log := Apply(fs, saved), log + [saved];
        if !Fits(fs0, sigFileName, |signature|) {
          outcome := Fail(WriteSigFile(sigFileName));
          return;
        }
      }

      kmodContents := kmodContents + signature;

      if opts.signOnly {
        outcome := Pass;
        return;
      }
    } else {
      var raw := Read(fs, opts.rawSigfile);
      if raw.None? {
        outcome := Fail(OpenRawSig(opts.rawSigfile));
        return;
      }
      signature := signature + raw.value;
      assert signature == raw.value;
      kmodContents := kmodContents + signature;
    }
    assert kmodContents == kmod + signature;
    ghost var saved := log;
    assert SignatureBlob(opts, fs0, crypto, kmod) == Success(signature);
    assert fs == Replay(fs0, saved);
    ghost var rest := Finish(opts, fs, kmod, signature);
    assert AfterSignature(opts, fs0, kmod, signature) == Trace(rest.outcome, saved + rest.log) by {
      if opts.rawSig {
        assert saved == [] && saved + rest.log == rest.log;
      }
    }
    var tailLog;
    outcome, fs, tailLog := AppendTrailer(opts, fs, kmod, kmodContents, signature);
    log := log + tailLog;
    ReplayConcat(fs0, saved, tailLog);
  }

  /** The tail of `lkm_sign`, from setting `sig_len` onwards: `kmodContents`
      already holds the module followed by the signature. */
  method AppendTrailer(opts: SignerOptions, fs0: Fs, ghost kmod: seq<byte>, kmodContents: seq<byte>, signature: seq<byte>)
    returns (outcome: Outcome<SignError>, fs: Fs, log: seq<Effect>)
    requires kmodContents == kmod + signature
    ensures Trace(outcome, log) == Finish(opts, fs0, kmod, signature)
    ensures Performable(fs0, log) && fs == Replay(fs0, log)
  {
    fs, log := fs0, [];
    var sigInfo := New();
    var info := SigInfoFor(|signature|);
    if info.None? {
      outcome := Fail(SigLenOverflow(|signature|));
      return;
    }
    sigInfo := sigInfo.(sigLen := info.value.sigLen);

    var contents := kmodContents;
    var siginfoBytes := Serialize(sigInfo);
    contents := contents + siginfoBytes;
    contents := contents + Magic;
    assert contents == SignedImage(kmod, signature);

    if !CanWrite(fs, opts.dest) {
      outcome := Fail(CreateDest(opts.dest));
      return;
    }
    var written := Write(opts.dest, Stored(fs, opts.dest, contents));
    ReplaySnoc(fs0, log, written);
    fs, log := Apply(fs, written), log + [written];
    if !Fits(fs0, opts.dest, |contents|) {
      outcome := Fail(WriteDest(opts.dest));
      return;
    }

    if opts.replaceOrig {
      if !CanRename(fs, opts.dest, opts.moduleFile) {
        outcome := Fail(ReplaceFailed(opts.dest, opts.moduleFile));
        return;
      }
      var replaced := Rename(opts.dest, opts.moduleFile);
      ReplaySnoc(fs0, log, replaced);
      fs, log := Apply(fs, replaced), log + [replaced];
    }
    outcome := Pass;
  }
}
