/** What a run of `lkm_sign` guarantees, stated over the trace `Run` gives:
    which files it writes, in which order, and what a loader reads back from
    the signed module. */
module SignerProperties {
  import opened Wrappers
  import opened Bytes
  import opened ModSig
  import opened Trailer
  import opened Options
  import opened FileSystem
  import opened Signer

  /** Helper for the lemmas over `Run`. Once the module and the signature are read, the run is `AfterSignature`. */
  lemma RunAfterSignature(opts: SignerOptions, fs: Fs, crypto: Crypto, kmod: seq<byte>, signature: seq<byte>)
    requires Read(fs, opts.moduleFile) == Some(kmod)
    requires SignatureBlob(opts, fs, crypto, kmod) == Success(signature)
    ensures Run(opts, fs, crypto) == AfterSignature(opts, fs, kmod, signature)
  {
  }

  /** The tail writes nothing, or the signed module (as much of it as fits)
      to the destination, and renames only after a complete write, only
      without `--dest`, and as its last step; it succeeds exactly when the
      length fits and both file operations are allowed and complete. */
  lemma FinishEffects(opts: SignerOptions, fs: Fs, kmod: seq<byte>, signature: seq<byte>)
    ensures var t := Finish(opts, fs, kmod, signature);
      && |t.log| <= 2
      && (|signature| >= 0x1_0000_0000 ==> t == Trace(Fail(SigLenOverflow(|signature|)), []))
      && (t.log != [] ==> |signature| < 0x1_0000_0000 && CanWrite(fs, opts.dest)
                          && t.log[0] == Write(opts.dest, Stored(fs, opts.dest, SignedImage(kmod, signature))))
      && (|signature| < 0x1_0000_0000 && CanWrite(fs, opts.dest)
          && !Fits(fs, opts.dest, |kmod| + |signature| + TrailerSize) ==>
            |t.log| == 1 && t.outcome == Fail(WriteDest(opts.dest)))
      && (|t.log| == 2 ==> opts.replaceOrig && t.outcome == Pass
                           && t.log[1] == Rename(opts.dest, opts.moduleFile))
      && (|t.log| == 1 && t.outcome.Fail? ==>
            t.outcome == Fail(WriteDest(opts.dest))
            || (opts.replaceOrig && t.outcome == Fail(ReplaceFailed(opts.dest, opts.moduleFile))))
      && (t.outcome == Pass ==> t.log[0] == Write(opts.dest, SignedImage(kmod, signature)))
      && (t.outcome == Pass <==>
            |signature| < 0x1_0000_0000 && WriteSucceeds(fs, opts.dest, SignedImage(kmod, signature))
            && (opts.replaceOrig ==> CanWrite(fs, opts.moduleFile)))
      && Performable(fs, t.log)
      && (forall e :: e in t.log && e.Write? ==> e.path == opts.dest)
  {
    var t := Finish(opts, fs, kmod, signature);
    if |signature| < 0x1_0000_0000 && CanWrite(fs, opts.dest) {
      var written := Write(opts.dest, Stored(fs, opts.dest, SignedImage(kmod, signature)));
      ReplayShort(fs, written, Rename(opts.dest, opts.moduleFile));
    }
  }

  /** A module or signature that cannot be obtained aborts the run before any
      file is written. */
  lemma InputFailureWritesNothing(opts: SignerOptions, fs: Fs, crypto: Crypto)
    requires opts.moduleFile !in fs.files
             || SignatureBlob(opts, fs, crypto, fs.files[opts.moduleFile]).Failure?
    ensures Run(opts, fs, crypto).outcome.Fail? && Run(opts, fs, crypto).log == []
    ensures opts.moduleFile !in fs.files ==> Run(opts, fs, crypto).outcome == Fail(OpenModule(opts.moduleFile))
  {
  }

  /** On the direct path with `--save-sig`, `<module>.p7s` is written first
      and receives exactly the computed signature; if it cannot be created
      the run aborts with nothing written, and if the write stops part-way
      the run aborts with only that partial file. Without `--save-sig` the
      destination is the only file written. */
  lemma SaveSigWritesSignature(opts: SignerOptions, fs: Fs, crypto: Crypto, kmod: seq<byte>, signature: seq<byte>)
    requires !opts.rawSig
    requires Read(fs, opts.moduleFile) == Some(kmod)
    requires CmsSignature(opts, fs, crypto, kmod) == Success(signature)
    ensures var t := Run(opts, fs, crypto);
      && (opts.saveSig && WriteSucceeds(fs, SigFileName(opts.moduleFile), signature) ==>
            t.log[0] == Write(SigFileName(opts.moduleFile), signature))
      && (opts.saveSig && !CanWrite(fs, SigFileName(opts.moduleFile)) ==>
            t == Trace(Fail(CreateSigFile(SigFileName(opts.moduleFile))), []))
      && (opts.saveSig && CanWrite(fs, SigFileName(opts.moduleFile))
          && !Fits(fs, SigFileName(opts.moduleFile), |signature|) ==>
            t == Trace(Fail(WriteSigFile(SigFileName(opts.moduleFile))),
                       [Write(SigFileName(opts.moduleFile), Stored(fs, SigFileName(opts.moduleFile), signature))]))
      && (!opts.saveSig ==> forall e :: e in t.log && e.Write? ==> e.path == opts.dest)
  {
    RunAfterSignature(opts, fs, crypto, kmod, signature);
    AfterSignatureSavesSignature(opts, fs, kmod, signature);
  }

  /** Helper for `SaveSigWritesSignature`. The `.p7s` part of `AfterSignature` on the direct path. */
  lemma AfterSignatureSavesSignature(opts: SignerOptions, fs: Fs, kmod: seq<byte>, signature: seq<byte>)
    requires !opts.rawSig
    ensures var t := AfterSignature(opts, fs, kmod, signature);
      && (opts.saveSig && WriteSucceeds(fs, SigFileName(opts.moduleFile), signature) ==>
            t.log[0] == Write(SigFileName(opts.moduleFile), signature))
      && (opts.saveSig && !CanWrite(fs, SigFileName(opts.moduleFile)) ==>
            t == Trace(Fail(CreateSigFile(SigFileName(opts.moduleFile))), []))
      && (opts.saveSig && CanWrite(fs, SigFileName(opts.moduleFile))
          && !Fits(fs, SigFileName(opts.moduleFile), |signature|) ==>
            t == Trace(Fail(WriteSigFile(SigFileName(opts.moduleFile))),
                       [Write(SigFileName(opts.moduleFile), Stored(fs, SigFileName(opts.moduleFile), signature))]))
      && (!opts.saveSig ==> forall e :: e in t.log && e.Write? ==> e.path == opts.dest)
  {
    var sigFile := SigFileName(opts.moduleFile);
    if !opts.signOnly && (opts.saveSig ==> WriteSucceeds(fs, sigFile, signature)) {
      AfterSignatureThroughTail(opts, fs, kmod, signature);
      var saved := Saved(opts, fs, signature);
      FinishEffects(opts, Replay(fs, saved), kmod, signature);
    }
  }

  /** With `--sign-only` on the direct path the run stops after the
      signature: at most the `.p7s` file is written, the module and the
      destination are untouched, and the signature length is never checked. */
  lemma SignOnlyStopsAfterSignature(opts: SignerOptions, fs: Fs, crypto: Crypto)
    requires !opts.rawSig && opts.signOnly
    ensures var t := Run(opts, fs, crypto);
      && |t.log| <= 1
      && (forall e :: e in t.log ==> e.Write? && e.path == SigFileName(opts.moduleFile))
      && SameEntry(Replay(fs, t.log), fs, opts.moduleFile)
      && (opts.dest != SigFileName(opts.moduleFile) ==> SameEntry(Replay(fs, t.log), fs, opts.dest))
      && (t.outcome == Pass <==>
            && opts.moduleFile in fs.files
            && CmsSignature(opts, fs, crypto, fs.files[opts.moduleFile]).Success?
            && (opts.saveSig ==>
                  WriteSucceeds(fs, SigFileName(opts.moduleFile), CmsSignature(opts, fs, crypto, fs.files[opts.moduleFile]).value)))
  {
    var t := Run(opts, fs, crypto);
    if t.log != [] {
      ReplayShort(fs, t.log[0], t.log[0]);
      assert t.log == [t.log[0]];
    }
  }

  /** In raw mode nothing is signed and the blob is the raw file's bytes as
      they are: the cryptographic collaborator, `--save-sig` and
      `--sign-only` make no difference, the destination is the only file
      written, and its contents frame the raw bytes unchanged. */
  lemma RawModePassesThrough(opts: SignerOptions, fs: Fs, crypto: Crypto, other: Crypto, saveSig: bool, signOnly: bool)
    requires opts.rawSig
    ensures Run(opts.(saveSig := saveSig, signOnly := signOnly), fs, other) == Run(opts, fs, crypto)
    ensures forall e :: e in Run(opts, fs, crypto).log && e.Write? ==> e.path == opts.dest
    ensures opts.moduleFile in fs.files && opts.rawSigfile in fs.files
            && |fs.files[opts.rawSigfile]| < 0x1_0000_0000 && CanWrite(fs, opts.dest) ==>
      Run(opts, fs, crypto).log[0]
        == Write(opts.dest, Stored(fs, opts.dest, SignedImage(fs.files[opts.moduleFile], fs.files[opts.rawSigfile])))
  {
    var other' := opts.(saveSig := saveSig, signOnly := signOnly);
    if opts.moduleFile in fs.files && opts.rawSigfile in fs.files {
      var kmod := fs.files[opts.moduleFile];
      var raw := fs.files[opts.rawSigfile];
      RunAfterSignature(opts, fs, crypto, kmod, raw);
      RunAfterSignature(other', fs, other, kmod, raw);
      FinishEffects(opts, fs, kmod, raw);
      assert Finish(other', fs, kmod, raw) == Finish(opts, fs, kmod, raw);
    }
  }

  /** Appending a precomputed signature in raw mode writes the same signed
      module as computing that signature directly. */
  lemma RawMatchesDirect(opts: SignerOptions, fs: Fs, crypto: Crypto, other: Crypto, rawFile: Path)
    requires !opts.rawSig && !opts.saveSig && !opts.signOnly
    requires opts.moduleFile in fs.files && rawFile in fs.files
    requires CmsSignature(opts, fs, crypto, fs.files[opts.moduleFile]) == Success(fs.files[rawFile])
    ensures Run(opts.(rawSig := true, rawSigfile := rawFile), fs, other) == Run(opts, fs, crypto)
  {
    var raw := opts.(rawSig := true, rawSigfile := rawFile);
    var kmod := fs.files[opts.moduleFile];
    RunAfterSignature(opts, fs, crypto, kmod, fs.files[rawFile]);
    RunAfterSignature(raw, fs, other, kmod, fs.files[rawFile]);
    var rest := Finish(opts, fs, kmod, fs.files[rawFile]);
    assert Replay(fs, []) == fs;
    assert [] + rest.log == rest.log;
    assert Finish(raw, fs, kmod, fs.files[rawFile]) == rest;
  }

  /** A signature of 2^32 bytes or more cannot be described by the record:
      the run fails before the destination is written or the module
      replaced; only the `.p7s` file may already exist. */
  lemma OverflowStopsBeforeDest(opts: SignerOptions, fs: Fs, crypto: Crypto, kmod: seq<byte>, signature: seq<byte>)
    requires Read(fs, opts.moduleFile) == Some(kmod)
    requires SignatureBlob(opts, fs, crypto, kmod) == Success(signature)
    requires |signature| >= 0x1_0000_0000
    requires opts.rawSig || !opts.signOnly
    ensures var t := Run(opts, fs, crypto);
      && t.outcome.Fail?
      && (forall e :: e in t.log ==>
            e == Write(SigFileName(opts.moduleFile), Stored(fs, SigFileName(opts.moduleFile), signature)))
      && (opts.rawSig || !opts.saveSig || WriteSucceeds(fs, SigFileName(opts.moduleFile), signature) ==>
            t.outcome == Fail(SigLenOverflow(|signature|)))
  {
    RunAfterSignature(opts, fs, crypto, kmod, signature);
    var sigFile := SigFileName(opts.moduleFile);
    var saved := if !opts.rawSig && opts.saveSig then [Write(sigFile, Stored(fs, sigFile, signature))] else [];
    FinishEffects(opts, Replay(fs, saved), kmod, signature);
    assert saved + [] == saved;
  }

  /** The log holds a rename. */
  predicate HasRename(log: seq<Effect>)
  {
    exists i :: 0 <= i < |log| && log[i].Rename?
  }

  /** Every rename in the log is its last effect, moves `dest` over
      `moduleFile`, and directly follows the write of `image` to `dest`. */
  predicate ReplacesLastAfter(log: seq<Effect>, dest: Path, moduleFile: Path, image: seq<byte>)
  {
    forall i :: 0 <= i < |log| && log[i].Rename? ==>
      i == |log| - 1 && i >= 1 && log[i] == Rename(dest, moduleFile) && log[i - 1] == Write(dest, image)
  }

  /** Where a rename can sit in a log made of rename-free effects followed
      by a tail whose only rename is its second and last effect. */
  lemma RenameSitsAtEnd(saved: seq<Effect>, rest: seq<Effect>, dest: Path, moduleFile: Path, image: seq<byte>)
    requires forall e :: e in saved ==> !e.Rename?
    requires |rest| <= 2 && (|rest| == 1 ==> !rest[0].Rename?)
    requires |rest| == 2 ==> rest[0] == Write(dest, image) && rest[1] == Rename(dest, moduleFile)
    ensures HasRename(saved + rest) ==> |rest| == 2
    ensures ReplacesLastAfter(saved + rest, dest, moduleFile, image)
  {
  }

  /** The effects before the tail: the `.p7s` file, when the direct path
      saves it. They leave the module path as it was. */
  function Saved(opts: SignerOptions, fs: Fs, signature: seq<byte>): seq<Effect>
  {
    if !opts.rawSig && opts.saveSig && WriteSucceeds(fs, SigFileName(opts.moduleFile), signature)
    then [Write(SigFileName(opts.moduleFile), signature)] else []
  }

  /** Helper for the lemmas over `Run`. `AfterSignature` either stops before the tail or is the saved effects
      followed by the tail, run on the file system they leave. */
  lemma AfterSignatureThroughTail(opts: SignerOptions, fs: Fs, kmod: seq<byte>, signature: seq<byte>)
    requires opts.rawSig || (!opts.signOnly && (opts.saveSig ==> WriteSucceeds(fs, SigFileName(opts.moduleFile), signature)))
    ensures var saved := Saved(opts, fs, signature);
      var rest := Finish(opts, Replay(fs, saved), kmod, signature);
      && AfterSignature(opts, fs, kmod, signature) == Trace(rest.outcome, saved + rest.log)
      && SameEntry(Replay(fs, saved), fs, opts.moduleFile)
      && Replay(fs, saved + rest.log) == Replay(Replay(fs, saved), rest.log)
  {
    var saved := Saved(opts, fs, signature);
    var rest := Finish(opts, Replay(fs, saved), kmod, signature);
    var sigFile := SigFileName(opts.moduleFile);
    ReplayShort(fs, Write(sigFile, signature), Write(sigFile, signature));
    ReplayConcat(fs, saved, rest.log);
    if opts.rawSig {
      assert saved + rest.log == rest.log;
    }
  }

  /** Helper for `AfterSignatureReplacesLast`. Where the tail's rename can be: only second and last, after the write
      of the complete signed module. */
  lemma FinishShape(opts: SignerOptions, fs: Fs, kmod: seq<byte>, signature: seq<byte>)
    ensures var t := Finish(opts, fs, kmod, signature);
      && |t.log| <= 2
      && (|signature| >= 0x1_0000_0000 ==> t.log == [])
      && (|t.log| == 1 ==> !t.log[0].Rename?)
      && (|t.log| == 2 ==> opts.replaceOrig && |signature| < 0x1_0000_0000
                           && t.log[0] == Write(opts.dest, SignedImage(kmod, signature))
                           && t.log[1] == Rename(opts.dest, opts.moduleFile))
  {
  }

  /** Helper for `AfterSignatureReplacesLast`. On the direct path, `--sign-only` or a `.p7s` file that cannot be
      written in full ends the run before the tail: at most the `.p7s` write
      is performed. */
  lemma AfterSignatureStopsEarly(opts: SignerOptions, fs: Fs, kmod: seq<byte>, signature: seq<byte>)
    requires !opts.rawSig
    requires opts.signOnly || (opts.saveSig && !WriteSucceeds(fs, SigFileName(opts.moduleFile), signature))
    ensures var t := AfterSignature(opts, fs, kmod, signature);
      && |t.log| <= 1
      && (|t.log| == 1 ==> t.log[0] == Write(SigFileName(opts.moduleFile), Stored(fs, SigFileName(opts.moduleFile), signature)))
      && !HasRename(t.log)
  {
  }

  /** Helper for `ReplaceOnlyAfterFullWrite`. Within `AfterSignature`, a rename comes last, right after the write of
      the complete signed module to the destination. */
  lemma AfterSignatureReplacesLast(opts: SignerOptions, fs: Fs, kmod: seq<byte>, signature: seq<byte>)
    ensures var t := AfterSignature(opts, fs, kmod, signature);
      HasRename(t.log) ==>
        && opts.replaceOrig && |signature| < 0x1_0000_0000
        && ReplacesLastAfter(t.log, opts.dest, opts.moduleFile, SignedImage(kmod, signature))
  {
    var t := AfterSignature(opts, fs, kmod, signature);
    var sigFile := SigFileName(opts.moduleFile);
    var saved := Saved(opts, fs, signature);
    assert forall e :: e in saved ==> !e.Rename?;
    if !opts.rawSig && (opts.signOnly || (opts.saveSig && !WriteSucceeds(fs, sigFile, signature))) {
      AfterSignatureStopsEarly(opts, fs, kmod, signature);
      return;
    }
    AfterSignatureThroughTail(opts, fs, kmod, signature);
    var rest := Finish(opts, Replay(fs, saved), kmod, signature);
    assert t.log == saved + rest.log;
    FinishShape(opts, Replay(fs, saved), kmod, signature);
    if |signature| >= 0x1_0000_0000 {
      assert rest.log == [];
      assert t.log == saved;
      return;
    }
    RenameSitsAtEnd(saved, rest.log, opts.dest, opts.moduleFile, SignedImage(kmod, signature));
    if HasRename(t.log) {
      assert |rest.log| == 2;
    }
  }

  /** The module is replaced only as the run's last step, only without
      `--dest`, and only right after the destination was written in full
      with this run's signed module: the original module's bytes followed
      by its signature, record and marker. */
  lemma ReplaceOnlyAfterFullWrite(opts: SignerOptions, fs: Fs, crypto: Crypto)
    ensures var t := Run(opts, fs, crypto);
      forall i :: 0 <= i < |t.log| && t.log[i].Rename? ==>
        && opts.replaceOrig
        && i == |t.log| - 1 && i >= 1
        && t.log[i] == Rename(opts.dest, opts.moduleFile)
        && opts.moduleFile in fs.files
        && SignatureBlob(opts, fs, crypto, fs.files[opts.moduleFile]).Success?
        && |SignatureBlob(opts, fs, crypto, fs.files[opts.moduleFile]).value| < 0x1_0000_0000
        && t.log[i - 1] == Write(opts.dest, SignedImage(fs.files[opts.moduleFile],
                                                        SignatureBlob(opts, fs, crypto, fs.files[opts.moduleFile]).value))
    ensures !opts.replaceOrig ==> forall e :: e in Run(opts, fs, crypto).log ==> !e.Rename?
  {
    var t := Run(opts, fs, crypto);
    if opts.moduleFile in fs.files && SignatureBlob(opts, fs, crypto, fs.files[opts.moduleFile]).Success? {
      var kmod := fs.files[opts.moduleFile];
      var signature := SignatureBlob(opts, fs, crypto, kmod).value;
      RunAfterSignature(opts, fs, crypto, kmod, signature);
      AfterSignatureReplacesLast(opts, fs, kmod, signature);
    }
    forall e | e in t.log ensures !opts.replaceOrig ==> !e.Rename? {
      if e.Rename? {
        var i :| 0 <= i < |t.log| && t.log[i] == e;
        assert HasRename(t.log);
      }
    }
  }

  /** Helper for `CompletedRunFinalFiles`. After a completed tail, the module path (without `--dest`) or the
      destination (with it) holds the signed module. */
  lemma FinishFinalFiles(opts: SignerOptions, fs: Fs, kmod: seq<byte>, signature: seq<byte>)
    requires Finish(opts, fs, kmod, signature).outcome == Pass
    ensures |signature| < 0x1_0000_0000
    ensures var after := Replay(fs, Finish(opts, fs, kmod, signature).log);
      && (opts.replaceOrig ==>
            && opts.moduleFile in after.files
            && after.files[opts.moduleFile] == SignedImage(kmod, signature)
            && (opts.dest != opts.moduleFile ==> opts.dest !in after.files))
      && (!opts.replaceOrig ==>
            && opts.dest in after.files
            && after.files[opts.dest] == SignedImage(kmod, signature)
            && (opts.dest != opts.moduleFile ==> SameEntry(after, fs, opts.moduleFile)))
  {
    var written := Write(opts.dest, SignedImage(kmod, signature));
    ReplayShort(fs, written, Rename(opts.dest, opts.moduleFile));
  }

  /** Helper for `CompletedRunWritesSignedModule`. A completed `AfterSignature` (other than `--sign-only`) writes the
      signed module to the destination. */
  lemma AfterSignatureWritesImage(opts: SignerOptions, fs: Fs, kmod: seq<byte>, signature: seq<byte>)
    requires AfterSignature(opts, fs, kmod, signature).outcome == Pass
    requires opts.rawSig || !opts.signOnly
    ensures |signature| < 0x1_0000_0000
    ensures Write(opts.dest, SignedImage(kmod, signature)) in AfterSignature(opts, fs, kmod, signature).log
  {
    AfterSignatureThroughTail(opts, fs, kmod, signature);
    var saved := Saved(opts, fs, signature);
    var rest := Finish(opts, Replay(fs, saved), kmod, signature);
    FinishEffects(opts, Replay(fs, saved), kmod, signature);
    assert (saved + rest.log)[|saved|] == rest.log[0];
  }

  /** A completed run (other than `--sign-only`) writes the signed module
      `module ++ signature ++ record ++ MAGIC` to the destination; read back
      from its end it yields the module, the signature and a record that is
      `ModuleSignature::new()` with `sig_len` set. */
  lemma CompletedRunWritesSignedModule(opts: SignerOptions, fs: Fs, crypto: Crypto, kmod: seq<byte>, signature: seq<byte>)
    requires Read(fs, opts.moduleFile) == Some(kmod)
    requires SignatureBlob(opts, fs, crypto, kmod) == Success(signature)
    requires Run(opts, fs, crypto).outcome == Pass
    requires opts.rawSig || !opts.signOnly
    ensures |signature| < 0x1_0000_0000
    ensures Write(opts.dest, SignedImage(kmod, signature)) in Run(opts, fs, crypto).log
    ensures Split(SignedImage(kmod, signature))
            == Some(Unpacked(kmod, signature, New().(sigLen := |signature|)))
  {
    RunAfterSignature(opts, fs, crypto, kmod, signature);
    AfterSignatureWritesImage(opts, fs, kmod, signature);
    SplitSignedImage(kmod, signature);
  }

  /** Without `--dest` a completed run leaves the signed module at the
      module path and removes the temporary file; with `--dest` the signed
      module is at the destination and the module keeps its bytes. */
  lemma CompletedRunFinalFiles(opts: SignerOptions, fs: Fs, crypto: Crypto, kmod: seq<byte>, signature: seq<byte>)
    requires Read(fs, opts.moduleFile) == Some(kmod)
    requires SignatureBlob(opts, fs, crypto, kmod) == Success(signature)
    requires Run(opts, fs, crypto).outcome == Pass
    requires opts.rawSig || !opts.signOnly
    ensures |signature| < 0x1_0000_0000
    ensures var after := Replay(fs, Run(opts, fs, crypto).log);
      && (opts.replaceOrig ==>
            && opts.moduleFile in after.files
            && after.files[opts.moduleFile] == SignedImage(kmod, signature)
            && (opts.dest != opts.moduleFile ==> opts.dest !in after.files))
      && (!opts.replaceOrig ==>
            && opts.dest in after.files
            && after.files[opts.dest] == SignedImage(kmod, signature)
            && (opts.dest != opts.moduleFile ==> SameEntry(after, fs, opts.moduleFile)))
  {
    RunAfterSignature(opts, fs, crypto, kmod, signature);
    AfterSignatureThroughTail(opts, fs, kmod, signature);
    FinishFinalFiles(opts, Replay(fs, Saved(opts, fs, signature)), kmod, signature);
  }

  /** Helper for `FailureLeavesModule`. A failing tail leaves the module path as it was, unless the failure
      is a write that stopped part-way into a destination that is the
      module itself. */
  lemma FinishFailureLeavesModule(opts: SignerOptions, fs: Fs, kmod: seq<byte>, signature: seq<byte>)
    ensures var t := Finish(opts, fs, kmod, signature);
      t.outcome.Fail? && (opts.dest != opts.moduleFile || t.outcome != Fail(WriteDest(opts.dest))) ==>
        SameEntry(Replay(fs, t.log), fs, opts.moduleFile)
  {
    if |signature| < 0x1_0000_0000 {
      var written := Write(opts.dest, Stored(fs, opts.dest, SignedImage(kmod, signature)));
      ReplayShort(fs, written, written);
    }
  }

  /** Helper for `FailureLeavesModule`. Within `AfterSignature`, a failure leaves the module path as it was,
      except for a partial write into a destination that is the module. */
  lemma AfterSignatureFailureLeavesModule(opts: SignerOptions, fs: Fs, kmod: seq<byte>, signature: seq<byte>)
    ensures var t := AfterSignature(opts, fs, kmod, signature);
      t.outcome.Fail? && (opts.dest != opts.moduleFile || t.outcome != Fail(WriteDest(opts.dest))) ==>
        SameEntry(Replay(fs, t.log), fs, opts.moduleFile)
  {
    var sigFile := SigFileName(opts.moduleFile);
    if opts.rawSig || (!opts.signOnly && (opts.saveSig ==> WriteSucceeds(fs, sigFile, signature))) {
      AfterSignatureThroughTail(opts, fs, kmod, signature);
      FinishFailureLeavesModule(opts, Replay(fs, Saved(opts, fs, signature)), kmod, signature);
    } else if opts.saveSig && CanWrite(fs, sigFile) {
      var partial := Write(sigFile, Stored(fs, sigFile, signature));
      ReplayShort(fs, partial, partial);
    }
  }

  /** A run that fails leaves the module file as it was, except when a
      `--dest` naming the module itself could not be written in full. */
  lemma FailureLeavesModule(opts: SignerOptions, fs: Fs, crypto: Crypto)
    ensures var t := Run(opts, fs, crypto);
      t.outcome.Fail? && (opts.dest != opts.moduleFile || t.outcome != Fail(WriteDest(opts.dest))) ==>
        SameEntry(Replay(fs, t.log), fs, opts.moduleFile)
  {
    if opts.moduleFile in fs.files && SignatureBlob(opts, fs, crypto, fs.files[opts.moduleFile]).Success? {
      var kmod := fs.files[opts.moduleFile];
      var signature := SignatureBlob(opts, fs, crypto, kmod).value;
      RunAfterSignature(opts, fs, crypto, kmod, signature);
      AfterSignatureFailureLeavesModule(opts, fs, kmod, signature);
    }
  }

  /** Helper for `DestWriteFailureLeavesPrefix`. A tail whose destination write stopped part-way leaves the destination
      holding the first bytes of the signed module, as many as fitted. */
  lemma FinishWriteFailure(opts: SignerOptions, fs: Fs, kmod: seq<byte>, signature: seq<byte>)
    requires Finish(opts, fs, kmod, signature).outcome == Fail(WriteDest(opts.dest))
    ensures |signature| < 0x1_0000_0000
    ensures opts.dest in fs.space && fs.space[opts.dest] < |kmod| + |signature| + TrailerSize
    ensures var after := Replay(fs, Finish(opts, fs, kmod, signature).log);
      opts.dest in after.files && after.files[opts.dest] == SignedImage(kmod, signature)[..fs.space[opts.dest]]
  {
    var written := Write(opts.dest, Stored(fs, opts.dest, SignedImage(kmod, signature)));
    ReplayShort(fs, written, written);
  }

  /** Helper for `DestWriteFailureLeavesPrefix`. The same within `AfterSignature`: the `.p7s` file, if any, was written
      in full, so the destination write is the tail's. */
  lemma AfterSignatureWriteFailure(opts: SignerOptions, fs: Fs, kmod: seq<byte>, signature: seq<byte>)
    requires AfterSignature(opts, fs, kmod, signature).outcome == Fail(WriteDest(opts.dest))
    ensures |signature| < 0x1_0000_0000
    ensures opts.dest in fs.space && fs.space[opts.dest] < |kmod| + |signature| + TrailerSize
    ensures var after := Replay(fs, AfterSignature(opts, fs, kmod, signature).log);
      opts.dest in after.files && after.files[opts.dest] == SignedImage(kmod, signature)[..fs.space[opts.dest]]
  {
    var sigFile := SigFileName(opts.moduleFile);
    if !opts.rawSig && (opts.signOnly || (opts.saveSig && !WriteSucceeds(fs, sigFile, signature))) {
      assert false;
    }
    AfterSignatureThroughTail(opts, fs, kmod, signature);
    FinishWriteFailure(opts, Replay(fs, Saved(opts, fs, signature)), kmod, signature);
  }

  /** A run whose destination write fails part-way leaves the destination
      holding a strict prefix of the signed module. When `--dest` names the
      module itself and fewer bytes than the module fitted, the module is
      left truncated to those bytes. */
  lemma DestWriteFailureLeavesPrefix(opts: SignerOptions, fs: Fs, crypto: Crypto, kmod: seq<byte>, signature: seq<byte>)
    requires Read(fs, opts.moduleFile) == Some(kmod)
    requires SignatureBlob(opts, fs, crypto, kmod) == Success(signature)
    requires Run(opts, fs, crypto).outcome == Fail(WriteDest(opts.dest))
    ensures |signature| < 0x1_0000_0000
    ensures opts.dest in fs.space && fs.space[opts.dest] < |kmod| + |signature| + TrailerSize
    ensures var after := Replay(fs, Run(opts, fs, crypto).log);
      && opts.dest in after.files
      && after.files[opts.dest] == SignedImage(kmod, signature)[..fs.space[opts.dest]]
      && (opts.dest == opts.moduleFile && fs.space[opts.dest] <= |kmod| ==>
            after.files[opts.moduleFile] == kmod[..fs.space[opts.dest]])
  {
    RunAfterSignature(opts, fs, crypto, kmod, signature);
    AfterSignatureWriteFailure(opts, fs, kmod, signature);
    if fs.space[opts.dest] <= |kmod| {
      SignedImagePrefix(kmod, signature, fs.space[opts.dest]);
    }
  }
}
