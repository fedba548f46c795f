/** `SignerOptions::new`: turns the parsed `sign` sub-command arguments into
    the signer's configuration and derives the replace-in-place policy. */
module Options {
  import opened Wrappers

  /** Suffix of the temporary output when no `--dest` is given. */
  const SignedSuffix: string := ".~signed~"

  /** The `sign` sub-command's arguments as the argument parser hands them
      over: the three required values and what each optional flag carried. */
  datatype Args = Args(
    key: string,
    x509: string,
    moduleFile: string,
    saveSig: bool,
    signOnly: bool,
    rawSig: Option<string>,
    dest: Option<string>)

  datatype SignerOptions = SignerOptions(
    keyFile: string,
    x509File: string,
    moduleFile: string,
    rawSig: bool,
    rawSigfile: string,
    saveSig: bool,
    signOnly: bool,
    replaceOrig: bool,
    dest: string)

  method NewSignerOptions(args: Args) returns (opts: SignerOptions)
    ensures opts.keyFile == args.key && opts.x509File == args.x509 && opts.moduleFile == args.moduleFile
    ensures opts.saveSig == args.saveSig && opts.signOnly == args.signOnly
    ensures opts.rawSig <==> args.rawSig.Some?
    ensures opts.rawSigfile == if args.rawSig.Some? then args.rawSig.value else ""
    ensures opts.replaceOrig <==> args.dest.None?
    ensures opts.dest == if args.dest.Some? then args.dest.value else args.moduleFile + SignedSuffix
    ensures opts.replaceOrig ==> opts.dest != opts.moduleFile
  {
    var keyFile := args.key;
    var x509File := args.x509;
    var moduleFile := args.moduleFile;
    var saveSig := args.saveSig;
    var signOnly := args.signOnly;

    var rawSig := false;
    var rawSigfile: string;
    match args.rawSig {
      case Some(path) =>
        rawSig := true;
        rawSigfile := path;
      case None =>
        rawSigfile := "";
    }

    var replaceOrig := true;
    var dest: string;
    match args.dest {
      case Some(path) =>
        replaceOrig := false;
        dest := path;
      case None =>
        var d := moduleFile;
        d := d + SignedSuffix;
        dest := d;
    }

    opts := SignerOptions(keyFile, x509File, moduleFile, rawSig, rawSigfile, saveSig, signOnly, replaceOrig, dest);
  }
}
