# modsign: a Dafny model of the kernel-module signature trailer

This project models the core of `kmodtrust`'s `sign` command (`src/main.rs`).
The command appends a PKCS#7/CMS signature to a Linux loadable kernel module.
It uses the layout of the kernel's `struct module_signature`:

    module bytes ++ signature blob ++ 12-byte record ++ "~Module signature appended~\n"

The model covers five parts of the source:

- **The trailer record** `ModuleSignature` and its bincode encoding (module `ModSig`). The encoding is big-endian with fixed-width integers, so there is no length prefix for the 3-byte pad. It is written out as `Serialize`, with a partner `Parse` and round trips in both directions. The big-endian `u32` codec is in module `Bytes`.
- **Framing** (module `Trailer`): `MAGIC`, the record `lkm_sign` builds for a signature (`sig_len` must fit a `u32`), and the signed image. It also has `Split`, which reads a signed module from its end the way a loader does. It is proved to invert the framing, in both directions.
- **Option resolution** `SignerOptions::new` (module `Options`). It is an imperative method that sets `raw_sig` and `replace_orig` inside the match arms, as the source does.
- **The certificate encoding test** in `read_x509` (module `Certificate`).
- **`lkm_sign`** (modules `FileSystem`, `Signer`, `SignerProperties`).
  - The file system is a map from path to bytes, plus the set of paths that may be written. For some paths it also records how many bytes a write can store there before `write_all` fails (a full disk or quota).
  - Each file effect (create-and-write, rename) is recorded in an ordered log.
  - The cryptographic library is the record of functions `Crypto`. Each of them may fail.
  - `Signer.Run` is the trace a run produces: its outcome and its effect log.
  - `Signer.LkmSign` is the step-by-step method. It extends the module buffer step by step, performs each effect on the file system as it happens, and is proved to produce exactly `Run`'s trace.
  - The lemmas in `SignerProperties` state what the source promises about that trace.

Each failure the model distinguishes becomes a `SignError` that ends the run. These are:

- a missing module, key, certificate or raw-signature file;
- a key, certificate, signing or DER step that fails;
- an empty certificate file, or the one-byte file `[0x30]`, which the DER/PEM test cannot index;
- a `.p7s` or destination file that cannot be created, or whose write stops part-way;
- a signature too long for `sig_len`;
- a failed rename.

Read errors after a successful open and `read_to_string`'s UTF-8 check are not distinguished (see "## Left out").

## Notes on the code

- **Certificate test.** The test at `src/main.rs:146` reads byte 1 only after byte 0 has matched `0x30`, because `&&` short-circuits. So a one-byte certificate file whose byte is not `0x30` is handed to the PEM decoder, and does not fail on indexing. Only an empty file and the one-byte file `[0x30]` fail on the missing byte. The model follows the code (`Certificate.SniffEncoding`). It does not follow the simpler "shorter than two bytes fails" reading.
- **When the length is checked.** With `--sign-only` on the direct path, the run returns before the `u32` length check (`src/main.rs:200-202`). So an over-long signature does not fail there. `Signer.Run` and `SignerProperties.SignOnlyStopsAfterSignature` keep this order.
- **A failed write leaves a partial file.** `File::create` truncates the file before `write_all` runs. So a write that fails part-way leaves the prefix it stored (`SignerProperties.DestWriteFailureLeavesPrefix`). Normally the destination is `<module>.~signed~` or a separate `--dest`, and a failure leaves the module as it was (`SignerProperties.FailureLeavesModule`). But nothing in the code stops `--dest` from naming the module itself. In that case a failed write leaves the module truncated to the bytes that fitted. `FailureLeavesModule` excludes exactly this case, and `DestWriteFailureLeavesPrefix` states what happens instead.
- **Flags in raw mode.** In raw mode `--save-sig` and `--sign-only` are accepted and ignored, as in the source. `SignerProperties.RawModePassesThrough` proves that they make no difference.

## Model

| member | source | states |
|---|---|---|
| `Bytes.U32ToBe` | src/main.rs:219-224 | `sig_len` is written as exactly four bytes whose big-endian value is the number |
| `Bytes.U32FromBe` | src/main.rs:219-224 | every four bytes decode to the unique `u32` that encodes back to them |
| `Bytes.U32ToBeLayout` | src/main.rs:219-224 | byte order of the `u32`: most significant byte first, least significant last |
| `Bytes.BeValueOfBeBytes` | src/main.rs:219-224 | decoding undoes fixed-width big-endian encoding for every number that fits the width |
| `Bytes.BeBytesOfBeValue` | src/main.rs:219-224 | encoding undoes decoding: a big-endian string is the only encoding of its value at its width |
| `Bytes.BeValueBound` | src/main.rs:219-224 | `w` big-endian bytes denote a number below 256^w |
| `ModSig.New` | src/main.rs:33-43 | `ModuleSignature::new()` is algo 0, hash 0, id type `PKEY_ID_PKCS7` (2), signer and key-id lengths 0, zero pad, `sig_len` 0; it encodes as eleven zero bytes with 2 in third place |
| `ModSig.Serialize` | src/main.rs:219-224 | the record encodes to exactly 12 bytes: the five `u8` fields in order, the 3-byte pad, then `sig_len` big-endian |
| `ModSig.Parse` | src/main.rs:21-30 | a byte string decodes to a record exactly when it has 12 bytes |
| `ModSig.ParseSerialize` | src/main.rs:21-30 | every record decodes back from its encoding unchanged |
| `ModSig.SerializeParse` | src/main.rs:21-30 | every 12-byte string is the encoding of the record it decodes to |
| `Trailer.AsciiBytes` | src/main.rs:227 | `MAGIC.as_bytes()` on ASCII text (every character below `0x80`): one byte per character, equal to its code |
| `Trailer.SigInfoFor` | src/main.rs:214-217 | the record for a signature exists exactly when its length is below 2^32; it is `new()` with `sig_len` equal to that length |
| `Trailer.SignedImage` | src/main.rs:198-227 | the signed module is 40 bytes longer than module plus signature, starts with the module and ends with the marker |
| `Trailer.Split` | src/main.rs:226-227 | reading from the end succeeds only on inputs that end with the marker and are long enough for the trailer |
| `Trailer.SplitSignedImage` | src/main.rs:214-227 | splitting a signed module recovers the module, the signature, and `new()` with `sig_len` set, byte for byte |
| `Trailer.SplitSound` | src/main.rs:214-227 | whatever splits has the layout module ++ signature ++ record ++ marker, and the record's `sig_len` is the signature's length |
| `Options.NewSignerOptions` | src/main.rs:83-122 | paths and flags are copied; `raw_sig` holds iff `--raw-sig` was given, else the raw file name is empty; `replace_orig` holds iff `--dest` was not given; `dest` is `--dest` or `<module>.~signed~`, which is never the module path |
| `Certificate.SniffEncoding` | src/main.rs:146-150 | DER iff byte 0 is `0x30` and byte 1 is in `0x81..0x84`; a missing byte is an error iff the file is empty or is the single byte `0x30`; every other file is PEM |
| `FileSystem.Read` | src/main.rs:157-162 | opening and reading a file fails exactly when it is missing, and otherwise yields its whole contents |
| `FileSystem.Stored` | src/main.rs:229-232 | after `File::create` and `write_all`, the file holds a prefix of the data; it is all of the data exactly when the data fits the path's space, and otherwise exactly as many bytes as the space |
| `FileSystem.Apply` | src/main.rs:229-237 | a write replaces the whole file; a rename moves the contents to the target and removes the source; permissions and space are unchanged |
| `FileSystem.ApplyFrame` | src/main.rs:229-237 | a write changes no other path, and a rename changes no path other than its source and target |
| `Signer.SigFileName` | src/main.rs:188-189 | `<module>.p7s` is never the module path |
| `Signer.ReadPrivateKey` | src/main.rs:126-137 | a missing key file fails with an open error, a failed PEM decode with `BadPrivateKey`; otherwise the key is the PEM decoder's result for the file's bytes |
| `Signer.ReadX509` | src/main.rs:139-152 | a missing file fails with an open error, a missing byte with an index error; otherwise the file is decoded only in the encoding the first two bytes select |
| `Signer.CmsSignature` | src/main.rs:166-185 | the key is loaded before the certificate, and the first of them to fail gives the error. Once both load, signing fails with `CmsSignFailed`, DER conversion fails with `DerConversionFailed`, and otherwise the result is a success. A successful blob is the DER form of the CMS signature made with that certificate and key over exactly the module's bytes |
| `Signer.SignatureBlob` | src/main.rs:164-212 | in raw mode the blob is the raw file's bytes as read, or an open error; otherwise it is the computed CMS signature |
| `Signer.LkmSign` | src/main.rs:154-238 | the imperative run produces exactly the outcome and effect log of `Run`; every effect was permitted when performed; the final file system is the log replayed |
| `Signer.AppendTrailer` | src/main.rs:214-237 | the tail of the run (length check, record, marker, write, rename) produces exactly `Finish`'s trace |
| `SignerProperties.FinishEffects` | src/main.rs:214-237 | the tail writes only dest. It fails with an overflow and writes nothing when the signature has 2^32 bytes or more. It writes as much of the signed image as fits, and a short write fails with `WriteDest` before any rename. It renames only second, only with `replace_orig`, after the full image. It succeeds iff the length fits, dest takes the whole image and, when replacing, the module path is writable |
| `SignerProperties.FinishWriteFailure` | src/main.rs:229-232 | a tail that fails in `write_all` leaves dest holding the first bytes of the signed image, as many as its space allows |
| `SignerProperties.InputFailureWritesNothing` | src/main.rs:157-209 | an unreadable module, key, certificate or raw signature file, or a failed decode or signing, aborts with no file written |
| `SignerProperties.SaveSigWritesSignature` | src/main.rs:187-196 | on the direct path with `save_sig`, the first effect writes the exact DER signature to `<module>.p7s`. If the file cannot be created, the run aborts with nothing written. If the write stops part-way, it aborts with only that partial file. Without `save_sig`, dest is the only file written |
| `SignerProperties.SignOnlyStopsAfterSignature` | src/main.rs:200-202 | with `sign_only` at most the `.p7s` file is written, the module and dest are untouched, and the run succeeds whatever the signature's length |
| `SignerProperties.RawModePassesThrough` | src/main.rs:203-212 | raw mode makes no signing call (any crypto gives the same run), ignores `save_sig` and `sign_only`, writes only dest, and frames the raw file's bytes unchanged |
| `SignerProperties.RawMatchesDirect` | src/main.rs:198-212 | appending a precomputed signature in raw mode produces the same run as computing that signature directly |
| `SignerProperties.OverflowStopsBeforeDest` | src/main.rs:214-229 | a signature of 2^32 bytes or more fails before dest is written or the module replaced; at most the `.p7s` file exists |
| `SignerProperties.ReplaceOnlyAfterFullWrite` | src/main.rs:229-237 | a rename happens only with `replace_orig`, as the last step, and directly after dest was written with this run's complete signed image: the module's bytes, then its signature blob, record and marker. Without `replace_orig` there is no rename |
| `SignerProperties.CompletedRunWritesSignedModule` | src/main.rs:198-232 | a completed non-sign-only run writes module ++ signature ++ record ++ marker to dest, and that image splits back into the module, the signature and `new()` with `sig_len` set |
| `SignerProperties.CompletedRunFinalFiles` | src/main.rs:229-237 | after a completed run the module path holds the signed image and the temporary file is gone (no `--dest`), or dest holds it and the module keeps its bytes (`--dest`) |
| `SignerProperties.FailureLeavesModule` | src/main.rs:154-238 | a run that fails leaves the module file exactly as it was, except when the destination write stopped part-way into a `--dest` that is the module itself |
| `SignerProperties.DestWriteFailureLeavesPrefix` | src/main.rs:229-232 | a run whose destination write stops part-way leaves dest holding a strict prefix of the signed image; when dest is the module, the module is truncated to that many of its own bytes |

## Left out

- CMS/PKCS#7 signing and DER output (`src/main.rs:170-185`) are the functions `cmsSign` and `toDer` of `Signer.Crypto`. Each may fail. Signing follows RFC 5652 (detached, binary, no certificates, no attributes, no S/MIME capabilities), and nothing about it is modelled beyond which inputs it receives.
- PEM and DER decoding of the key and the certificate (`src/main.rs:133-134`, `147-149`) are `Crypto` functions that may fail. Only the byte test that chooses between DER and PEM is modelled.
- `Signer.ReadPrivateKey`: `read_to_string` rejects a key file that is not UTF-8. The model counts this as a failure of the PEM decode (`BadPrivateKey`), not as a separate read error.
- Argument parsing with clap and YAML, and `main`'s dispatch (`src/main.rs:240-248`), are left out. `Options.Args` is what the parser hands over: the three required values, which clap enforces, and the optional flags. So `unwrap` on them never fails.
- The commented-out digest option (`src/main.rs:67-82`) is inactive code.
- `ModuleSignature::default` is only `new()` (`src/main.rs:46-50`), so the model uses `ModSig.New`.
- `FileSystem.Apply` records `File::create` plus `write_all` as one effect. Creation fails exactly when the path is not writable. A write fails exactly when the path's space is too small, and then stores a prefix. Transient I/O errors with no cause in the file-system state are not modelled.
- Reads: once a file opens, `read_to_end` is taken to succeed (`src/main.rs:143`, `162`, `209`). I/O errors during a read are not modelled.
- `FileSystem.Apply`: rename succeeds when the source exists and both paths are writable. Cross-device moves and permission failures are the "not writable" case. The atomicity and durability of `std::fs::rename` are not modelled.
- Panic message texts are left out. Each `SignError` names the failing step and path, not the message.
- `test/module/hello.c` is a kernel-module test fixture whose only behaviour is logging through `printk`.
