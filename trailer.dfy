/** Framing of a signed module: the module image, the signature blob, the
    encoded record and the magic marker, in that order. A loader finds the
    trailer by reading backwards from the end of the file. */
module Trailer {
  import opened Wrappers
  import opened Bytes
  import opened ModSig

  /** `MAGIC`, the marker that ends every signed module. */
  const MagicText: string := "~Module signature appended~\n"

  /** `str::as_bytes` for ASCII text, whose UTF-8 encoding is one byte per
      character. */
  function AsciiBytes(s: string): (r: seq<byte>)
    requires forall i :: 0 <= i < |s| ==> s[i] as int < 0x80
    ensures |r| == |s|
    ensures forall i :: 0 <= i < |s| ==> r[i] == s[i] as int
  {
    seq(|s|, i requires 0 <= i < |s| => s[i] as int)
  }

  const Magic: seq<byte> := AsciiBytes(MagicText)

  /** Length of everything after the signature blob: the record and the marker. */
  const TrailerSize: nat := RecordSize + |MagicText|

  /** The record `lkm_sign` writes for a signature of `sigLen` bytes, or
      `None` when the length does not fit the `u32` field (the failing
      `try_into`). */
  function SigInfoFor(sigLen: nat): (r: Option<ModuleSignature>)
    ensures r.Some? <==> sigLen < 0x1_0000_0000
    ensures r.Some? ==> r.value.sigLen == sigLen && r.value == New().(sigLen := r.value.sigLen)
  {
    if sigLen < 0x1_0000_0000 then Some(New().(sigLen := sigLen)) else None
  }

  /** The bytes of a signed module: `module ++ signature ++ record ++ MAGIC`. */
  function SignedImage(kmod: seq<byte>, signature: seq<byte>): (r: seq<byte>)
    requires |signature| < 0x1_0000_0000
    ensures |r| == |kmod| + |signature| + TrailerSize
    ensures r[..|kmod|] == kmod
    ensures r[|r| - |MagicText|..] == Magic
  {
    kmod + signature + Serialize(SigInfoFor(|signature|).value) + Magic
  }
  /** The first `n` bytes of a signed module, for `n` up to the module's
      length, are the module's first `n` bytes. */
  lemma SignedImagePrefix(kmod: seq<byte>, signature: seq<byte>, n: nat)
    requires |signature| < 0x1_0000_0000 && n <= |kmod|
    ensures SignedImage(kmod, signature)[..n] == kmod[..n]
  {
    var image := SignedImage(kmod, signature);
    assert image[..n] == image[..|kmod|][..n];
  }


  /** What a loader recovers from a signed module. */
  datatype Unpacked = Unpacked(kmod: seq<byte>, signature: seq<byte>, info: ModuleSignature)

  /** Read a signed module from its end: check the marker, decode the twelve
      bytes before it, and take `sig_len` bytes before those as the signature. */
  function Split(image: seq<byte>): (r: Option<Unpacked>)
    ensures r.Some? ==> |image| >= TrailerSize && image[|image| - |MagicText|..] == Magic
  {
    if |image| < TrailerSize || image[|image| - |MagicText|..] != Magic then None
    else
      var end := |image| - TrailerSize;
      var info := Parse(image[end..|image| - |MagicText|]).value;
      if info.sigLen > end then None
      else Some(Unpacked(image[..end - info.sigLen], image[end - info.sigLen..end], info))
  }

  /** Splitting a signed module recovers the module, the signature and the
      record `lkm_sign` wrote for it. */
  lemma SplitSignedImage(kmod: seq<byte>, signature: seq<byte>)
    requires |signature| < 0x1_0000_0000
    ensures Split(SignedImage(kmod, signature))
            == Some(Unpacked(kmod, signature, SigInfoFor(|signature|).value))
  {
    var info := SigInfoFor(|signature|).value;
    var body := kmod + signature;
    var image := SignedImage(kmod, signature);
    ThreeParts(body, Serialize(info), Magic);
    ThreeParts(kmod, signature, []);
    var end := |image| - TrailerSize;
    assert end == |body|;
    ParseSerialize(info);
    assert image[..end] == body;
  }

  /** Slicing a concatenation of three parts gives the parts back. */
  lemma ThreeParts<T>(a: seq<T>, b: seq<T>, c: seq<T>)
    ensures (a + b + c)[..|a|] == a
    ensures (a + b + c)[|a|..|a| + |b|] == b
    ensures (a + b + c)[|a| + |b|..] == c
    ensures (a + b)[..|a|] == a && (a + b)[|a|..] == b
  {
  }

  /** Whatever `Split` accepts has the signed-module layout, and the record's
      `sig_len` is the length of the signature it frames. */
  lemma SplitSound(image: seq<byte>, u: Unpacked)
    requires Split(image) == Some(u)
    ensures image == u.kmod + u.signature + Serialize(u.info) + Magic
    ensures u.info.sigLen == |u.signature|
  {
    var mid := |image| - |MagicText|;
    var end := mid - RecordSize;
    var start := end - u.info.sigLen;
    SerializeParse(image[end..mid], u.info);
    Reassemble(image, start, end, mid);
  }

  /** A sequence is the concatenation of its slices at three cut points. */
  lemma Reassemble<T>(s: seq<T>, i: nat, j: nat, k: nat)
    requires i <= j <= k <= |s|
    ensures s == s[..i] + s[i..j] + s[j..k] + s[k..]
  {
    assert s[..j] == s[..i] + s[i..j];
    assert s[..k] == s[..j] + s[j..k];
    assert s == s[..k] + s[k..];
  }
}
