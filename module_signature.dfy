/** The fixed-layout trailer record `ModuleSignature` (the kernel's
    `struct module_signature`) and its bincode encoding: big-endian,
    fixed-width integers, no length prefix for the three-byte pad. */
module ModSig {
  import opened Wrappers
  import opened Bytes

  /** `PKEY_ID_PKCS7`: the signature is a PKCS#7 / CMS container. */
  const PkeyIdPkcs7: byte := 2

  /** Encoded size of the record: five `u8`, a `[u8; 3]` and a `u32`. */
  const RecordSize: nat := 12

  type Pad = p: seq<byte> | |p| == 3 witness [0, 0, 0]

  datatype ModuleSignature = ModuleSignature(
    algo: byte,
    hash: byte,
    idType: byte,
    signerLen: byte,
    keyIdLen: byte,
    pad: Pad,
    sigLen: u32)

  /** `ModuleSignature::new()`: every field zero except the PKCS#7 id type;
      encoded, it is eleven zero bytes with 2 in third place. */
  function New(): (r: ModuleSignature)
    ensures Serialize(r) == [0, 0, 2, 0, 0, 0, 0, 0, 0, 0, 0, 0]
  {
    U32ToBeLayout(0);
    ModuleSignature(0, 0, PkeyIdPkcs7, 0, 0, [0, 0, 0], 0)
  }

  /** bincode's encoding of the record: the fields in declaration order,
      `sig_len` as four big-endian bytes. */
  function Serialize(rec: ModuleSignature): (r: seq<byte>)
    ensures |r| == RecordSize
    ensures r[0] == rec.algo && r[1] == rec.hash && r[2] == rec.idType
    ensures r[3] == rec.signerLen && r[4] == rec.keyIdLen && r[5..8] == rec.pad
    ensures BeValue(r[8..]) == rec.sigLen
  {
    [rec.algo, rec.hash, rec.idType, rec.signerLen, rec.keyIdLen] + rec.pad + U32ToBe(rec.sigLen)
  }

  /** The reader's side of the encoding: exactly twelve bytes decode to a record. */
  function Parse(b: seq<byte>): (r: Option<ModuleSignature>)
    ensures r.Some? <==> |b| == RecordSize
  {
    if |b| != RecordSize then None
    else Some(ModuleSignature(b[0], b[1], b[2], b[3], b[4], b[5..8], U32FromBe(b[8..])))
  }

  /** Every record survives encoding and decoding unchanged. */
  lemma ParseSerialize(rec: ModuleSignature)
    ensures Parse(Serialize(rec)) == Some(rec)
  {
    var b := Serialize(rec);
    BeBytesOfBeValue(b[8..]);
  }

  /** Every twelve-byte string is the encoding of the record it decodes to. */
  lemma SerializeParse(b: seq<byte>, rec: ModuleSignature)
    requires Parse(b) == Some(rec)
    ensures Serialize(rec) == b
  {
    assert b == b[..5] + b[5..8] + b[8..];
  }
}
