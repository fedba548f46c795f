/** The encoding test at the start of `read_x509`: a certificate file is read
    as DER when it opens with an ASN.1 SEQUENCE tag (0x30) followed by a
    long-form length octet announcing one to four length bytes (0x81 to
    0x84, ITU-T X.690 section 8.1.3.5); anything else is read as PEM. */
module Certificate {
  import opened Wrappers
  import opened Bytes

  const SequenceTag: byte := 0x30

  datatype Encoding = Der | Pem

  /** The test indexes bytes 0 and 1 behind a short-circuit `&&`: byte 1 is
      read only when byte 0 is the SEQUENCE tag, so only an empty file and
      the one-byte file `[0x30]` fail on a missing byte. */
  function SniffEncoding(data: seq<byte>): (r: Result<Encoding, string>)
    ensures r == Success(Der) <==> |data| >= 2 && data[0] == SequenceTag && 0x81 <= data[1] <= 0x84
    ensures r.Failure? <==> |data| == 0 || (|data| == 1 && data[0] == SequenceTag)
    ensures |data| >= 2 ==> r.Success?
  {
    if |data| == 0 then Failure("index out of bounds: byte 0")
    else if data[0] != SequenceTag then Success(Pem)
    else if |data| < 2 then Failure("index out of bounds: byte 1")
    else if 0x81 <= data[1] && data[1] <= 0x84 then Success(Der)
    else Success(Pem)
  }
}
