/** Bytes and fixed-width unsigned integers, with the big-endian fixed-width
    integer encoding that bincode uses for `u32` once it is configured with
    `with_big_endian()` and `with_fixint_encoding()`. */
module Bytes {

  /** A Rust `u8`. */
  type byte = b: int | 0 <= b < 0x100

  /** A Rust `u32`. */
  type u32 = n: int | 0 <= n < 0x1_0000_0000

  /** 256 to the power `width`: the number of values `width` bytes can hold. */
  function Pow256(width: nat): (p: nat)
    ensures p >= 1
  {
    if width == 0 then 1 else 0x100 * Pow256(width - 1)
  }

  /** The `width` least significant bytes of `n`, most significant first. */
  function BeBytes(n: nat, width: nat): (r: seq<byte>)
    ensures |r| == width
  {
    if width == 0 then [] else BeBytes(n / 0x100, width - 1) + [n % 0x100]
  }

  /** The unsigned number a big-endian byte string denotes. */
  function BeValue(s: seq<byte>): nat
  {
    if s == [] then 0 else BeValue(s[..|s| - 1]) * 0x100 + s[|s| - 1]
  }

  /** A byte string of length `width` denotes a number below 256^width. */
  lemma {:induction false} BeValueBound(s: seq<byte>)
    ensures BeValue(s) < Pow256(|s|)
  {
    if s != [] {
      BeValueBound(s[..|s| - 1]);
    }
  }

  /** Decoding undoes encoding for every number that fits the width. */
  lemma {:induction false} BeValueOfBeBytes(n: nat, width: nat)
    requires n < Pow256(width)
    ensures BeValue(BeBytes(n, width)) == n
  {
    if width > 0 {
      var prefix := BeBytes(n / 0x100, width - 1);
      BeValueOfBeBytes(n / 0x100, width - 1);
      assert BeBytes(n, width)[..width - 1] == prefix;
    }
  }

  /** Encoding undoes decoding: a big-endian byte string is the only encoding
      of its value at its own width. */
  lemma {:induction false} BeBytesOfBeValue(s: seq<byte>)
    ensures BeBytes(BeValue(s), |s|) == s
  {
    if s != [] {
      var init := s[..|s| - 1];
      BeBytesOfBeValue(init);
      assert BeValue(s) / 0x100 == BeValue(init);
      assert BeValue(s) % 0x100 == s[|s| - 1];
      assert s == init + [s[|s| - 1]];
    }
  }

  /** Big-endian encoding of a `u32`, as bincode writes `sig_len`. */
  function U32ToBe(n: u32): (r: seq<byte>)
    ensures |r| == 4
    ensures BeValue(r) == n
  {
    BeValueOfBeBytes(n, 4);
    BeBytes(n, 4)
  }

  /** The `u32` that four big-endian bytes denote. */
  function U32FromBe(s: seq<byte>): (n: u32)
    requires |s| == 4
    ensures U32ToBe(n) == s
  {
    BeValueBound(s);
    BeBytesOfBeValue(s);
    BeValue(s)
  }

  /** Byte order: the most significant byte of a `u32` is written first. */
  lemma U32ToBeLayout(n: u32)
    ensures U32ToBe(n) == [n / 0x100_0000, (n / 0x1_0000) % 0x100, (n / 0x100) % 0x100, n % 0x100]
  {
    var r := U32ToBe(n);
    assert n / 0x100 / 0x100 == n / 0x1_0000;
    assert n / 0x1_0000 / 0x100 == n / 0x100_0000;
    assert n / 0x100_0000 < 0x100;
    assert r == BeBytes(n / 0x100, 3) + [n % 0x100];
    assert BeBytes(n / 0x100, 3) == BeBytes(n / 0x1_0000, 2) + [(n / 0x100) % 0x100];
    assert BeBytes(n / 0x1_0000, 2) == BeBytes(n / 0x100_0000, 1) + [(n / 0x1_0000) % 0x100];
    assert BeBytes(n / 0x100_0000, 1) == [n / 0x100_0000];
  }
}
