/** Bytes, big-endian fixed-width integers, and the integer casts (`as u32`,
    `as i32`) that the codec layer applies to lengths. */
module Bytes {

  type byte = b: int | 0 <= b < 256

  /** 256 to the power `w`: the number of distinct values of a `w`-byte word. */
  function Pow256(w: nat): (p: nat)
    ensures p >= 1
  {
    if w == 0 then 1 else 256 * Pow256(w - 1)
  }

  const U32Modulus: nat := 0x1_0000_0000
  const I32Max: int := 0x7FFF_FFFF

  /** The `w`-byte big-endian encoding of `u` modulo 256^w (`to_be_bytes`,
      `BigEndian::write_*`): the most significant byte comes first. */
  function BE(u: nat, w: nat): (s: seq<byte>)
    ensures |s| == w
  {
    if w == 0 then [] else BE(u / 256, w - 1) + [u % 256]
  }

  /** The number a big-endian byte string stands for (`from_be_bytes`,
      `BigEndian::read_*`): byte `k` of `s` carries weight 256^(|s|-1-k). */
  function ReadBE(s: seq<byte>): (u: nat)
    ensures u < Pow256(|s|)
  {
    if s == [] then 0
    else
      var hi := ReadBE(s[..|s| - 1]);
      assert hi * 256 + s[|s| - 1] < Pow256(|s| - 1) * 256 by {
        assert hi + 1 <= Pow256(|s| - 1);
        assert (hi + 1) * 256 <= Pow256(|s| - 1) * 256;
      }
      hi * 256 + s[|s| - 1]
  }

  /** Reading back a big-endian encoding yields the encoded number. */
  lemma {:induction false} ReadBEOfBE(u: nat, w: nat)
    requires u < Pow256(w)
    ensures ReadBE(BE(u, w)) == u
  {
    if w > 0 {
      var s := BE(u, w);
      assert s[..w - 1] == BE(u / 256, w - 1);
      assert u / 256 < Pow256(w - 1);
      ReadBEOfBE(u / 256, w - 1);
    }
  }

  /** Encoding the number a byte string stands for gives back the string:
      every byte string is the big-endian encoding of exactly one number. */
  lemma {:induction false} BEOfReadBE(s: seq<byte>)
    ensures BE(ReadBE(s), |s|) == s
  {
    if s != [] {
      var n := |s|;
      var hi := ReadBE(s[..n - 1]);
      var u := hi * 256 + s[n - 1];
      assert u / 256 == hi && u % 256 == s[n - 1];
      BEOfReadBE(s[..n - 1]);
      assert s == s[..n - 1] + [s[n - 1]];
    }
  }

  /** `n as u32`: keeps the low 32 bits. */
  function AsU32(n: nat): (r: nat)
    ensures r < U32Modulus
    ensures n < U32Modulus ==> r == n
  {
    n % U32Modulus
  }

  /** `n as i32`: keeps the low 32 bits and reads them as two's complement. */
  function AsI32(n: nat): (r: int)
    ensures -I32Max - 1 <= r <= I32Max
    ensures n <= I32Max ==> r == n
  {
    var low := n % U32Modulus;
    if low <= I32Max then low else low - U32Modulus
  }
}
