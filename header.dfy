/** The two-byte big-endian length prefix in front of every DGTCP packet. */
module Header {

  /** Go's `byte`. */
  newtype byte = b: int | 0 <= b < 256

  /** The largest length a two-byte header can announce. */
  const MaxLength: nat := 65535

  /** The header bytes Write puts in front of an n-byte payload:
      `byte((n & 0xff00) >> 8)` then `byte(n & 0xff)`. For n >= 0 the masks
      are the division and remainder below, so bits above 16 are dropped. */
  function Encode(n: nat): (h: seq<byte>)
    ensures |h| == 2
  {
    [((n / 256) % 256) as byte, (n % 256) as byte]
  }

  /** The length Read takes from a header: `int(hi)<<8 + int(lo)`. */
  function Decode(hi: byte, lo: byte): (n: nat)
    ensures n <= MaxLength
    ensures n / 256 == hi as int && n % 256 == lo as int
  {
    hi as int * 256 + lo as int
  }

  /** Decoding an encoded length gives the length modulo 65536: the identity on
      0..MaxLength, and a wrap-around above it. */
  lemma DecodeEncode(n: nat)
    ensures Decode(Encode(n)[0], Encode(n)[1]) == n % 65536
  {
    var q := n / 256;
    assert n == q * 256 + n % 256;
    assert q == (q / 256) * 256 + q % 256;
    assert n == (q / 256) * 65536 + (q % 256) * 256 + n % 256;
    assert 0 <= (q % 256) * 256 + n % 256 < 65536;
  }

  /** On the lengths a header can carry, encoding is undone by decoding. */
  lemma DecodeEncodeInRange(n: nat)
    requires n <= MaxLength
    ensures Decode(Encode(n)[0], Encode(n)[1]) == n
  {
    DecodeEncode(n);
  }

  /** Every pair of header bytes is the encoding of the length it decodes to,
      so the codec is a bijection between 0..MaxLength and the two-byte headers. */
  lemma EncodeDecode(hi: byte, lo: byte)
    ensures Encode(Decode(hi, lo)) == [hi, lo]
  {
  }

  /** Two lengths in 0..MaxLength with the same header are equal. */
  lemma EncodeInjective(m: nat, n: nat)
    requires m <= MaxLength && n <= MaxLength
    requires Encode(m) == Encode(n)
    ensures m == n
  {
    DecodeEncodeInRange(m);
    DecodeEncodeInRange(n);
  }

  /** Lengths 65536 apart get the same header; in particular a 65536-byte
      payload is announced as `00 00`, the header of an empty packet. */
  lemma EncodeWraps(n: nat)
    ensures Encode(n + 65536) == Encode(n)
    ensures Encode(65536) == Encode(0) == [0, 0]
  {
    var q := n / 256;
    assert (n + 65536) / 256 == q + 256;
    assert (q + 256) % 256 == q % 256;
  }
}
