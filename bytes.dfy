/** Bytes as the stream stores them. */
module Bytes {

  /** A C# `byte`. */
  type byte = bv8

  /** A number from 0 to 255 stored as a byte and read back is unchanged. */
  lemma ByteRoundTrip(x: int)
    requires 0 <= x < 256
    ensures (x as byte) as int == x
  {
  }

  /** A byte widened to a number and stored back is unchanged. */
  lemma IntRoundTrip(b: byte)
    ensures (b as int) as byte == b
  {
  }

  /** `p` is where `s` begins. */
  predicate IsPrefix(p: seq<byte>, s: seq<byte>)
  {
    |p| <= |s| && s[..|p|] == p
  }
}
