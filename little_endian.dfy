/**
 * The fixed-width integers of the stream. The stream copies a value's
 * in-memory bytes, so the format is little-endian two's complement: the
 * stream refuses to run on a big-endian processor.
 */
module LittleEndian {
  import opened Bytes

  /** A C# `int` and `long`. */
  type Int32 = x: int | -0x8000_0000 <= x < 0x8000_0000
  type Int64 = x: int | -0x8000_0000_0000_0000 <= x < 0x8000_0000_0000_0000

  function Pow256(n: nat): (p: nat)
    ensures p > 0
  {
    if n == 0 then 1 else 256 * Pow256(n - 1)
  }

  /** The value of `s` read as an unsigned little-endian number. */
  function LeValue(s: seq<byte>): (v: nat)
    ensures v < Pow256(|s|)
  {
    if s == [] then 0 else s[0] as int + 256 * LeValue(s[1..])
  }

  /** The `n` low-order bytes of `u`, least significant first. */
  function LeBytes(u: nat, n: nat): (r: seq<byte>)
    ensures |r| == n
  {
    if n == 0 then [] else [(u % 256) as byte] + LeBytes(u / 256, n - 1)
  }

  lemma {:induction false} LeValueOfLeBytes(u: nat, n: nat)
    requires u < Pow256(n)
    ensures LeValue(LeBytes(u, n)) == u
  {
    if n > 0 {
      var r := LeBytes(u, n);
      assert u / 256 < Pow256(n - 1);
      LeValueOfLeBytes(u / 256, n - 1);
      assert r[1..] == LeBytes(u / 256, n - 1);
      ByteRoundTrip(u % 256);
    }
  }

  lemma {:induction false} LeBytesOfLeValue(s: seq<byte>)
    ensures LeBytes(LeValue(s), |s|) == s
  {
    if s != [] {
      LeBytesStep(s[0], LeValue(s[1..]), |s| - 1);
      LeBytesOfLeValue(s[1..]);
    }
  }

  /** Splitting off the low byte of `lo + 256 * hi` gives `lo`. */
  lemma LeBytesStep(lo: byte, hi: nat, n: nat)
    ensures LeBytes(lo as int + 256 * hi, n + 1) == [lo] + LeBytes(hi, n)
  {
    DivModByte(lo as int, hi);
    IntRoundTrip(lo);
  }

  lemma DivModByte(lo: int, hi: nat)
    requires 0 <= lo < 256
    ensures (lo + 256 * hi) % 256 == lo && (lo + 256 * hi) / 256 == hi
  {
  }

  /** The four bytes a little-endian processor stores for `x`. */
  function Int32ToBytes(x: Int32): (r: seq<byte>)
    ensures |r| == 4 && LeValue(r) == x % 0x1_0000_0000
  {
    LeValueOfLeBytes(x % 0x1_0000_0000, 4);
    LeBytes(x % 0x1_0000_0000, 4)
  }

  /** The `int` a little-endian processor reads from the first four bytes of `s`. */
  function BytesToInt32(s: seq<byte>): (x: Int32)
    requires |s| >= 4
    ensures x % 0x1_0000_0000 == LeValue(s[..4])
  {
    var u := LeValue(s[..4]);
    if u < 0x8000_0000 then u else u - 0x1_0000_0000
  }

  /** The eight bytes a little-endian processor stores for `x`. */
  function Int64ToBytes(x: Int64): (r: seq<byte>)
    ensures |r| == 8 && LeValue(r) == x % 0x1_0000_0000_0000_0000
  {
    LeValueOfLeBytes(x % 0x1_0000_0000_0000_0000, 8);
    LeBytes(x % 0x1_0000_0000_0000_0000, 8)
  }

  /** The `long` a little-endian processor reads from the first eight bytes of `s`. */
  function BytesToInt64(s: seq<byte>): (x: Int64)
    requires |s| >= 8
    ensures x % 0x1_0000_0000_0000_0000 == LeValue(s[..8])
  {
    var u := LeValue(s[..8]);
    if u < 0x8000_0000_0000_0000 then u else u - 0x1_0000_0000_0000_0000
  }

  lemma Int32RoundTrip(x: Int32, rest: seq<byte>)
    ensures BytesToInt32(Int32ToBytes(x) + rest) == x
  {
    assert (Int32ToBytes(x) + rest)[..4] == Int32ToBytes(x);
    if x < 0 {
      assert x % 0x1_0000_0000 == x + 0x1_0000_0000;
    }
  }

  /** Any bytes that begin with the encoding of `x` decode to `x`. */
  lemma Int32OfPrefix(x: Int32, s: seq<byte>)
    requires IsPrefix(Int32ToBytes(x), s)
    ensures |s| >= 4 && BytesToInt32(s) == x
  {
    assert s == Int32ToBytes(x) + s[4..];
    Int32RoundTrip(x, s[4..]);
  }

  lemma Int32BytesRoundTrip(s: seq<byte>)
    requires |s| >= 4
    ensures Int32ToBytes(BytesToInt32(s)) == s[..4]
  {
    LeBytesOfLeValue(s[..4]);
  }

  lemma Int64RoundTrip(x: Int64, rest: seq<byte>)
    ensures BytesToInt64(Int64ToBytes(x) + rest) == x
  {
    assert (Int64ToBytes(x) + rest)[..8] == Int64ToBytes(x);
    if x < 0 {
      assert x % 0x1_0000_0000_0000_0000 == x + 0x1_0000_0000_0000_0000;
    }
  }

  /** Any bytes that begin with the encoding of `x` decode to `x`. */
  lemma Int64OfPrefix(x: Int64, s: seq<byte>)
    requires IsPrefix(Int64ToBytes(x), s)
    ensures |s| >= 8 && BytesToInt64(s) == x
  {
    assert s == Int64ToBytes(x) + s[8..];
    Int64RoundTrip(x, s[8..]);
  }

  lemma Int64BytesRoundTrip(s: seq<byte>)
    requires |s| >= 8
    ensures Int64ToBytes(BytesToInt64(s)) == s[..8]
  {
    LeBytesOfLeValue(s[..8]);
  }
}
