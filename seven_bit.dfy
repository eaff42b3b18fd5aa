/**
 * The stream's 7-bit variable-length encoding of a `ulong`. A value is cut
 * into 7-bit groups, least significant first, and every byte but the last
 * carries the continuation flag 0x80. At most nine bytes are used: after
 * eight flagged bytes the ninth holds the remaining eight bits whole, with
 * no flag, so a tenth byte is never needed.
 */
module SevenBit {
  import opened Bytes

  /** The `(byte)` cast of C#: keep the low eight bits. */
  function Low8(x: bv64): byte
  {
    (x & 0xFF) as byte
  }

  /** 128 to the power `k` as a `ulong`: the first value that needs more
      than `k` groups. */
  function Pow128(k: nat): (p: bv64)
    requires k <= 8
  {
    if k == 0 then 1 else if k == 1 then 0x80 else if k == 2 then 0x4000 else if k == 3 then 0x20_0000
    else if k == 4 then 0x1000_0000 else if k == 5 then 0x8_0000_0000 else if k == 6 then 0x400_0000_0000
    else if k == 7 then 0x2_0000_0000_0000 else 0x100_0000_0000_0000
  }

  /** The bytes the writer stores for `v`, chosen by the writer's own
      thresholds. */
  function Encode7Bit(v: bv64): (r: seq<byte>)
    ensures 1 <= |r| <= 9
  {
    if v < 0x80 then [Low8(v)]
    else if v < 0x4000 then [Low8(v | 0x80), Low8((v >> 7))]
    else if v < 0x20_0000 then [Low8(v | 0x80), Low8((v >> 7) | 0x80), Low8((v >> 14))]
    else if v < 0x1000_0000 then [Low8(v | 0x80), Low8((v >> 7) | 0x80), Low8((v >> 14) | 0x80), Low8((v >> 21))]
    else if v < 0x8_0000_0000 then [Low8(v | 0x80), Low8((v >> 7) | 0x80), Low8((v >> 14) | 0x80), Low8((v >> 21) | 0x80), Low8((v >> 28))]
    else if v < 0x400_0000_0000 then [Low8(v | 0x80), Low8((v >> 7) | 0x80), Low8((v >> 14) | 0x80), Low8((v >> 21) | 0x80), Low8((v >> 28) | 0x80), Low8((v >> 35))]
    else if v < 0x2_0000_0000_0000 then [Low8(v | 0x80), Low8((v >> 7) | 0x80), Low8((v >> 14) | 0x80), Low8((v >> 21) | 0x80), Low8((v >> 28) | 0x80), Low8((v >> 35) | 0x80), Low8((v >> 42))]
    else if v < 0x100_0000_0000_0000 then [Low8(v | 0x80), Low8((v >> 7) | 0x80), Low8((v >> 14) | 0x80), Low8((v >> 21) | 0x80), Low8((v >> 28) | 0x80), Low8((v >> 35) | 0x80), Low8((v >> 42) | 0x80), Low8((v >> 49))]
    else [Low8(v | 0x80), Low8((v >> 7) | 0x80), Low8((v >> 14) | 0x80), Low8((v >> 21) | 0x80), Low8((v >> 28) | 0x80), Low8((v >> 35) | 0x80), Low8((v >> 42) | 0x80), Low8((v >> 49) | 0x80), Low8(v >> 56)]
  }

  /** A decoded value and the number of bytes it occupied. */
  datatype Decoded = Decoded(value: bv64, length: nat)

  /** The reader's cascade over nine buffered bytes: each stage XORs the
      next byte in at its group position and tests the sum against the
      next power of 128; on exit it XORs away the continuation flags
      folded in so far. */
  function Read7BitBytes(b0: byte, b1: byte, b2: byte, b3: byte, b4: byte, b5: byte, b6: byte, b7: byte, b8: byte): (r: Decoded)
    ensures 1 <= r.length <= 9
  {
    var x0 := b0 as bv64;
    if x0 < 0x80 then Decoded(x0, 1) else
    var x1 := x0 ^ ((b1 as bv64) << 7);
    if x1 < 0x4000 then Decoded(x1 ^ 0x80, 2) else
    var x2 := x1 ^ ((b2 as bv64) << 14);
    if x2 < 0x20_0000 then Decoded(x2 ^ 0x4080, 3) else
    var x3 := x2 ^ ((b3 as bv64) << 21);
    if x3 < 0x1000_0000 then Decoded(x3 ^ 0x20_4080, 4) else
    var x4 := x3 ^ ((b4 as bv64) << 28);
    if x4 < 0x8_0000_0000 then Decoded(x4 ^ 0x1020_4080, 5) else
    var x5 := x4 ^ ((b5 as bv64) << 35);
    if x5 < 0x400_0000_0000 then Decoded(x5 ^ 0x8_1020_4080, 6) else
    var x6 := x5 ^ ((b6 as bv64) << 42);
    if x6 < 0x2_0000_0000_0000 then Decoded(x6 ^ 0x408_1020_4080, 7) else
    var x7 := x6 ^ ((b7 as bv64) << 49);
    if x7 < 0x100_0000_0000_0000 then Decoded(x7 ^ 0x2_0408_1020_4080, 8) else
    var x8 := x7 ^ ((b8 as bv64) << 56);
    Decoded(x8 ^ 0x102_0408_1020_4080, 9)
  }

  /** The reader's decoding of the first nine bytes of `s`. */
  function Read7Bit(s: seq<byte>): (r: Decoded)
    requires |s| >= 9
    ensures 1 <= r.length <= 9
  {
    Read7BitBytes(s[0], s[1], s[2], s[3], s[4], s[5], s[6], s[7], s[8])
  }

  /** One group placed below the value of the groups that follow it. */
  function Nest(lo: byte, rest: bv64): bv64
  {
    ((lo & 0x7F) as bv64) | (rest << 7)
  }

  /** Reference decoder, group by group from byte `i` on: a flagged byte
      contributes its low seven bits and continues; the first byte without
      the flag, or the ninth byte, ends the value. */
  function DecodeAt(s: seq<byte>, i: nat): (r: Decoded)
    requires i <= 8 && |s| >= 9
    ensures 1 <= r.length <= 9 - i
    decreases 8 - i
  {
    if i == 8 || s[i] < 0x80 then Decoded(s[i] as bv64, 1)
    else
      var rest := DecodeAt(s, i + 1);
      Decoded(Nest(s[i], rest.value), rest.length + 1)
  }

  /** The decoded length runs exactly up to the first byte without the
      flag, or to the ninth byte. */
  lemma {:induction false} DecodeAtLength(s: seq<byte>, i: nat)
    requires i <= 8 && |s| >= 9
    ensures forall j | i <= j < i + DecodeAt(s, i).length - 1 :: s[j] >= 0x80
    ensures i + DecodeAt(s, i).length - 1 < 8 ==> s[i + DecodeAt(s, i).length - 1] < 0x80
    decreases 8 - i
  {
    if i < 8 && s[i] >= 0x80 {
      DecodeAtLength(s, i + 1);
    }
  }

  lemma DecodeAtContinue(s: seq<byte>, i: nat)
    requires i < 8 && |s| >= 9 && s[i] >= 0x80
    ensures DecodeAt(s, i) == Decoded(Nest(s[i], DecodeAt(s, i + 1).value), DecodeAt(s, i + 1).length + 1)
  {
  }

  lemma DecodeAtStop(s: seq<byte>, i: nat)
    requires i <= 8 && |s| >= 9 && (i == 8 || s[i] < 0x80)
    ensures DecodeAt(s, i) == Decoded(s[i] as bv64, 1)
  {
  }

  // Unfolding helpers, one per length, for Read7BitIsDecodeAt below. The
  // nine cases are written out because each one is a fixed-width bit-vector
  // fact that the solver checks quickly only with the length fixed. Case k
  // is the input whose first byte without the flag is byte k (case 8: the
  // first eight bytes are flagged). CascadeCase k is the bit-level half, on
  // the bytes alone; DecodeAtCase k unfolds the reference decoder; and
  // Read7BitCase k joins the two.

  lemma CascadeCase0(b0: byte, b1: byte, b2: byte, b3: byte, b4: byte, b5: byte, b6: byte, b7: byte, b8: byte)
    requires b0 < 0x80
    ensures Read7BitBytes(b0, b1, b2, b3, b4, b5, b6, b7, b8) == Decoded(b0 as bv64, 1)
  {
  }

  lemma CascadeCase1(b0: byte, b1: byte, b2: byte, b3: byte, b4: byte, b5: byte, b6: byte, b7: byte, b8: byte)
    requires b0 >= 0x80 && b1 < 0x80
    ensures Read7BitBytes(b0, b1, b2, b3, b4, b5, b6, b7, b8) == Decoded(Nest(b0, b1 as bv64), 2)
  {
  }

  lemma CascadeCase2(b0: byte, b1: byte, b2: byte, b3: byte, b4: byte, b5: byte, b6: byte, b7: byte, b8: byte)
    requires b0 >= 0x80 && b1 >= 0x80 && b2 < 0x80
    ensures Read7BitBytes(b0, b1, b2, b3, b4, b5, b6, b7, b8) == Decoded(Nest(b0, Nest(b1, b2 as bv64)), 3)
  {
  }

  lemma CascadeCase3(b0: byte, b1: byte, b2: byte, b3: byte, b4: byte, b5: byte, b6: byte, b7: byte, b8: byte)
    requires b0 >= 0x80 && b1 >= 0x80 && b2 >= 0x80 && b3 < 0x80
    ensures Read7BitBytes(b0, b1, b2, b3, b4, b5, b6, b7, b8) == Decoded(Nest(b0, Nest(b1, Nest(b2, b3 as bv64))), 4)
  {
  }

  lemma CascadeCase4(b0: byte, b1: byte, b2: byte, b3: byte, b4: byte, b5: byte, b6: byte, b7: byte, b8: byte)
    requires b0 >= 0x80 && b1 >= 0x80 && b2 >= 0x80 && b3 >= 0x80 && b4 < 0x80
    ensures Read7BitBytes(b0, b1, b2, b3, b4, b5, b6, b7, b8) == Decoded(Nest(b0, Nest(b1, Nest(b2, Nest(b3, b4 as bv64)))), 5)
  {
  }

  lemma CascadeCase5(b0: byte, b1: byte, b2: byte, b3: byte, b4: byte, b5: byte, b6: byte, b7: byte, b8: byte)
    requires b0 >= 0x80 && b1 >= 0x80 && b2 >= 0x80 && b3 >= 0x80 && b4 >= 0x80 && b5 < 0x80
    ensures Read7BitBytes(b0, b1, b2, b3, b4, b5, b6, b7, b8) == Decoded(Nest(b0, Nest(b1, Nest(b2, Nest(b3, Nest(b4, b5 as bv64))))), 6)
  {
  }

  lemma CascadeCase6(b0: byte, b1: byte, b2: byte, b3: byte, b4: byte, b5: byte, b6: byte, b7: byte, b8: byte)
    requires b0 >= 0x80 && b1 >= 0x80 && b2 >= 0x80 && b3 >= 0x80 && b4 >= 0x80 && b5 >= 0x80 && b6 < 0x80
    ensures Read7BitBytes(b0, b1, b2, b3, b4, b5, b6, b7, b8) == Decoded(Nest(b0, Nest(b1, Nest(b2, Nest(b3, Nest(b4, Nest(b5, b6 as bv64)))))), 7)
  {
  }

  lemma CascadeCase7(b0: byte, b1: byte, b2: byte, b3: byte, b4: byte, b5: byte, b6: byte, b7: byte, b8: byte)
    requires b0 >= 0x80 && b1 >= 0x80 && b2 >= 0x80 && b3 >= 0x80 && b4 >= 0x80 && b5 >= 0x80 && b6 >= 0x80 && b7 < 0x80
    ensures Read7BitBytes(b0, b1, b2, b3, b4, b5, b6, b7, b8) == Decoded(Nest(b0, Nest(b1, Nest(b2, Nest(b3, Nest(b4, Nest(b5, Nest(b6, b7 as bv64))))))), 8)
  {
  }

  lemma CascadeCase8(b0: byte, b1: byte, b2: byte, b3: byte, b4: byte, b5: byte, b6: byte, b7: byte, b8: byte)
    requires b0 >= 0x80 && b1 >= 0x80 && b2 >= 0x80 && b3 >= 0x80 && b4 >= 0x80 && b5 >= 0x80 && b6 >= 0x80 && b7 >= 0x80
    ensures Read7BitBytes(b0, b1, b2, b3, b4, b5, b6, b7, b8) == Decoded(Nest(b0, Nest(b1, Nest(b2, Nest(b3, Nest(b4, Nest(b5, Nest(b6, Nest(b7, b8 as bv64)))))))), 9)
  {
  }

  lemma DecodeAtCase0(s: seq<byte>)
    requires |s| >= 9 && s[0] < 0x80
    ensures DecodeAt(s, 0) == Decoded(s[0] as bv64, 1)
  {
    DecodeAtStop(s, 0);
  }

  lemma DecodeAtCase1(s: seq<byte>)
    requires |s| >= 9 && s[0] >= 0x80 && s[1] < 0x80
    ensures DecodeAt(s, 0) == Decoded(Nest(s[0], s[1] as bv64), 2)
  {
    DecodeAtStop(s, 1);
    DecodeAtContinue(s, 0);
  }

  lemma DecodeAtCase2(s: seq<byte>)
    requires |s| >= 9 && s[0] >= 0x80 && s[1] >= 0x80 && s[2] < 0x80
    ensures DecodeAt(s, 0) == Decoded(Nest(s[0], Nest(s[1], s[2] as bv64)), 3)
  {
    DecodeAtStop(s, 2);
    DecodeAtContinue(s, 1);
    DecodeAtContinue(s, 0);
  }

  lemma DecodeAtCase3(s: seq<byte>)
    requires |s| >= 9 && s[0] >= 0x80 && s[1] >= 0x80 && s[2] >= 0x80 && s[3] < 0x80
    ensures DecodeAt(s, 0) == Decoded(Nest(s[0], Nest(s[1], Nest(s[2], s[3] as bv64))), 4)
  {
    DecodeAtStop(s, 3);
    DecodeAtContinue(s, 2);
    DecodeAtContinue(s, 1);
    DecodeAtContinue(s, 0);
  }

  lemma DecodeAtCase4(s: seq<byte>)
    requires |s| >= 9 && s[0] >= 0x80 && s[1] >= 0x80 && s[2] >= 0x80 && s[3] >= 0x80 && s[4] < 0x80
    ensures DecodeAt(s, 0) == Decoded(Nest(s[0], Nest(s[1], Nest(s[2], Nest(s[3], s[4] as bv64)))), 5)
  {
    DecodeAtStop(s, 4);
    DecodeAtContinue(s, 3);
    DecodeAtContinue(s, 2);
    DecodeAtContinue(s, 1);
    DecodeAtContinue(s, 0);
  }

  lemma DecodeAtCase5(s: seq<byte>)
    requires |s| >= 9 && s[0] >= 0x80 && s[1] >= 0x80 && s[2] >= 0x80 && s[3] >= 0x80 && s[4] >= 0x80 && s[5] < 0x80
    ensures DecodeAt(s, 0) == Decoded(Nest(s[0], Nest(s[1], Nest(s[2], Nest(s[3], Nest(s[4], s[5] as bv64))))), 6)
  {
    DecodeAtStop(s, 5);
    DecodeAtContinue(s, 4);
    DecodeAtContinue(s, 3);
    DecodeAtContinue(s, 2);
    DecodeAtContinue(s, 1);
    DecodeAtContinue(s, 0);
  }

  lemma DecodeAtCase6(s: seq<byte>)
    requires |s| >= 9 && s[0] >= 0x80 && s[1] >= 0x80 && s[2] >= 0x80 && s[3] >= 0x80 && s[4] >= 0x80 && s[5] >= 0x80 && s[6] < 0x80
    ensures DecodeAt(s, 0) == Decoded(Nest(s[0], Nest(s[1], Nest(s[2], Nest(s[3], Nest(s[4], Nest(s[5], s[6] as bv64)))))), 7)
  {
    DecodeAtStop(s, 6);
    DecodeAtContinue(s, 5);
    DecodeAtContinue(s, 4);
    DecodeAtContinue(s, 3);
    DecodeAtContinue(s, 2);
    DecodeAtContinue(s, 1);
    DecodeAtContinue(s, 0);
  }

  lemma DecodeAtCase7(s: seq<byte>)
    requires |s| >= 9 && s[0] >= 0x80 && s[1] >= 0x80 && s[2] >= 0x80 && s[3] >= 0x80 && s[4] >= 0x80 && s[5] >= 0x80 && s[6] >= 0x80 && s[7] < 0x80
    ensures DecodeAt(s, 0) == Decoded(Nest(s[0], Nest(s[1], Nest(s[2], Nest(s[3], Nest(s[4], Nest(s[5], Nest(s[6], s[7] as bv64))))))), 8)
  {
    DecodeAtStop(s, 7);
    DecodeAtContinue(s, 6);
    DecodeAtContinue(s, 5);
    DecodeAtContinue(s, 4);
    DecodeAtContinue(s, 3);
    DecodeAtContinue(s, 2);
    DecodeAtContinue(s, 1);
    DecodeAtContinue(s, 0);
  }

  lemma DecodeAtCase8(s: seq<byte>)
    requires |s| >= 9 && s[0] >= 0x80 && s[1] >= 0x80 && s[2] >= 0x80 && s[3] >= 0x80 && s[4] >= 0x80 && s[5] >= 0x80 && s[6] >= 0x80 && s[7] >= 0x80
    ensures DecodeAt(s, 0) == Decoded(Nest(s[0], Nest(s[1], Nest(s[2], Nest(s[3], Nest(s[4], Nest(s[5], Nest(s[6], Nest(s[7], s[8] as bv64)))))))), 9)
  {
    DecodeAtTail8(s);
    DecodeAtContinue(s, 3);
    DecodeAtContinue(s, 2);
    DecodeAtContinue(s, 1);
    DecodeAtContinue(s, 0);
  }

  /** The last five groups of a nine-byte value. */
  lemma DecodeAtTail8(s: seq<byte>)
    requires |s| >= 9 && s[4] >= 0x80 && s[5] >= 0x80 && s[6] >= 0x80 && s[7] >= 0x80
    ensures DecodeAt(s, 4) == Decoded(Nest(s[4], Nest(s[5], Nest(s[6], Nest(s[7], s[8] as bv64)))), 5)
  {
    DecodeAtStop(s, 8);
    DecodeAtContinue(s, 7);
    DecodeAtContinue(s, 6);
    DecodeAtContinue(s, 5);
    DecodeAtContinue(s, 4);
  }

  lemma Read7BitCase0(s: seq<byte>)
    requires |s| >= 9 && s[0] < 0x80
    ensures Read7Bit(s) == DecodeAt(s, 0)
  {
    var b0, b1, b2, b3, b4, b5, b6, b7, b8 := s[0], s[1], s[2], s[3], s[4], s[5], s[6], s[7], s[8];
    assert Read7Bit(s) == Read7BitBytes(b0, b1, b2, b3, b4, b5, b6, b7, b8);
    CascadeCase0(b0, b1, b2, b3, b4, b5, b6, b7, b8);
    DecodeAtCase0(s);
  }

  lemma Read7BitCase1(s: seq<byte>)
    requires |s| >= 9 && s[0] >= 0x80 && s[1] < 0x80
    ensures Read7Bit(s) == DecodeAt(s, 0)
  {
    var b0, b1, b2, b3, b4, b5, b6, b7, b8 := s[0], s[1], s[2], s[3], s[4], s[5], s[6], s[7], s[8];
    assert Read7Bit(s) == Read7BitBytes(b0, b1, b2, b3, b4, b5, b6, b7, b8);
    CascadeCase1(b0, b1, b2, b3, b4, b5, b6, b7, b8);
    DecodeAtCase1(s);
  }

  lemma Read7BitCase2(s: seq<byte>)
    requires |s| >= 9 && s[0] >= 0x80 && s[1] >= 0x80 && s[2] < 0x80
    ensures Read7Bit(s) == DecodeAt(s, 0)
  {
    var b0, b1, b2, b3, b4, b5, b6, b7, b8 := s[0], s[1], s[2], s[3], s[4], s[5], s[6], s[7], s[8];
    assert Read7Bit(s) == Read7BitBytes(b0, b1, b2, b3, b4, b5, b6, b7, b8);
    CascadeCase2(b0, b1, b2, b3, b4, b5, b6, b7, b8);
    DecodeAtCase2(s);
  }

  lemma Read7BitCase3(s: seq<byte>)
    requires |s| >= 9 && s[0] >= 0x80 && s[1] >= 0x80 && s[2] >= 0x80 && s[3] < 0x80
    ensures Read7Bit(s) == DecodeAt(s, 0)
  {
    var b0, b1, b2, b3, b4, b5, b6, b7, b8 := s[0], s[1], s[2], s[3], s[4], s[5], s[6], s[7], s[8];
    assert Read7Bit(s) == Read7BitBytes(b0, b1, b2, b3, b4, b5, b6, b7, b8);
    CascadeCase3(b0, b1, b2, b3, b4, b5, b6, b7, b8);
    DecodeAtCase3(s);
  }

  lemma Read7BitCase4(s: seq<byte>)
    requires |s| >= 9 && s[0] >= 0x80 && s[1] >= 0x80 && s[2] >= 0x80 && s[3] >= 0x80 && s[4] < 0x80
    ensures Read7Bit(s) == DecodeAt(s, 0)
  {
    var b0, b1, b2, b3, b4, b5, b6, b7, b8 := s[0], s[1], s[2], s[3], s[4], s[5], s[6], s[7], s[8];
    assert Read7Bit(s) == Read7BitBytes(b0, b1, b2, b3, b4, b5, b6, b7, b8);
    CascadeCase4(b0, b1, b2, b3, b4, b5, b6, b7, b8);
    DecodeAtCase4(s);
  }

  lemma Read7BitCase5(s: seq<byte>)
    requires |s| >= 9 && s[0] >= 0x80 && s[1] >= 0x80 && s[2] >= 0x80 && s[3] >= 0x80 && s[4] >= 0x80 && s[5] < 0x80
    ensures Read7Bit(s) == DecodeAt(s, 0)
  {
    var b0, b1, b2, b3, b4, b5, b6, b7, b8 := s[0], s[1], s[2], s[3], s[4], s[5], s[6], s[7], s[8];
    assert Read7Bit(s) == Read7BitBytes(b0, b1, b2, b3, b4, b5, b6, b7, b8);
    CascadeCase5(b0, b1, b2, b3, b4, b5, b6, b7, b8);
    DecodeAtCase5(s);
  }

  lemma Read7BitCase6(s: seq<byte>)
    requires |s| >= 9 && s[0] >= 0x80 && s[1] >= 0x80 && s[2] >= 0x80 && s[3] >= 0x80 && s[4] >= 0x80 && s[5] >= 0x80 && s[6] < 0x80
    ensures Read7Bit(s) == DecodeAt(s, 0)
  {
    var b0, b1, b2, b3, b4, b5, b6, b7, b8 := s[0], s[1], s[2], s[3], s[4], s[5], s[6], s[7], s[8];
    assert Read7Bit(s) == Read7BitBytes(b0, b1, b2, b3, b4, b5, b6, b7, b8);
    CascadeCase6(b0, b1, b2, b3, b4, b5, b6, b7, b8);
    DecodeAtCase6(s);
  }

  lemma Read7BitCase7(s: seq<byte>)
    requires |s| >= 9 && s[0] >= 0x80 && s[1] >= 0x80 && s[2] >= 0x80 && s[3] >= 0x80 && s[4] >= 0x80 && s[5] >= 0x80 && s[6] >= 0x80 && s[7] < 0x80
    ensures Read7Bit(s) == DecodeAt(s, 0)
  {
    var b0, b1, b2, b3, b4, b5, b6, b7, b8 := s[0], s[1], s[2], s[3], s[4], s[5], s[6], s[7], s[8];
    assert Read7Bit(s) == Read7BitBytes(b0, b1, b2, b3, b4, b5, b6, b7, b8);
    CascadeCase7(b0, b1, b2, b3, b4, b5, b6, b7, b8);
    DecodeAtCase7(s);
  }

  lemma Read7BitCase8(s: seq<byte>)
    requires |s| >= 9 && s[0] >= 0x80 && s[1] >= 0x80 && s[2] >= 0x80 && s[3] >= 0x80 && s[4] >= 0x80 && s[5] >= 0x80 && s[6] >= 0x80 && s[7] >= 0x80
    ensures Read7Bit(s) == DecodeAt(s, 0)
  {
    var b0, b1, b2, b3, b4, b5, b6, b7, b8 := s[0], s[1], s[2], s[3], s[4], s[5], s[6], s[7], s[8];
    assert Read7Bit(s) == Read7BitBytes(b0, b1, b2, b3, b4, b5, b6, b7, b8);
    CascadeCase8(b0, b1, b2, b3, b4, b5, b6, b7, b8);
    DecodeAtCase8(s);
  }

  /** The reader's cascade computes the reference decoding, whatever the
      nine bytes are. */
  lemma Read7BitIsDecodeAt(s: seq<byte>)
    requires |s| >= 9
    ensures Read7Bit(s) == DecodeAt(s, 0)
  {
    if s[0] < 0x80 {
      Read7BitCase0(s);
    } else if s[1] < 0x80 {
      Read7BitCase1(s);
    } else if s[2] < 0x80 {
      Read7BitCase2(s);
    } else if s[3] < 0x80 {
      Read7BitCase3(s);
    } else if s[4] < 0x80 {
      Read7BitCase4(s);
    } else if s[5] < 0x80 {
      Read7BitCase5(s);
    } else if s[6] < 0x80 {
      Read7BitCase6(s);
    } else if s[7] < 0x80 {
      Read7BitCase7(s);
    } else {
      Read7BitCase8(s);
    }
  }

  // Unfolding helpers, one per length, for the round trip, length and shape
  // lemmas at the end of this module. Case k is the value that needs k + 1
  // bytes. EncodeCase k names the writer's branch k; GroupsCase k is the
  // bit-level fact about those bytes; ShapeCase k, RoundTripCase k and
  // LengthCase k apply it to the encoding.

  lemma EncodeCase0(v: bv64)
    requires v < 0x80
    ensures Encode7Bit(v) == [Low8(v)]
  {
  }

  lemma EncodeCase1(v: bv64)
    requires 0x80 <= v < 0x4000
    ensures Encode7Bit(v) == [Low8(v | 0x80), Low8((v >> 7))]
  {
  }

  lemma EncodeCase2(v: bv64)
    requires 0x4000 <= v < 0x20_0000
    ensures Encode7Bit(v) == [Low8(v | 0x80), Low8((v >> 7) | 0x80), Low8((v >> 14))]
  {
  }

  lemma EncodeCase3(v: bv64)
    requires 0x20_0000 <= v < 0x1000_0000
    ensures Encode7Bit(v) == [Low8(v | 0x80), Low8((v >> 7) | 0x80), Low8((v >> 14) | 0x80), Low8((v >> 21))]
  {
  }

  lemma EncodeCase4(v: bv64)
    requires 0x1000_0000 <= v < 0x8_0000_0000
    ensures Encode7Bit(v) == [Low8(v | 0x80), Low8((v >> 7) | 0x80), Low8((v >> 14) | 0x80), Low8((v >> 21) | 0x80), Low8((v >> 28))]
  {
  }

  lemma EncodeCase5(v: bv64)
    requires 0x8_0000_0000 <= v < 0x400_0000_0000
    ensures Encode7Bit(v) == [Low8(v | 0x80), Low8((v >> 7) | 0x80), Low8((v >> 14) | 0x80), Low8((v >> 21) | 0x80), Low8((v >> 28) | 0x80), Low8((v >> 35))]
  {
  }

  lemma EncodeCase6(v: bv64)
    requires 0x400_0000_0000 <= v < 0x2_0000_0000_0000
    ensures Encode7Bit(v) == [Low8(v | 0x80), Low8((v >> 7) | 0x80), Low8((v >> 14) | 0x80), Low8((v >> 21) | 0x80), Low8((v >> 28) | 0x80), Low8((v >> 35) | 0x80), Low8((v >> 42))]
  {
  }

  lemma EncodeCase7(v: bv64)
    requires 0x2_0000_0000_0000 <= v < 0x100_0000_0000_0000
    ensures Encode7Bit(v) == [Low8(v | 0x80), Low8((v >> 7) | 0x80), Low8((v >> 14) | 0x80), Low8((v >> 21) | 0x80), Low8((v >> 28) | 0x80), Low8((v >> 35) | 0x80), Low8((v >> 42) | 0x80), Low8((v >> 49))]
  {
  }

  lemma EncodeCase8(v: bv64)
    requires 0x100_0000_0000_0000 <= v
    ensures Encode7Bit(v) == [Low8(v | 0x80), Low8((v >> 7) | 0x80), Low8((v >> 14) | 0x80), Low8((v >> 21) | 0x80), Low8((v >> 28) | 0x80), Low8((v >> 35) | 0x80), Low8((v >> 42) | 0x80), Low8((v >> 49) | 0x80), Low8(v >> 56)]
  {
  }

  lemma GroupsCase0(v: bv64, b0: byte)
    requires v < 0x80
    requires b0 == Low8(v)
    ensures b0 < 0x80
    ensures b0 as bv64 == v
  {
  }

  lemma GroupsCase1(v: bv64, b0: byte, b1: byte)
    requires 0x80 <= v < 0x4000
    requires b0 == Low8(v | 0x80) && b1 == Low8((v >> 7))
    ensures b0 >= 0x80 && b1 < 0x80
    ensures Nest(b0, b1 as bv64) == v
  {
  }

  lemma GroupsCase2(v: bv64, b0: byte, b1: byte, b2: byte)
    requires 0x4000 <= v < 0x20_0000
    requires b0 == Low8(v | 0x80) && b1 == Low8((v >> 7) | 0x80) && b2 == Low8((v >> 14))
    ensures b0 >= 0x80 && b1 >= 0x80 && b2 < 0x80
    ensures Nest(b0, Nest(b1, b2 as bv64)) == v
  {
  }

  lemma GroupsCase3(v: bv64, b0: byte, b1: byte, b2: byte, b3: byte)
    requires 0x20_0000 <= v < 0x1000_0000
    requires b0 == Low8(v | 0x80) && b1 == Low8((v >> 7) | 0x80) && b2 == Low8((v >> 14) | 0x80) && b3 == Low8((v >> 21))
    ensures b0 >= 0x80 && b1 >= 0x80 && b2 >= 0x80 && b3 < 0x80
    ensures Nest(b0, Nest(b1, Nest(b2, b3 as bv64))) == v
  {
  }

  lemma GroupsCase4(v: bv64, b0: byte, b1: byte, b2: byte, b3: byte, b4: byte)
    requires 0x1000_0000 <= v < 0x8_0000_0000
    requires b0 == Low8(v | 0x80) && b1 == Low8((v >> 7) | 0x80) && b2 == Low8((v >> 14) | 0x80) && b3 == Low8((v >> 21) | 0x80) && b4 == Low8((v >> 28))
    ensures b0 >= 0x80 && b1 >= 0x80 && b2 >= 0x80 && b3 >= 0x80 && b4 < 0x80
    ensures Nest(b0, Nest(b1, Nest(b2, Nest(b3, b4 as bv64)))) == v
  {
  }

  lemma GroupsCase5(v: bv64, b0: byte, b1: byte, b2: byte, b3: byte, b4: byte, b5: byte)
    requires 0x8_0000_0000 <= v < 0x400_0000_0000
    requires b0 == Low8(v | 0x80) && b1 == Low8((v >> 7) | 0x80) && b2 == Low8((v >> 14) | 0x80) && b3 == Low8((v >> 21) | 0x80) && b4 == Low8((v >> 28) | 0x80) && b5 == Low8((v >> 35))
    ensures b0 >= 0x80 && b1 >= 0x80 && b2 >= 0x80 && b3 >= 0x80 && b4 >= 0x80 && b5 < 0x80
    ensures Nest(b0, Nest(b1, Nest(b2, Nest(b3, Nest(b4, b5 as bv64))))) == v
  {
  }

  lemma GroupsCase6(v: bv64, b0: byte, b1: byte, b2: byte, b3: byte, b4: byte, b5: byte, b6: byte)
    requires 0x400_0000_0000 <= v < 0x2_0000_0000_0000
    requires b0 == Low8(v | 0x80) && b1 == Low8((v >> 7) | 0x80) && b2 == Low8((v >> 14) | 0x80) && b3 == Low8((v >> 21) | 0x80) && b4 == Low8((v >> 28) | 0x80) && b5 == Low8((v >> 35) | 0x80) && b6 == Low8((v >> 42))
    ensures b0 >= 0x80 && b1 >= 0x80 && b2 >= 0x80 && b3 >= 0x80 && b4 >= 0x80 && b5 >= 0x80 && b6 < 0x80
    ensures Nest(b0, Nest(b1, Nest(b2, Nest(b3, Nest(b4, Nest(b5, b6 as bv64)))))) == v
  {
  }

  lemma GroupsCase7(v: bv64, b0: byte, b1: byte, b2: byte, b3: byte, b4: byte, b5: byte, b6: byte, b7: byte)
    requires 0x2_0000_0000_0000 <= v < 0x100_0000_0000_0000
    requires b0 == Low8(v | 0x80) && b1 == Low8((v >> 7) | 0x80) && b2 == Low8((v >> 14) | 0x80) && b3 == Low8((v >> 21) | 0x80) && b4 == Low8((v >> 28) | 0x80) && b5 == Low8((v >> 35) | 0x80) && b6 == Low8((v >> 42) | 0x80) && b7 == Low8((v >> 49))
    ensures b0 >= 0x80 && b1 >= 0x80 && b2 >= 0x80 && b3 >= 0x80 && b4 >= 0x80 && b5 >= 0x80 && b6 >= 0x80 && b7 < 0x80
    ensures Nest(b0, Nest(b1, Nest(b2, Nest(b3, Nest(b4, Nest(b5, Nest(b6, b7 as bv64))))))) == v
  {
  }

  lemma GroupsCase8(v: bv64, b0: byte, b1: byte, b2: byte, b3: byte, b4: byte, b5: byte, b6: byte, b7: byte, b8: byte)
    requires 0x100_0000_0000_0000 <= v
    requires b0 == Low8(v | 0x80) && b1 == Low8((v >> 7) | 0x80) && b2 == Low8((v >> 14) | 0x80) && b3 == Low8((v >> 21) | 0x80) && b4 == Low8((v >> 28) | 0x80) && b5 == Low8((v >> 35) | 0x80) && b6 == Low8((v >> 42) | 0x80) && b7 == Low8((v >> 49) | 0x80) && b8 == Low8(v >> 56)
    ensures b0 >= 0x80 && b1 >= 0x80 && b2 >= 0x80 && b3 >= 0x80 && b4 >= 0x80 && b5 >= 0x80 && b6 >= 0x80 && b7 >= 0x80
    ensures Nest(b0, Nest(b1, Nest(b2, Nest(b3, Nest(b4, Nest(b5, Nest(b6, Nest(b7, b8 as bv64)))))))) == v
  {
  }

  lemma ShapeCase0(v: bv64)
    requires v < 0x80
    ensures |Encode7Bit(v)| == 1
    ensures Encode7Bit(v)[0] < 0x80
  {
    EncodeCase0(v);
    var e := Encode7Bit(v);
    GroupsCase0(v, e[0]);
  }

  lemma ShapeCase1(v: bv64)
    requires 0x80 <= v < 0x4000
    ensures |Encode7Bit(v)| == 2
    ensures forall j | 0 <= j < 1 :: Encode7Bit(v)[j] >= 0x80
    ensures Encode7Bit(v)[1] < 0x80
  {
    EncodeCase1(v);
    var e := Encode7Bit(v);
    GroupsCase1(v, e[0], e[1]);
  }

  lemma ShapeCase2(v: bv64)
    requires 0x4000 <= v < 0x20_0000
    ensures |Encode7Bit(v)| == 3
    ensures forall j | 0 <= j < 2 :: Encode7Bit(v)[j] >= 0x80
    ensures Encode7Bit(v)[2] < 0x80
  {
    EncodeCase2(v);
    var e := Encode7Bit(v);
    GroupsCase2(v, e[0], e[1], e[2]);
  }

  lemma ShapeCase3(v: bv64)
    requires 0x20_0000 <= v < 0x1000_0000
    ensures |Encode7Bit(v)| == 4
    ensures forall j | 0 <= j < 3 :: Encode7Bit(v)[j] >= 0x80
    ensures Encode7Bit(v)[3] < 0x80
  {
    EncodeCase3(v);
    var e := Encode7Bit(v);
    GroupsCase3(v, e[0], e[1], e[2], e[3]);
  }

  lemma ShapeCase4(v: bv64)
    requires 0x1000_0000 <= v < 0x8_0000_0000
    ensures |Encode7Bit(v)| == 5
    ensures forall j | 0 <= j < 4 :: Encode7Bit(v)[j] >= 0x80
    ensures Encode7Bit(v)[4] < 0x80
  {
    EncodeCase4(v);
    var e := Encode7Bit(v);
    GroupsCase4(v, e[0], e[1], e[2], e[3], e[4]);
  }

  lemma ShapeCase5(v: bv64)
    requires 0x8_0000_0000 <= v < 0x400_0000_0000
    ensures |Encode7Bit(v)| == 6
    ensures forall j | 0 <= j < 5 :: Encode7Bit(v)[j] >= 0x80
    ensures Encode7Bit(v)[5] < 0x80
  {
    EncodeCase5(v);
    var e := Encode7Bit(v);
    GroupsCase5(v, e[0], e[1], e[2], e[3], e[4], e[5]);
  }

  lemma ShapeCase6(v: bv64)
    requires 0x400_0000_0000 <= v < 0x2_0000_0000_0000
    ensures |Encode7Bit(v)| == 7
    ensures forall j | 0 <= j < 6 :: Encode7Bit(v)[j] >= 0x80
    ensures Encode7Bit(v)[6] < 0x80
  {
    EncodeCase6(v);
    var e := Encode7Bit(v);
    GroupsCase6(v, e[0], e[1], e[2], e[3], e[4], e[5], e[6]);
  }

  lemma ShapeCase7(v: bv64)
    requires 0x2_0000_0000_0000 <= v < 0x100_0000_0000_0000
    ensures |Encode7Bit(v)| == 8
    ensures forall j | 0 <= j < 7 :: Encode7Bit(v)[j] >= 0x80
    ensures Encode7Bit(v)[7] < 0x80
  {
    EncodeCase7(v);
    var e := Encode7Bit(v);
    GroupsCase7(v, e[0], e[1], e[2], e[3], e[4], e[5], e[6], e[7]);
  }

  lemma ShapeCase8(v: bv64)
    requires 0x100_0000_0000_0000 <= v
    ensures |Encode7Bit(v)| == 9
    ensures forall j | 0 <= j < 8 :: Encode7Bit(v)[j] >= 0x80
  {
    EncodeCase8(v);
    var e := Encode7Bit(v);
    GroupsCase8(v, e[0], e[1], e[2], e[3], e[4], e[5], e[6], e[7], e[8]);
  }

  lemma RoundTripCase0(v: bv64, rest: seq<byte>)
    requires v < 0x80 && |Encode7Bit(v) + rest| >= 9
    ensures Read7Bit(Encode7Bit(v) + rest) == Decoded(v, 1)
  {
    EncodeCase0(v);
    var e, s := Encode7Bit(v), Encode7Bit(v) + rest;
    assert forall j | 0 <= j < 1 :: s[j] == e[j];
    var b0, b1, b2, b3, b4, b5, b6, b7, b8 := s[0], s[1], s[2], s[3], s[4], s[5], s[6], s[7], s[8];
    GroupsCase0(v, b0);
    assert Read7Bit(s) == Read7BitBytes(b0, b1, b2, b3, b4, b5, b6, b7, b8);
    CascadeCase0(b0, b1, b2, b3, b4, b5, b6, b7, b8);
  }

  lemma RoundTripCase1(v: bv64, rest: seq<byte>)
    requires 0x80 <= v < 0x4000 && |Encode7Bit(v) + rest| >= 9
    ensures Read7Bit(Encode7Bit(v) + rest) == Decoded(v, 2)
  {
    EncodeCase1(v);
    var e, s := Encode7Bit(v), Encode7Bit(v) + rest;
    assert forall j | 0 <= j < 2 :: s[j] == e[j];
    var b0, b1, b2, b3, b4, b5, b6, b7, b8 := s[0], s[1], s[2], s[3], s[4], s[5], s[6], s[7], s[8];
    GroupsCase1(v, b0, b1);
    assert Read7Bit(s) == Read7BitBytes(b0, b1, b2, b3, b4, b5, b6, b7, b8);
    CascadeCase1(b0, b1, b2, b3, b4, b5, b6, b7, b8);
  }

  lemma RoundTripCase2(v: bv64, rest: seq<byte>)
    requires 0x4000 <= v < 0x20_0000 && |Encode7Bit(v) + rest| >= 9
    ensures Read7Bit(Encode7Bit(v) + rest) == Decoded(v, 3)
  {
    EncodeCase2(v);
    var e, s := Encode7Bit(v), Encode7Bit(v) + rest;
    assert forall j | 0 <= j < 3 :: s[j] == e[j];
    var b0, b1, b2, b3, b4, b5, b6, b7, b8 := s[0], s[1], s[2], s[3], s[4], s[5], s[6], s[7], s[8];
    GroupsCase2(v, b0, b1, b2);
    assert Read7Bit(s) == Read7BitBytes(b0, b1, b2, b3, b4, b5, b6, b7, b8);
    CascadeCase2(b0, b1, b2, b3, b4, b5, b6, b7, b8);
  }

  lemma RoundTripCase3(v: bv64, rest: seq<byte>)
    requires 0x20_0000 <= v < 0x1000_0000 && |Encode7Bit(v) + rest| >= 9
    ensures Read7Bit(Encode7Bit(v) + rest) == Decoded(v, 4)
  {
    EncodeCase3(v);
    var e, s := Encode7Bit(v), Encode7Bit(v) + rest;
    assert forall j | 0 <= j < 4 :: s[j] == e[j];
    var b0, b1, b2, b3, b4, b5, b6, b7, b8 := s[0], s[1], s[2], s[3], s[4], s[5], s[6], s[7], s[8];
    GroupsCase3(v, b0, b1, b2, b3);
    assert Read7Bit(s) == Read7BitBytes(b0, b1, b2, b3, b4, b5, b6, b7, b8);
    CascadeCase3(b0, b1, b2, b3, b4, b5, b6, b7, b8);
  }

  lemma RoundTripCase4(v: bv64, rest: seq<byte>)
    requires 0x1000_0000 <= v < 0x8_0000_0000 && |Encode7Bit(v) + rest| >= 9
    ensures Read7Bit(Encode7Bit(v) + rest) == Decoded(v, 5)
  {
    EncodeCase4(v);
    var e, s := Encode7Bit(v), Encode7Bit(v) + rest;
    assert forall j | 0 <= j < 5 :: s[j] == e[j];
    var b0, b1, b2, b3, b4, b5, b6, b7, b8 := s[0], s[1], s[2], s[3], s[4], s[5], s[6], s[7], s[8];
    GroupsCase4(v, b0, b1, b2, b3, b4);
    assert Read7Bit(s) == Read7BitBytes(b0, b1, b2, b3, b4, b5, b6, b7, b8);
    CascadeCase4(b0, b1, b2, b3, b4, b5, b6, b7, b8);
  }

  lemma RoundTripCase5(v: bv64, rest: seq<byte>)
    requires 0x8_0000_0000 <= v < 0x400_0000_0000 && |Encode7Bit(v) + rest| >= 9
    ensures Read7Bit(Encode7Bit(v) + rest) == Decoded(v, 6)
  {
    EncodeCase5(v);
    var e, s := Encode7Bit(v), Encode7Bit(v) + rest;
    assert forall j | 0 <= j < 6 :: s[j] == e[j];
    var b0, b1, b2, b3, b4, b5, b6, b7, b8 := s[0], s[1], s[2], s[3], s[4], s[5], s[6], s[7], s[8];
    GroupsCase5(v, b0, b1, b2, b3, b4, b5);
    assert Read7Bit(s) == Read7BitBytes(b0, b1, b2, b3, b4, b5, b6, b7, b8);
    CascadeCase5(b0, b1, b2, b3, b4, b5, b6, b7, b8);
  }

  lemma RoundTripCase6(v: bv64, rest: seq<byte>)
    requires 0x400_0000_0000 <= v < 0x2_0000_0000_0000 && |Encode7Bit(v) + rest| >= 9
    ensures Read7Bit(Encode7Bit(v) + rest) == Decoded(v, 7)
  {
    EncodeCase6(v);
    var e, s := Encode7Bit(v), Encode7Bit(v) + rest;
    assert forall j | 0 <= j < 7 :: s[j] == e[j];
    var b0, b1, b2, b3, b4, b5, b6, b7, b8 := s[0], s[1], s[2], s[3], s[4], s[5], s[6], s[7], s[8];
    GroupsCase6(v, b0, b1, b2, b3, b4, b5, b6);
    assert Read7Bit(s) == Read7BitBytes(b0, b1, b2, b3, b4, b5, b6, b7, b8);
    CascadeCase6(b0, b1, b2, b3, b4, b5, b6, b7, b8);
  }

  lemma RoundTripCase7(v: bv64, rest: seq<byte>)
    requires 0x2_0000_0000_0000 <= v < 0x100_0000_0000_0000 && |Encode7Bit(v) + rest| >= 9
    ensures Read7Bit(Encode7Bit(v) + rest) == Decoded(v, 8)
  {
    EncodeCase7(v);
    var e, s := Encode7Bit(v), Encode7Bit(v) + rest;
    assert forall j | 0 <= j < 8 :: s[j] == e[j];
    var b0, b1, b2, b3, b4, b5, b6, b7, b8 := s[0], s[1], s[2], s[3], s[4], s[5], s[6], s[7], s[8];
    GroupsCase7(v, b0, b1, b2, b3, b4, b5, b6, b7);
    assert Read7Bit(s) == Read7BitBytes(b0, b1, b2, b3, b4, b5, b6, b7, b8);
    CascadeCase7(b0, b1, b2, b3, b4, b5, b6, b7, b8);
  }

  lemma RoundTripCase8(v: bv64, rest: seq<byte>)
    requires 0x100_0000_0000_0000 <= v && |Encode7Bit(v) + rest| >= 9
    ensures Read7Bit(Encode7Bit(v) + rest) == Decoded(v, 9)
  {
    EncodeCase8(v);
    var e, s := Encode7Bit(v), Encode7Bit(v) + rest;
    assert forall j | 0 <= j < 9 :: s[j] == e[j];
    var b0, b1, b2, b3, b4, b5, b6, b7, b8 := s[0], s[1], s[2], s[3], s[4], s[5], s[6], s[7], s[8];
    GroupsCase8(v, b0, b1, b2, b3, b4, b5, b6, b7, b8);
    assert Read7Bit(s) == Read7BitBytes(b0, b1, b2, b3, b4, b5, b6, b7, b8);
    CascadeCase8(b0, b1, b2, b3, b4, b5, b6, b7, b8);
  }

  /** Decoding any nine or more bytes that begin with the encoding of `v`
      gives `v` and the length of that encoding. */
  lemma Read7BitOfPrefix(v: bv64, s: seq<byte>)
    requires |s| >= 9 && IsPrefix(Encode7Bit(v), s)
    ensures Read7Bit(s) == Decoded(v, |Encode7Bit(v)|)
  {
    var e := Encode7Bit(v);
    assert s == e + s[|e|..];
    Read7BitRoundTrip(v, s[|e|..]);
  }

  /** The reference decoder reads the same from such bytes. */
  lemma DecodeAtOfPrefix(v: bv64, s: seq<byte>)
    requires |s| >= 9 && IsPrefix(Encode7Bit(v), s)
    ensures DecodeAt(s, 0) == Decoded(v, |Encode7Bit(v)|)
  {
    Read7BitOfPrefix(v, s);
    Read7BitIsDecodeAt(s);
  }

  /** The reader's cascade inverts the writer, and consumes exactly the
      bytes that were written, whatever follows them. */
  lemma Read7BitRoundTrip(v: bv64, rest: seq<byte>)
    requires |Encode7Bit(v) + rest| >= 9
    ensures Read7Bit(Encode7Bit(v) + rest) == Decoded(v, |Encode7Bit(v)|)
  {
    if v < 0x80 {
      ShapeCase0(v); RoundTripCase0(v, rest);
    } else if v < 0x4000 {
      ShapeCase1(v); RoundTripCase1(v, rest);
    } else if v < 0x20_0000 {
      ShapeCase2(v); RoundTripCase2(v, rest);
    } else if v < 0x1000_0000 {
      ShapeCase3(v); RoundTripCase3(v, rest);
    } else if v < 0x8_0000_0000 {
      ShapeCase4(v); RoundTripCase4(v, rest);
    } else if v < 0x400_0000_0000 {
      ShapeCase5(v); RoundTripCase5(v, rest);
    } else if v < 0x2_0000_0000_0000 {
      ShapeCase6(v); RoundTripCase6(v, rest);
    } else if v < 0x100_0000_0000_0000 {
      ShapeCase7(v); RoundTripCase7(v, rest);
    } else {
      ShapeCase8(v); RoundTripCase8(v, rest);
    }
  }

  /** So does the reference decoder. */
  lemma DecodeAtRoundTrip(v: bv64, rest: seq<byte>)
    requires |Encode7Bit(v) + rest| >= 9
    ensures DecodeAt(Encode7Bit(v) + rest, 0) == Decoded(v, |Encode7Bit(v)|)
  {
    Read7BitIsDecodeAt(Encode7Bit(v) + rest);
    Read7BitRoundTrip(v, rest);
  }

  /** The table above is the powers of 128: each entry is 128 times the
      one before. */
  lemma Pow128Step(k: nat)
    requires 0 < k <= 8
    ensures Pow128(k) == 128 * Pow128(k - 1)
  {
  }

  lemma LengthCase0(v: bv64)
    requires v < 0x80
    ensures v < Pow128(1)
  {
  }

  lemma LengthCase1(v: bv64)
    requires 0x80 <= v < 0x4000
    ensures Pow128(1) <= v
    ensures v < Pow128(2)
  {
  }

  lemma LengthCase2(v: bv64)
    requires 0x4000 <= v < 0x20_0000
    ensures Pow128(2) <= v
    ensures v < Pow128(3)
  {
  }

  lemma LengthCase3(v: bv64)
    requires 0x20_0000 <= v < 0x1000_0000
    ensures Pow128(3) <= v
    ensures v < Pow128(4)
  {
  }

  lemma LengthCase4(v: bv64)
    requires 0x1000_0000 <= v < 0x8_0000_0000
    ensures Pow128(4) <= v
    ensures v < Pow128(5)
  {
  }

  lemma LengthCase5(v: bv64)
    requires 0x8_0000_0000 <= v < 0x400_0000_0000
    ensures Pow128(5) <= v
    ensures v < Pow128(6)
  {
  }

  lemma LengthCase6(v: bv64)
    requires 0x400_0000_0000 <= v < 0x2_0000_0000_0000
    ensures Pow128(6) <= v
    ensures v < Pow128(7)
  {
  }

  lemma LengthCase7(v: bv64)
    requires 0x2_0000_0000_0000 <= v < 0x100_0000_0000_0000
    ensures Pow128(7) <= v
    ensures v < Pow128(8)
  {
  }

  lemma LengthCase8(v: bv64)
    requires 0x100_0000_0000_0000 <= v
    ensures Pow128(8) <= v
  {
  }

  /** The writer uses the fewest bytes that hold the value: k bytes for
      the values from 128^(k-1) up to 128^k, nine bytes from 128^8 on. */
  lemma Encode7BitLength(v: bv64)
    ensures |Encode7Bit(v)| == 1 || Pow128(|Encode7Bit(v)| - 1) <= v
    ensures |Encode7Bit(v)| == 9 || v < Pow128(|Encode7Bit(v)|)
  {
    if v < 0x80 {
      ShapeCase0(v); LengthCase0(v);
    } else if v < 0x4000 {
      ShapeCase1(v); LengthCase1(v);
    } else if v < 0x20_0000 {
      ShapeCase2(v); LengthCase2(v);
    } else if v < 0x1000_0000 {
      ShapeCase3(v); LengthCase3(v);
    } else if v < 0x8_0000_0000 {
      ShapeCase4(v); LengthCase4(v);
    } else if v < 0x400_0000_0000 {
      ShapeCase5(v); LengthCase5(v);
    } else if v < 0x2_0000_0000_0000 {
      ShapeCase6(v); LengthCase6(v);
    } else if v < 0x100_0000_0000_0000 {
      ShapeCase7(v); LengthCase7(v);
    } else {
      ShapeCase8(v); LengthCase8(v);
    }
  }

  /** Every byte but the last carries the continuation flag; the last one
      is free of it unless it is the ninth, which is a whole byte. */
  lemma Encode7BitShape(v: bv64)
    ensures forall j | 0 <= j < |Encode7Bit(v)| - 1 :: Encode7Bit(v)[j] >= 0x80
    ensures |Encode7Bit(v)| < 9 ==> Encode7Bit(v)[|Encode7Bit(v)| - 1] < 0x80
    ensures |Encode7Bit(v)| == 9 ==> Encode7Bit(v)[8] == Low8(v >> 56)
  {
    if v < 0x80 {
      ShapeCase0(v);
    } else if v < 0x4000 {
      ShapeCase1(v);
    } else if v < 0x20_0000 {
      ShapeCase2(v);
    } else if v < 0x1000_0000 {
      ShapeCase3(v);
    } else if v < 0x8_0000_0000 {
      ShapeCase4(v);
    } else if v < 0x400_0000_0000 {
      ShapeCase5(v);
    } else if v < 0x2_0000_0000_0000 {
      ShapeCase6(v);
    } else if v < 0x100_0000_0000_0000 {
      ShapeCase7(v);
    } else {
      ShapeCase8(v);
    }
  }
}
