/**
 * Bit-level vocabulary shared by the distance metric and the encoder:
 * little-endian packing of eight payload bytes into a 64-bit word, and the
 * two bits of each of the word's 32 bit-pairs, read the way the tag store's
 * loops read them (shift the word right by two per pair, test `& 2` and `& 1`).
 */
module Bits {

  type Byte = bv8

  /** Number of 2-bit pairs in a 64-bit word. */
  const Pairs: nat := 32

  /** Bit 1 of every pair: the bits the distance metric compares. */
  const HighMask: bv64 := 0xAAAA_AAAA_AAAA_AAAA

  /** The most significant bit of the word, where the encoder's flip for pair 0 lands. */
  const TopBit: bv64 := 0x8000_0000_0000_0000

  /** Packs `b[0..8]` into a word, `b[0]` being the least significant byte. */
  function Pack(b: seq<Byte>): bv64
    requires |b| >= 8
  {
    PackFrom(b, 0)
  }

  /** One step of the packing: a byte below a word shifted up by one byte. */
  function PutBelow(a: Byte, q: bv64): bv64
  {
    (a as bv64) | (q << 8)
  }

  /** Bytes `b[i..8]` packed little-endian: byte `i`, then the rest shifted up by one byte. */
  function PackFrom(b: seq<Byte>, i: nat): bv64
    requires |b| >= 8 && i <= 8
    decreases 8 - i
  {
    if i == 8 then 0 else PutBelow(b[i], PackFrom(b, i + 1))
  }

  /** The packing expression of the tag store, on eight explicit bytes. */
  function Pack8(b0: Byte, b1: Byte, b2: Byte, b3: Byte, b4: Byte, b5: Byte, b6: Byte, b7: Byte): bv64
  {
    (b0 as bv64)
    | ((b1 as bv64) << 8)
    | ((b2 as bv64) << 16)
    | ((b3 as bv64) << 24)
    | ((b4 as bv64) << 32)
    | ((b5 as bv64) << 40)
    | ((b6 as bv64) << 48)
    | ((b7 as bv64) << 56)
  }

  /** Byte `i` of a word, counting from the least significant. */
  function ByteOf(w: bv64, i: nat): Byte
    requires i < 8
  {
    match i
    case 0 => (w & 0xFF) as bv8
    case 1 => ((w >> 8) & 0xFF) as bv8
    case 2 => ((w >> 16) & 0xFF) as bv8
    case 3 => ((w >> 24) & 0xFF) as bv8
    case 4 => ((w >> 32) & 0xFF) as bv8
    case 5 => ((w >> 40) & 0xFF) as bv8
    case 6 => ((w >> 48) & 0xFF) as bv8
    case _ => ((w >> 56) & 0xFF) as bv8
  }

  /** Splits a word into its eight bytes, least significant first. */
  function Unpack(w: bv64): (b: seq<Byte>)
    ensures |b| == 8
  {
    seq(8, i requires 0 <= i < 8 => ByteOf(w, i))
  }

  /** The byte-by-byte packing of eight bytes is the source's flat expression. */
  lemma PutBelowIsFlat(b0: Byte, b1: Byte, b2: Byte, b3: Byte, b4: Byte, b5: Byte, b6: Byte, b7: Byte,
                       p0: bv64, p1: bv64, p2: bv64, p3: bv64, p4: bv64, p5: bv64, p6: bv64, p7: bv64)
    requires p7 == PutBelow(b7, 0) && p6 == PutBelow(b6, p7) && p5 == PutBelow(b5, p6) && p4 == PutBelow(b4, p5)
    requires p3 == PutBelow(b3, p4) && p2 == PutBelow(b2, p3) && p1 == PutBelow(b1, p2) && p0 == PutBelow(b0, p1)
    ensures p0 == Pack8(b0, b1, b2, b3, b4, b5, b6, b7)
  {
  }

  /** The eight steps of `PackFrom` on one payload. */
  lemma PackFromSteps(b: seq<Byte>, p0: bv64, p1: bv64, p2: bv64, p3: bv64, p4: bv64, p5: bv64, p6: bv64, p7: bv64)
    requires |b| >= 8
    requires p7 == PackFrom(b, 7) && p6 == PackFrom(b, 6) && p5 == PackFrom(b, 5) && p4 == PackFrom(b, 4)
    requires p3 == PackFrom(b, 3) && p2 == PackFrom(b, 2) && p1 == PackFrom(b, 1) && p0 == PackFrom(b, 0)
    ensures p7 == PutBelow(b[7], 0) && p6 == PutBelow(b[6], p7) && p5 == PutBelow(b[5], p6) && p4 == PutBelow(b[4], p5)
    ensures p3 == PutBelow(b[3], p4) && p2 == PutBelow(b[2], p3) && p1 == PutBelow(b[1], p2) && p0 == PutBelow(b[0], p1)
  {
  }

  /** `Pack` computes the source's eight-term expression. */
  lemma PackIsSourceExpression(b: seq<Byte>)
    requires |b| >= 8
    ensures Pack(b) == Pack8(b[0], b[1], b[2], b[3], b[4], b[5], b[6], b[7])
  {
    var p7, p6, p5, p4 := PackFrom(b, 7), PackFrom(b, 6), PackFrom(b, 5), PackFrom(b, 4);
    var p3, p2, p1, p0 := PackFrom(b, 3), PackFrom(b, 2), PackFrom(b, 1), PackFrom(b, 0);
    PackFromSteps(b, p0, p1, p2, p3, p4, p5, p6, p7);
    PutBelowIsFlat(b[0], b[1], b[2], b[3], b[4], b[5], b[6], b[7], p0, p1, p2, p3, p4, p5, p6, p7);
  }

  /** Packing forgets nothing of the first eight bytes. */
  lemma UnpackPack(b: seq<Byte>)
    requires |b| >= 8
    ensures Unpack(Pack(b)) == b[..8]
  {
    var w := Pack(b);
    PackIsSourceExpression(b);
    PackBytes(b[0], b[1], b[2], b[3], b[4], b[5], b[6], b[7]);
    assert forall i :: 0 <= i < 8 ==> Unpack(w)[i] == b[i];
  }

  /** Byte `i` of the source's packing expression is its `i`-th argument. */
  lemma PackBytes(b0: Byte, b1: Byte, b2: Byte, b3: Byte, b4: Byte, b5: Byte, b6: Byte, b7: Byte)
    ensures var w := Pack8(b0, b1, b2, b3, b4, b5, b6, b7);
      && ByteOf(w, 0) == b0 && ByteOf(w, 1) == b1 && ByteOf(w, 2) == b2 && ByteOf(w, 3) == b3
      && ByteOf(w, 4) == b4 && ByteOf(w, 5) == b5 && ByteOf(w, 6) == b6 && ByteOf(w, 7) == b7
  {
  }

  /** Every word is the packing of some eight bytes: its own. */
  lemma PackUnpack(w: bv64)
    ensures Pack(Unpack(w)) == w
  {
    var b := Unpack(w);
    PackIsSourceExpression(b);
    UnpackedBytes(w, b[0], b[1], b[2], b[3], b[4], b[5], b[6], b[7]);
  }

  lemma UnpackedBytes(w: bv64, b0: Byte, b1: Byte, b2: Byte, b3: Byte, b4: Byte, b5: Byte, b6: Byte, b7: Byte)
    requires b0 == ByteOf(w, 0) && b1 == ByteOf(w, 1) && b2 == ByteOf(w, 2) && b3 == ByteOf(w, 3)
    requires b4 == ByteOf(w, 4) && b5 == ByteOf(w, 5) && b6 == ByteOf(w, 6) && b7 == ByteOf(w, 7)
    ensures Pack8(b0, b1, b2, b3, b4, b5, b6, b7) == w
  {
  }

  /**
   * Bit 1 (the high, "representative" bit) of pair `k`, read as the source's
   * loop reads it: after `k` iterations of `>>= 2`, test `& 2`.
   */
  predicate HiBit(w: bv64, k: nat)
    decreases k
  {
    if k == 0 then w & 2 != 0 else HiBit(w >> 2, k - 1)
  }

  /** Bit 0 (the low bit) of pair `k`: after `k` shifts by two, test `& 1`. */
  predicate LoBit(w: bv64, k: nat)
    decreases k
  {
    if k == 0 then w & 1 != 0 else LoBit(w >> 2, k - 1)
  }

  /** The encoder's flip mask for pair `k`: the single bit `63 - 2k`. */
  function FlipBit(k: nat): bv64
  {
    if k == 0 then TopBit else FlipBit(k - 1) >> 2
  }

  // Single-step bit-vector facts, kept apart so that each is decided on its own.

  lemma XorShift(x: bv64, y: bv64)
    ensures (x ^ y) >> 2 == (x >> 2) ^ (y >> 2)
  {
  }

  lemma XorBit(x: bv64, y: bv64)
    ensures (x ^ y) & 2 != 0 <==> ((x & 2 != 0) != (y & 2 != 0))
  {
  }

  lemma LowOnlyShift(x: bv64)
    requires x & HighMask == 0
    ensures (x >> 2) & HighMask == 0 && x & 2 == 0
  {
  }

  /** The high bit of pair `k` of `a ^ b` tells whether `a` and `b` differ there. */
  lemma {:induction false} HiBitXor(a: bv64, b: bv64, k: nat)
    ensures HiBit(a ^ b, k) == (HiBit(a, k) != HiBit(b, k))
    decreases k
  {
    if k == 0 {
      XorBit(a, b);
    } else {
      var a', b' := a >> 2, b >> 2;
      HiBitXor(a', b', k - 1);
      HiBitXorStep(a, b, a', b', k);
    }
  }

  lemma HiBitXorStep(a: bv64, b: bv64, a': bv64, b': bv64, k: nat)
    requires k > 0 && a' == a >> 2 && b' == b >> 2
    requires HiBit(a' ^ b', k - 1) == (HiBit(a', k - 1) != HiBit(b', k - 1))
    ensures HiBit(a ^ b, k) == (HiBit(a, k) != HiBit(b, k))
  {
    var x, x' := a ^ b, a' ^ b';
    XorShift(a, b);
    assert x >> 2 == x';
    HiBitStep(a, a', k);
    HiBitStep(b, b', k);
    HiBitStep(x, x', k);
  }

  lemma HiBitStep(w: bv64, w': bv64, k: nat)
    requires k > 0 && w' == w >> 2
    ensures HiBit(w, k) == HiBit(w', k - 1)
  {
  }

  /** A word with no high pair bit has a clear high bit in every pair. */
  lemma {:induction false} LowOnlyHiBit(m: bv64, k: nat)
    requires m & HighMask == 0
    ensures !HiBit(m, k)
    decreases k
  {
    LowOnlyShift(m);
    if k > 0 {
      var m' := m >> 2;
      LowOnlyHiBit(m', k - 1);
      LowOnlyHiBitStep(m, m', k);
    }
  }

  lemma LowOnlyHiBitStep(m: bv64, m': bv64, k: nat)
    requires k > 0 && m' == m >> 2 && !HiBit(m', k - 1)
    ensures !HiBit(m, k)
  {
    HiBitStep(m, m', k);
  }

  /** Flipping only low pair bits leaves every high pair bit as it was. */
  lemma HiBitIgnoresLowBits(a: bv64, m: bv64, k: nat)
    requires m & HighMask == 0
    ensures HiBit(a ^ m, k) == HiBit(a, k)
  {
    HiBitXor(a, m, k);
    LowOnlyHiBit(m, k);
  }

  /** The high bits of the four pairs of a byte (mask `0xAA`). */
  function PairHighs(b: Byte): Byte
  {
    b & 0xAA
  }

  /** Bytes that agree on bit 1 of every pair pack to words that agree on every high pair bit. */
  lemma PackHighBits(x: seq<Byte>, y: seq<Byte>)
    requires |x| >= 8 && |y| >= 8
    requires forall i :: 0 <= i < 8 ==> PairHighs(x[i]) == PairHighs(y[i])
    ensures Pack(x) & HighMask == Pack(y) & HighMask
  {
    var x0, x1, x2, x3, x4, x5, x6, x7 := x[0], x[1], x[2], x[3], x[4], x[5], x[6], x[7];
    var y0, y1, y2, y3, y4, y5, y6, y7 := y[0], y[1], y[2], y[3], y[4], y[5], y[6], y[7];
    assert PairHighs(x0) == PairHighs(y0) && PairHighs(x1) == PairHighs(y1) && PairHighs(x2) == PairHighs(y2) && PairHighs(x3) == PairHighs(y3);
    assert PairHighs(x4) == PairHighs(y4) && PairHighs(x5) == PairHighs(y5) && PairHighs(x6) == PairHighs(y6) && PairHighs(x7) == PairHighs(y7);
    PackIsSourceExpression(x);
    PackIsSourceExpression(y);
    FlatHighBits(x0, x1, x2, x3, x4, x5, x6, x7, y0, y1, y2, y3, y4, y5, y6, y7, Pack(x), Pack(y));
  }

  lemma FlatHighBits(x0: Byte, x1: Byte, x2: Byte, x3: Byte, x4: Byte, x5: Byte, x6: Byte, x7: Byte,
                     y0: Byte, y1: Byte, y2: Byte, y3: Byte, y4: Byte, y5: Byte, y6: Byte, y7: Byte,
                     wx: bv64, wy: bv64)
    requires PairHighs(x0) == PairHighs(y0) && PairHighs(x1) == PairHighs(y1) && PairHighs(x2) == PairHighs(y2) && PairHighs(x3) == PairHighs(y3)
    requires PairHighs(x4) == PairHighs(y4) && PairHighs(x5) == PairHighs(y5) && PairHighs(x6) == PairHighs(y6) && PairHighs(x7) == PairHighs(y7)
    requires wx == Pack8(x0, x1, x2, x3, x4, x5, x6, x7) && wy == Pack8(y0, y1, y2, y3, y4, y5, y6, y7)
    ensures wx & HighMask == wy & HighMask
  {
  }
}
