/**
 * The tag store's distance metric (`hammingDist`): both payloads are packed
 * little-endian into 64-bit words and, for each of the 32 bit-pairs, only the
 * high bit is compared; the result is the number of pairs that disagree there.
 */
module Distance {
  import opened Bits

  /** The iterations `k, k + 1, ..., 31` of the distance loop: how many of those pairs differ in their high bit. */
  function DistFrom(a: bv64, b: bv64, k: nat): (d: nat)
    requires k <= Pairs
    ensures d <= Pairs - k
    decreases Pairs - k
  {
    if k == Pairs then 0
    else (if HiBit(a, k) != HiBit(b, k) then 1 else 0) + DistFrom(a, b, k + 1)
  }

  /** Distance between two packed words. */
  function PairDistance(a: bv64, b: bv64): (d: nat)
    ensures d <= Pairs
  {
    DistFrom(a, b, 0)
  }

  /** Distance between the first eight bytes of two payloads. */
  function HammingDist(incoming: seq<Byte>, existing: seq<Byte>): (d: nat)
    requires |incoming| >= 8 && |existing| >= 8
    ensures d <= Pairs
  {
    PairDistance(Pack(incoming), Pack(existing))
  }

  /** Reference definition: the pairs from `k` on whose high bits differ. */
  ghost function DiffPairs(a: bv64, b: bv64, k: nat): set<nat>
  {
    set i: nat | k <= i < Pairs && HiBit(a, i) != HiBit(b, i)
  }

  /** The loop counts exactly the pairs of the reference definition. */
  lemma {:induction false} DistCountsDiffPairs(a: bv64, b: bv64, k: nat)
    requires k <= Pairs
    ensures DistFrom(a, b, k) == |DiffPairs(a, b, k)|
    decreases Pairs - k
  {
    if k == Pairs {
      assert DiffPairs(a, b, k) == {};
    } else {
      DistCountsDiffPairs(a, b, k + 1);
      var rest := DiffPairs(a, b, k + 1);
      assert k !in rest;
      if HiBit(a, k) != HiBit(b, k) {
        assert DiffPairs(a, b, k) == {k} + rest;
      } else {
        assert DiffPairs(a, b, k) == rest;
      }
    }
  }

  /** The distance is the number of differing pairs. */
  lemma PairDistanceCounts(a: bv64, b: bv64)
    ensures PairDistance(a, b) == |DiffPairs(a, b, 0)|
  {
    DistCountsDiffPairs(a, b, 0);
  }

  lemma PairDistanceSymmetric(a: bv64, b: bv64)
    ensures PairDistance(a, b) == PairDistance(b, a)
  {
    PairDistanceCounts(a, b);
    PairDistanceCounts(b, a);
    assert DiffPairs(a, b, 0) == DiffPairs(b, a, 0);
  }

  /** Every pair of `a` has the same high bit as the corresponding pair of `b`. */
  predicate SameHighBits(a: bv64, b: bv64)
  {
    forall i :: 0 <= i < Pairs ==> HiBit(a, i) == HiBit(b, i)
  }

  /** The distance is zero exactly when every pair agrees in its high bit. */
  lemma PairDistanceZero(a: bv64, b: bv64)
    ensures PairDistance(a, b) == 0 <==> SameHighBits(a, b)
  {
    PairDistanceCounts(a, b);
    if PairDistance(a, b) == 0 {
      assert DiffPairs(a, b, 0) == {};
      forall i | 0 <= i < Pairs
        ensures HiBit(a, i) == HiBit(b, i)
      {
        assert i !in DiffPairs(a, b, 0);
      }
    } else {
      assert DiffPairs(a, b, 0) != {};
      var i :| i in DiffPairs(a, b, 0);
      assert 0 <= i < Pairs && HiBit(a, i) != HiBit(b, i);
      assert !SameHighBits(a, b);
    }
  }

  lemma PairDistanceSelf(a: bv64)
    ensures PairDistance(a, a) == 0
  {
    PairDistanceZero(a, a);
  }

  /** Changing only the low bit of some pairs never changes the distance. */
  lemma PairDistanceIgnoresLowBits(a: bv64, m: bv64, b: bv64)
    requires m & HighMask == 0
    ensures PairDistance(a ^ m, b) == PairDistance(a, b)
  {
    forall i | 0 <= i < Pairs
      ensures HiBit(a ^ m, i) == HiBit(a, i)
    {
      HiBitIgnoresLowBits(a, m, i);
    }
    DistFromSameHighBits(a ^ m, a, b, 0);
  }

  /** The loop reads its first argument only through the high bits of the pairs it visits. */
  lemma {:induction false} DistFromSameHighBits(a: bv64, a': bv64, b: bv64, k: nat)
    requires k <= Pairs
    requires forall i :: k <= i < Pairs ==> HiBit(a, i) == HiBit(a', i)
    ensures DistFrom(a, b, k) == DistFrom(a', b, k)
    decreases Pairs - k
  {
    if k < Pairs {
      DistFromSameHighBits(a, a', b, k + 1);
    }
  }

  /** Words that agree on every high pair bit are at distance zero. */
  lemma SameHighBitsZero(a: bv64, b: bv64)
    requires a & HighMask == b & HighMask
    ensures PairDistance(a, b) == 0
  {
    var m := a ^ b;
    XorOfSameHighBits(a, b);
    PairDistanceIgnoresLowBits(b, m, b);
    assert b ^ m == a;
    PairDistanceSelf(b);
  }

  lemma XorOfSameHighBits(a: bv64, b: bv64)
    requires a & HighMask == b & HighMask
    ensures (a ^ b) & HighMask == 0 && b ^ (a ^ b) == a
  {
  }

  lemma HammingDistSymmetric(x: seq<Byte>, y: seq<Byte>)
    requires |x| >= 8 && |y| >= 8
    ensures HammingDist(x, y) == HammingDist(y, x)
  {
    PairDistanceSymmetric(Pack(x), Pack(y));
  }

  lemma HammingDistSelf(x: seq<Byte>)
    requires |x| >= 8
    ensures HammingDist(x, x) == 0
  {
    PairDistanceSelf(Pack(x));
  }

  /** Payloads whose bytes agree on bit 1 of every pair (mask `0xAA`) are equally far from any other payload. */
  lemma HammingDistIgnoresLowBits(x: seq<Byte>, x': seq<Byte>, y: seq<Byte>)
    requires |x| >= 8 && |x'| >= 8 && |y| >= 8
    requires forall i :: 0 <= i < 8 ==> PairHighs(x[i]) == PairHighs(x'[i])
    ensures HammingDist(x, y) == HammingDist(x', y)
  {
    PackHighBits(x, x');
    SameHighBitsSameDistance(Pack(x), Pack(x'), Pack(y));
  }

  /** Words that agree on every high pair bit are equally far from any other word. */
  lemma SameHighBitsSameDistance(a: bv64, a': bv64, b: bv64)
    requires a & HighMask == a' & HighMask
    ensures PairDistance(a, b) == PairDistance(a', b)
  {
    XorOfSameHighBits(a', a);
    PairDistanceIgnoresLowBits(a, a' ^ a, b);
  }
}
