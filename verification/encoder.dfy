/**
 * The transition encoder (`countTransitionsAndEncode`). For each pair `k`,
 * from the least significant up, it compares the old word's high bit, xor-ed
 * with the block's sticky flag for `k`, against the incoming high bit. On a
 * mismatch the pair "triggers": its flag is set, one histogram bucket chosen
 * by the old pair and the new low bit is incremented, and bit `63 - 2k` of the
 * output word (which starts as the incoming word) is flipped. The output is
 * then stored on the block as its encoded word.
 */
module Encoder {
  import opened Wrappers
  import opened Bits
  import opened Histograms
  import opened Blocks

  /** Whether pair `k` triggers, given the pair's flag. */
  predicate Triggers(oldW: bv64, newW: bv64, flag: bool, k: nat)
  {
    (HiBit(oldW, k) != flag) != HiBit(newW, k)
  }

  /** The bucket a triggered pair `k` is counted in. */
  function PairBucket(oldW: bv64, newW: bv64, k: nat): Bucket
  {
    Classify(HiBit(oldW, k), LoBit(oldW, k), LoBit(newW, k))
  }

  /** What the encoding loop carries between iterations. */
  datatype EncState = EncState(flags: seq<bool>, hist: Histogram, out: bv64)

  /** Iterations `k, ..., 31` of the encoding loop. */
  function EncodeFrom(oldW: bv64, newW: bv64, k: nat, s: EncState): (r: EncState)
    requires k <= Pairs && |s.flags| == Pairs
    ensures |r.flags| == Pairs
    decreases Pairs - k
  {
    if k == Pairs then s else EncodeFrom(oldW, newW, k + 1, EncodeStep(oldW, newW, k, s))
  }

  /** The pairs from `k` on that trigger under the flags `flags`. */
  ghost function TriggeredFrom(oldW: bv64, newW: bv64, flags: seq<bool>, k: nat): set<nat>
    requires |flags| == Pairs
  {
    set i: nat | k <= i < Pairs && Triggers(oldW, newW, flags[i], i)
  }

  /** The triggered pairs from `k` on that land in bucket `b`. */
  ghost function InBucketFrom(oldW: bv64, newW: bv64, flags: seq<bool>, k: nat, b: Bucket): set<nat>
    requires |flags| == Pairs
  {
    set i: nat | k <= i < Pairs && Triggers(oldW, newW, flags[i], i) && PairBucket(oldW, newW, i) == b
  }

  /** One step of the loop leaves the flags of later pairs alone, so it sees them as they were on entry. */
  ghost predicate FlagsFrom(s: EncState, flags0: seq<bool>, k: nat)
    requires |s.flags| == Pairs && |flags0| == Pairs
  {
    forall i :: k <= i < Pairs ==> s.flags[i] == flags0[i]
  }

  /** One iteration of the loop, on pair `k`. */
  function EncodeStep(oldW: bv64, newW: bv64, k: nat, s: EncState): (r: EncState)
    requires k < Pairs && |s.flags| == Pairs
    ensures |r.flags| == Pairs
  {
    if Triggers(oldW, newW, s.flags[k], k) then
      EncState(s.flags[k := true], Bump(s.hist, PairBucket(oldW, newW, k)), s.out ^ FlipBit(k))
    else s
  }

  /** The step on pair `k` touches only flag `k`, and counts at most pair `k`. */
  lemma StepEffect(oldW: bv64, newW: bv64, flags0: seq<bool>, k: nat, s: EncState, s': EncState)
    requires k < Pairs && |s.flags| == Pairs && |flags0| == Pairs
    requires FlagsFrom(s, flags0, k)
    requires s' == EncodeStep(oldW, newW, k, s)
    ensures FlagsFrom(s', flags0, k + 1)
    ensures forall i :: 0 <= i < k ==> s'.flags[i] == s.flags[i]
    ensures s'.flags[k] == (flags0[k] || Triggers(oldW, newW, flags0[k], k))
    ensures Total(s'.hist) == Total(s.hist) + (if Triggers(oldW, newW, flags0[k], k) then 1 else 0)
    ensures forall b :: (Count(s'.hist, b) == Count(s.hist, b)
      + (if Triggers(oldW, newW, flags0[k], k) && PairBucket(oldW, newW, k) == b then 1 else 0))
    ensures !Triggers(oldW, newW, flags0[k], k) ==> s' == s
  {
  }

  /** Splitting off pair `k` from the triggered pairs. */
  lemma TriggeredSplit(oldW: bv64, newW: bv64, flags: seq<bool>, k: nat)
    requires k < Pairs && |flags| == Pairs
    ensures |TriggeredFrom(oldW, newW, flags, k)|
      == |TriggeredFrom(oldW, newW, flags, k + 1)| + (if Triggers(oldW, newW, flags[k], k) then 1 else 0)
  {
    TriggeredSets(oldW, newW, flags, k);
  }

  lemma TriggeredSets(oldW: bv64, newW: bv64, flags: seq<bool>, k: nat)
    requires k < Pairs && |flags| == Pairs
    ensures k !in TriggeredFrom(oldW, newW, flags, k + 1)
    ensures TriggeredFrom(oldW, newW, flags, k)
      == (if Triggers(oldW, newW, flags[k], k) then {k} else {}) + TriggeredFrom(oldW, newW, flags, k + 1)
  {
  }

  /** Splitting off pair `k` from the pairs counted in bucket `b`. */
  lemma InBucketSplit(oldW: bv64, newW: bv64, flags: seq<bool>, k: nat, b: Bucket)
    requires k < Pairs && |flags| == Pairs
    ensures |InBucketFrom(oldW, newW, flags, k, b)|
      == |InBucketFrom(oldW, newW, flags, k + 1, b)|
        + (if Triggers(oldW, newW, flags[k], k) && PairBucket(oldW, newW, k) == b then 1 else 0)
  {
    InBucketSets(oldW, newW, flags, k, b);
  }

  lemma InBucketSets(oldW: bv64, newW: bv64, flags: seq<bool>, k: nat, b: Bucket)
    requires k < Pairs && |flags| == Pairs
    ensures k !in InBucketFrom(oldW, newW, flags, k + 1, b)
    ensures InBucketFrom(oldW, newW, flags, k, b)
      == (if Triggers(oldW, newW, flags[k], k) && PairBucket(oldW, newW, k) == b then {k} else {})
        + InBucketFrom(oldW, newW, flags, k + 1, b)
  {
  }

  lemma {:induction false} EncodeFromFlags(oldW: bv64, newW: bv64, flags0: seq<bool>, k: nat, s: EncState)
    requires k <= Pairs && |s.flags| == Pairs && |flags0| == Pairs
    requires FlagsFrom(s, flags0, k)
    ensures var r := EncodeFrom(oldW, newW, k, s);
      && (forall i :: 0 <= i < k ==> r.flags[i] == s.flags[i])
      && (forall i :: k <= i < Pairs ==> r.flags[i] == (flags0[i] || Triggers(oldW, newW, flags0[i], i)))
    decreases Pairs - k
  {
    if k < Pairs {
      var s' := EncodeStep(oldW, newW, k, s);
      StepEffect(oldW, newW, flags0, k, s, s');
      EncodeFromFlags(oldW, newW, flags0, k + 1, s');
      assert EncodeFrom(oldW, newW, k, s) == EncodeFrom(oldW, newW, k + 1, s');
    }
  }

  lemma {:induction false} EncodeFromTotal(oldW: bv64, newW: bv64, flags0: seq<bool>, k: nat, s: EncState)
    requires k <= Pairs && |s.flags| == Pairs && |flags0| == Pairs
    requires FlagsFrom(s, flags0, k)
    ensures Total(EncodeFrom(oldW, newW, k, s).hist) == Total(s.hist) + |TriggeredFrom(oldW, newW, flags0, k)|
    decreases Pairs - k
  {
    if k == Pairs {
      assert TriggeredFrom(oldW, newW, flags0, k) == {};
    } else {
      var s' := EncodeStep(oldW, newW, k, s);
      StepEffect(oldW, newW, flags0, k, s, s');
      EncodeFromTotal(oldW, newW, flags0, k + 1, s');
      TriggeredSplit(oldW, newW, flags0, k);
      assert EncodeFrom(oldW, newW, k, s) == EncodeFrom(oldW, newW, k + 1, s');
    }
  }

  lemma {:induction false} EncodeFromCounts(oldW: bv64, newW: bv64, flags0: seq<bool>, k: nat, s: EncState, b: Bucket)
    requires k <= Pairs && |s.flags| == Pairs && |flags0| == Pairs
    requires FlagsFrom(s, flags0, k)
    ensures Count(EncodeFrom(oldW, newW, k, s).hist, b) == Count(s.hist, b) + |InBucketFrom(oldW, newW, flags0, k, b)|
    decreases Pairs - k
  {
    if k == Pairs {
      assert InBucketFrom(oldW, newW, flags0, k, b) == {};
    } else {
      var s' := EncodeStep(oldW, newW, k, s);
      StepEffect(oldW, newW, flags0, k, s, s');
      EncodeFromCounts(oldW, newW, flags0, k + 1, s', b);
      InBucketSplit(oldW, newW, flags0, k, b);
      assert EncodeFrom(oldW, newW, k, s) == EncodeFrom(oldW, newW, k + 1, s');
    }
  }

  /** With no triggered pair left, the loop changes nothing. */
  lemma {:induction false} EncodeFromQuiet(oldW: bv64, newW: bv64, flags0: seq<bool>, k: nat, s: EncState)
    requires k <= Pairs && |s.flags| == Pairs && |flags0| == Pairs
    requires FlagsFrom(s, flags0, k)
    requires TriggeredFrom(oldW, newW, flags0, k) == {}
    ensures EncodeFrom(oldW, newW, k, s) == s
    decreases Pairs - k
  {
    if k < Pairs {
      TriggeredSplit(oldW, newW, flags0, k);
      var s' := EncodeStep(oldW, newW, k, s);
      StepEffect(oldW, newW, flags0, k, s, s');
      EncodeFromQuiet(oldW, newW, flags0, k + 1, s');
      assert EncodeFrom(oldW, newW, k, s) == EncodeFrom(oldW, newW, k + 1, s');
    }
  }

  /** At most one trigger per pair. */
  lemma {:induction false} TriggeredFromBound(oldW: bv64, newW: bv64, flags: seq<bool>, k: nat)
    requires k <= Pairs && |flags| == Pairs
    ensures |TriggeredFrom(oldW, newW, flags, k)| <= Pairs - k
    decreases Pairs - k
  {
    if k == Pairs {
      assert TriggeredFrom(oldW, newW, flags, k) == {};
    } else {
      TriggeredFromBound(oldW, newW, flags, k + 1);
      var rest := TriggeredFrom(oldW, newW, flags, k + 1);
      assert TriggeredFrom(oldW, newW, flags, k) <= {k} + rest;
      assert |{k} + rest| <= |rest| + 1;
      SubsetCard(TriggeredFrom(oldW, newW, flags, k), {k} + rest);
    }
  }

  lemma SubsetCard(a: set<nat>, b: set<nat>)
    requires a <= b
    ensures |a| <= |b|
  {
    assert b == a + (b - a);
  }

  /** The pairs that trigger when `incoming` is encoded onto `victim`. */
  ghost function TriggeredPairs(incoming: seq<Byte>, victim: Block): set<nat>
    requires |incoming| >= 8 && WellFormed(victim)
  {
    TriggeredFrom(OldWord(victim), Pack(incoming), victim.flags, 0)
  }

  /** The triggered pairs counted in bucket `b`. */
  ghost function PairsInBucket(incoming: seq<Byte>, victim: Block, b: Bucket): set<nat>
    requires |incoming| >= 8 && WellFormed(victim)
  {
    InBucketFrom(OldWord(victim), Pack(incoming), victim.flags, 0, b)
  }

  /** The whole loop, from pair 0 with the output word starting as the incoming word. */
  lemma EncodeLoop(oldW: bv64, newW: bv64, flags: seq<bool>, hist: Histogram)
    requires |flags| == Pairs
    ensures var e := EncodeFrom(oldW, newW, 0, EncState(flags, hist, newW));
      && (forall i :: 0 <= i < Pairs ==> e.flags[i] == (flags[i] || i in TriggeredFrom(oldW, newW, flags, 0)))
      && Total(e.hist) == Total(hist) + |TriggeredFrom(oldW, newW, flags, 0)|
      && (forall b :: Count(e.hist, b) == Count(hist, b) + |InBucketFrom(oldW, newW, flags, 0, b)|)
      && (TriggeredFrom(oldW, newW, flags, 0) == {} ==> e == EncState(flags, hist, newW))
  {
    var s := EncState(flags, hist, newW);
    EncodeLoopFlags(oldW, newW, flags, s);
    EncodeFromTotal(oldW, newW, flags, 0, s);
    EncodeLoopCounts(oldW, newW, flags, s);
    if TriggeredFrom(oldW, newW, flags, 0) == {} {
      EncodeFromQuiet(oldW, newW, flags, 0, s);
    }
  }

  lemma EncodeLoopFlags(oldW: bv64, newW: bv64, flags: seq<bool>, s: EncState)
    requires |flags| == Pairs && s.flags == flags
    ensures var e := EncodeFrom(oldW, newW, 0, s);
      forall i :: 0 <= i < Pairs ==> e.flags[i] == (flags[i] || i in TriggeredFrom(oldW, newW, flags, 0))
  {
    EncodeFromFlags(oldW, newW, flags, 0, s);
  }

  lemma EncodeLoopCounts(oldW: bv64, newW: bv64, flags: seq<bool>, s: EncState)
    requires |flags| == Pairs && s.flags == flags
    ensures forall b :: Count(EncodeFrom(oldW, newW, 0, s).hist, b) == Count(s.hist, b) + |InBucketFrom(oldW, newW, flags, 0, b)|
  {
    forall b
      ensures Count(EncodeFrom(oldW, newW, 0, s).hist, b) == Count(s.hist, b) + |InBucketFrom(oldW, newW, flags, 0, b)|
    {
      EncodeFromCounts(oldW, newW, flags, 0, s, b);
    }
  }

  /** The encoder's result: the updated victim and the updated counters. */
  datatype Encoded = Encoded(victim: Block, hist: Histogram)

  function CountTransitionsAndEncode(incoming: seq<Byte>, victim: Block, hist: Histogram): (r: Encoded)
    requires |incoming| >= 8 && WellFormed(victim)
    ensures WellFormed(r.victim)
    ensures r.victim == victim.(flags := r.victim.flags, encoded := r.victim.encoded)
    ensures r.victim.encoded.Some?
    ensures forall i :: 0 <= i < Pairs ==>
      r.victim.flags[i] == (victim.flags[i] || i in TriggeredPairs(incoming, victim))
    ensures Total(r.hist) == Total(hist) + |TriggeredPairs(incoming, victim)|
    ensures forall b :: Count(r.hist, b) == Count(hist, b) + |PairsInBucket(incoming, victim, b)|
    ensures TriggeredPairs(incoming, victim) == {} ==>
      r.victim.flags == victim.flags && r.hist == hist && r.victim.encoded == Some(Pack(incoming))
  {
    var oldW, newW := OldWord(victim), Pack(incoming);
    var e := EncodeFrom(oldW, newW, 0, EncState(victim.flags, hist, newW));
    EncodeLoop(oldW, newW, victim.flags, hist);
    Encoded(victim.(flags := e.flags, encoded := Some(e.out)), e.hist)
  }

  /** At most 32 pairs trigger, so one call adds at most 32 to the counters. */
  lemma TriggeredPairsBound(incoming: seq<Byte>, victim: Block)
    requires |incoming| >= 8 && WellFormed(victim)
    ensures |TriggeredPairs(incoming, victim)| <= Pairs
  {
    TriggeredFromBound(OldWord(victim), Pack(incoming), victim.flags, 0);
  }

  /** The next call on the same block compares against this call's output word. */
  lemma NextCallReadsOutput(incoming: seq<Byte>, victim: Block, hist: Histogram)
    requires |incoming| >= 8 && WellFormed(victim)
    ensures var r := CountTransitionsAndEncode(incoming, victim, hist);
      OldWord(r.victim) == r.victim.encoded.value
  {
  }

  /**
   * Encoding `next` after `incoming` on the same block compares `next`
   * against the word the first call stored, under the flags it left; when the
   * first call triggered nothing, that word is `incoming` itself.
   */
  lemma NextCallComparesOutput(incoming: seq<Byte>, next: seq<Byte>, victim: Block, hist: Histogram)
    requires |incoming| >= 8 && |next| >= 8 && WellFormed(victim)
    ensures var r := CountTransitionsAndEncode(incoming, victim, hist);
      TriggeredPairs(next, r.victim) == TriggeredFrom(r.victim.encoded.value, Pack(next), r.victim.flags, 0)
    ensures var r := CountTransitionsAndEncode(incoming, victim, hist);
      TriggeredPairs(incoming, victim) == {} ==>
        TriggeredPairs(next, r.victim) == TriggeredFrom(Pack(incoming), Pack(next), victim.flags, 0)
  {
    NextCallReadsOutput(incoming, victim, hist);
  }

  /** The number of pairs that trigger, summed over the calls of a series of encodes onto one block. */
  ghost function TriggeredTotal(writes: seq<seq<Byte>>, victim: Block, hist: Histogram): nat
    requires forall i :: 0 <= i < |writes| ==> |writes[i]| >= 8
    requires WellFormed(victim)
    decreases |writes|
  {
    if |writes| == 0 then 0
    else
      var e := CountTransitionsAndEncode(writes[0], victim, hist);
      |TriggeredPairs(writes[0], victim)| + TriggeredTotal(writes[1..], e.victim, e.hist)
  }

  /** Encoding a series of payloads onto the same block, one after the other. */
  function EncodeAll(writes: seq<seq<Byte>>, victim: Block, hist: Histogram): (r: Encoded)
    requires forall i :: 0 <= i < |writes| ==> |writes[i]| >= 8
    requires WellFormed(victim)
    ensures WellFormed(r.victim)
    ensures Total(r.hist) == Total(hist) + TriggeredTotal(writes, victim, hist)
    ensures Total(hist) <= Total(r.hist) <= Total(hist) + Pairs * |writes|
    ensures forall i :: 0 <= i < Pairs && victim.flags[i] ==> r.victim.flags[i]
  {
    if |writes| == 0 then Encoded(victim, hist)
    else
      var e := CountTransitionsAndEncode(writes[0], victim, hist);
      TriggeredPairsBound(writes[0], victim);
      EncodeAll(writes[1..], e.victim, e.hist)
  }
}
