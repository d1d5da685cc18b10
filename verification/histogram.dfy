/**
 * The eight transition counters of the tag store. A bucket is named after the
 * pair transition it records, `old-pair_new-pair` with the high bit first:
 * `ht_00_11` counts pairs that went from `00` to `11`. The prefixes `ht` and
 * `tt` are the source's own names for its two families of counters.
 */
module Histograms {

  datatype Bucket =
    | HT_00_11 | HT_01_11 | HT_10_00 | HT_11_00
    | TT_00_10 | TT_01_10 | TT_11_01 | TT_10_01

  datatype Histogram = Histogram(
    ht_00_11: nat, ht_01_11: nat, ht_10_00: nat, ht_11_00: nat,
    tt_00_10: nat, tt_01_10: nat, tt_11_01: nat, tt_10_01: nat)

  /** The counters as the tag store's constructor leaves them. */
  function Initial(): (h: Histogram)
    ensures forall b :: Count(h, b) == 0
    ensures Total(h) == 0
  {
    Histogram(0, 0, 0, 0, 0, 0, 0, 0)
  }

  /** The counter of bucket `b`. */
  function Count(h: Histogram, b: Bucket): nat
  {
    match b
    case HT_00_11 => h.ht_00_11
    case HT_01_11 => h.ht_01_11
    case HT_10_00 => h.ht_10_00
    case HT_11_00 => h.ht_11_00
    case TT_00_10 => h.tt_00_10
    case TT_01_10 => h.tt_01_10
    case TT_11_01 => h.tt_11_01
    case TT_10_01 => h.tt_10_01
  }

  /** Sum of the eight counters. */
  function Total(h: Histogram): nat
  {
    h.ht_00_11 + h.ht_01_11 + h.ht_10_00 + h.ht_11_00
    + h.tt_00_10 + h.tt_01_10 + h.tt_11_01 + h.tt_10_01
  }

  /** Increments the counter of bucket `b` and no other. */
  function Bump(h: Histogram, b: Bucket): (r: Histogram)
    ensures Count(r, b) == Count(h, b) + 1
    ensures forall c :: c != b ==> Count(r, c) == Count(h, c)
    ensures Total(r) == Total(h) + 1
  {
    match b
    case HT_00_11 => h.(ht_00_11 := h.ht_00_11 + 1)
    case HT_01_11 => h.(ht_01_11 := h.ht_01_11 + 1)
    case HT_10_00 => h.(ht_10_00 := h.ht_10_00 + 1)
    case HT_11_00 => h.(ht_11_00 := h.ht_11_00 + 1)
    case TT_00_10 => h.(tt_00_10 := h.tt_00_10 + 1)
    case TT_01_10 => h.(tt_01_10 := h.tt_01_10 + 1)
    case TT_11_01 => h.(tt_11_01 := h.tt_11_01 + 1)
    case TT_10_01 => h.(tt_10_01 := h.tt_10_01 + 1)
  }

  /**
   * The branch table of the encoder: the bucket for a triggered pair, chosen
   * by the old high bit, then the old low bit, then the new low bit.
   */
  function Classify(oldHi: bool, oldLo: bool, newLo: bool): Bucket
  {
    if oldHi then
      if oldLo then (if newLo then TT_11_01 else HT_11_00)
      else (if newLo then TT_10_01 else HT_10_00)
    else
      if oldLo then (if newLo then HT_01_11 else TT_01_10)
      else (if newLo then HT_00_11 else TT_00_10)
  }

  /** The old pair `(high, low)` a bucket's name records. */
  function OldPair(b: Bucket): (bool, bool)
  {
    match b
    case HT_00_11 => (false, false)
    case HT_01_11 => (false, true)
    case HT_10_00 => (true, false)
    case HT_11_00 => (true, true)
    case TT_00_10 => (false, false)
    case TT_01_10 => (false, true)
    case TT_11_01 => (true, true)
    case TT_10_01 => (true, false)
  }

  /** The new pair `(high, low)` a bucket's name records. */
  function NewPair(b: Bucket): (bool, bool)
  {
    match b
    case HT_00_11 => (true, true)
    case HT_01_11 => (true, true)
    case HT_10_00 => (false, false)
    case HT_11_00 => (false, false)
    case TT_00_10 => (true, false)
    case TT_01_10 => (true, false)
    case TT_11_01 => (false, true)
    case TT_10_01 => (false, true)
  }

  /**
   * The branch table agrees with the bucket names: a triggered pair lands in
   * bucket `b` exactly when `b`'s name records its old pair and new low bit.
   * Every name also records a flipped high bit; that is a fact about the
   * names only: a pair whose flag is already set triggers when its high bit
   * stays the same, and is still counted under a name that records a flip.
   */
  lemma ClassifyMatchesNames(oldHi: bool, oldLo: bool, newLo: bool, b: Bucket)
    ensures Classify(oldHi, oldLo, newLo) == b <==> OldPair(b) == (oldHi, oldLo) && NewPair(b).1 == newLo
    ensures NewPair(b).0 == !OldPair(b).0
  {
  }

  /** Distinct inputs land in distinct buckets, so every bucket is reachable by exactly one input. */
  lemma ClassifyInjective(oh: bool, ol: bool, nl: bool, oh': bool, ol': bool, nl': bool)
    ensures Classify(oh, ol, nl) == Classify(oh', ol', nl') <==> (oh, ol, nl) == (oh', ol', nl')
  {
  }
}
