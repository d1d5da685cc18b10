/**
 * Victim selection within one set (`findVictim` after the set has been
 * located). The set's blocks are in recency order: index 0 is the head (most
 * recently used), the last index the tail, which is the plain LRU victim.
 */
module Victim {
  import opened Wrappers
  import opened Bits
  import opened Distance
  import opened Histograms
  import opened Blocks
  import opened Encoder

  /** The distance loop's starting minimum: larger than any distance. */
  const InitialMinDist: nat := 33

  predicate AllWellFormed(blks: seq<Block>)
  {
    forall j :: 0 <= j < |blks| ==> WellFormed(blks[j])
  }

  /**
   * Whether a block takes part in a pass: it must have the reference validity
   * `val`, and in the strict pass its wear counter must differ from the threshold.
   */
  predicate Eligible(b: Block, val: bool, strict: bool)
  {
    b.valid == val && (!strict || b.counter != Threshold)
  }

  /** Distance from the incoming payload to a block's raw payload bytes. */
  function Dist(incoming: seq<Byte>, b: Block): nat
    requires |incoming| >= 8 && |b.data| >= 8
  {
    HammingDist(incoming, b.data)
  }

  /** The distance of every block of the set from the incoming payload, in set order. */
  function Distances(blks: seq<Block>, incoming: seq<Byte>): (ds: seq<nat>)
    requires AllWellFormed(blks) && |incoming| >= 8
    ensures |ds| == |blks|
    ensures forall j :: 0 <= j < |ds| ==> ds[j] <= Pairs
    decreases |blks|
  {
    if |blks| == 0 then []
    else [Dist(incoming, blks[0])] + Distances(blks[1..], incoming)
  }

  /** Entry `j` of the distances is block `j`'s distance. */
  lemma {:induction false} DistancesMeasure(blks: seq<Block>, incoming: seq<Byte>)
    requires AllWellFormed(blks) && |incoming| >= 8
    ensures forall j :: 0 <= j < |blks| ==> Distances(blks, incoming)[j] == Dist(incoming, blks[j])
    decreases |blks|
  {
    if |blks| > 0 {
      DistancesMeasure(blks[1..], incoming);
      assert forall j :: 1 <= j < |blks| ==> blks[1..][j - 1] == blks[j];
    }
  }

  /**
   * `v` is the first block among `blks[..n]` that is eligible and at minimal
   * distance `ds[v]`: eligible blocks before it are strictly farther, those
   * after it are no nearer.
   */
  ghost predicate FirstNearest(blks: seq<Block>, ds: seq<nat>, val: bool, strict: bool, v: nat, n: nat)
    requires n <= |blks| == |ds|
  {
    && v < n
    && Eligible(blks[v], val, strict)
    && (forall j :: 0 <= j < v && Eligible(blks[j], val, strict) ==> ds[v] < ds[j])
    && (forall j :: v < j < n && Eligible(blks[j], val, strict) ==> ds[v] <= ds[j])
  }

  /** No block of `blks[..n]` is eligible. */
  ghost predicate NoneEligible(blks: seq<Block>, val: bool, strict: bool, n: nat)
    requires n <= |blks|
  {
    forall j :: 0 <= j < n ==> !Eligible(blks[j], val, strict)
  }

  /**
   * Iterations `j, ..., |blks| - 1` of one pass, with `ds` the blocks'
   * distances: a block replaces the current choice only when it is eligible
   * and strictly nearer than `minDist`.
   */
  function PassFrom(blks: seq<Block>, ds: seq<nat>, val: bool, strict: bool,
                    j: nat, minDist: nat, victim: Option<nat>): (r: Option<nat>)
    requires j <= |blks| == |ds|
    requires forall i :: 0 <= i < |ds| ==> ds[i] < InitialMinDist
    requires victim.None? ==> minDist == InitialMinDist && NoneEligible(blks, val, strict, j)
    requires victim.Some? ==> FirstNearest(blks, ds, val, strict, victim.value, j) && minDist == ds[victim.value]
    ensures r.None? <==> NoneEligible(blks, val, strict, |blks|)
    ensures r.Some? ==> FirstNearest(blks, ds, val, strict, r.value, |blks|)
    decreases |blks| - j
  {
    if j == |blks| then victim
    else if Eligible(blks[j], val, strict) && ds[j] < minDist then
      PassFrom(blks, ds, val, strict, j + 1, ds[j], Some(j))
    else
      PassFrom(blks, ds, val, strict, j + 1, minDist, victim)
  }

  /** A whole pass over the set, starting from no victim and the initial minimum. */
  function Pass(blks: seq<Block>, ds: seq<nat>, val: bool, strict: bool): (r: Option<nat>)
    requires |blks| == |ds| && forall i :: 0 <= i < |ds| ==> ds[i] <= Pairs
    ensures r.None? <==> NoneEligible(blks, val, strict, |blks|)
    ensures r.Some? ==> FirstNearest(blks, ds, val, strict, r.value, |blks|)
  {
    PassFrom(blks, ds, val, strict, 0, InitialMinDist, None)
  }

  /** The relaxed pass's side effect: every block of validity `val` has its wear counter reset. */
  function ResetCounters(blks: seq<Block>, val: bool): (r: seq<Block>)
    ensures |r| == |blks|
    ensures forall j :: 0 <= j < |blks| ==>
      r[j] == (if blks[j].valid == val then blks[j].(counter := 0) else blks[j])
    ensures AllWellFormed(blks) ==> AllWellFormed(r)
    ensures CountersBounded(blks) ==> CountersBounded(r)
  {
    seq(|blks|, j requires 0 <= j < |blks| => if blks[j].valid == val then blks[j].(counter := 0) else blks[j])
  }

  /** At most one block is the first nearest: the pass's result is fully determined. */
  lemma FirstNearestUnique(blks: seq<Block>, ds: seq<nat>, val: bool, strict: bool, v: nat, w: nat, n: nat)
    requires n <= |blks| == |ds|
    requires FirstNearest(blks, ds, val, strict, v, n) && FirstNearest(blks, ds, val, strict, w, n)
    ensures v == w
  {
  }

  /** Two sets whose blocks agree, position by position, on eligibility. */
  predicate SameEligibility(a: seq<Block>, b: seq<Block>, val: bool, strict: bool)
  {
    |a| == |b| && forall i :: 0 <= i < |a| ==> Eligible(a[i], val, strict) == Eligible(b[i], val, strict)
  }

  /** A pass reads a block only through its eligibility and its distance. */
  lemma SameEligibilityChoices(a: seq<Block>, b: seq<Block>, ds: seq<nat>, val: bool, strict: bool, v: nat, n: nat)
    requires SameEligibility(a, b, val, strict) && n <= |a| == |ds|
    ensures NoneEligible(a, val, strict, n) == NoneEligible(b, val, strict, n)
    ensures FirstNearest(a, ds, val, strict, v, n) == FirstNearest(b, ds, val, strict, v, n)
  {
  }

  /** The relaxed test ignores wear counters, so resetting them does not change what a relaxed pass picks. */
  lemma RelaxedPassIgnoresReset(blks: seq<Block>, ds: seq<nat>, val: bool)
    requires |blks| == |ds| && forall i :: 0 <= i < |ds| ==> ds[i] <= Pairs
    ensures Pass(ResetCounters(blks, val), ds, val, false) == Pass(blks, ds, val, false)
  {
    var reset := ResetCounters(blks, val);
    var n := |blks|;
    assert SameEligibility(reset, blks, val, false);
    var r, r' := Pass(reset, ds, val, false), Pass(blks, ds, val, false);
    SameEligibilityChoices(reset, blks, ds, val, false, 0, n);
    if r.Some? && r'.Some? {
      SameEligibilityChoices(reset, blks, ds, val, false, r.value, n);
      FirstNearestUnique(blks, ds, val, false, r.value, r'.value, n);
    }
  }

  /** The encoder reads a block's payload, flags and stored word, never its wear counter. */
  lemma EncodingIgnoresCounter(incoming: seq<Byte>, b: Block, n: nat)
    requires |incoming| >= 8 && WellFormed(b)
    ensures TriggeredPairs(incoming, b.(counter := n)) == TriggeredPairs(incoming, b)
    ensures forall k :: PairsInBucket(incoming, b.(counter := n), k) == PairsInBucket(incoming, b, k)
  {
  }

  /** The outcome of victim selection: the set after it, the counters after it, and the victim's index. */
  datatype Choice = Choice(blks: seq<Block>, hist: Histogram, way: nat)

  /** Every wear counter of the set is at most the threshold. */
  predicate CountersBounded(blks: seq<Block>)
  {
    forall j :: 0 <= j < |blks| ==> blks[j].counter <= Threshold
  }

  /**
   * `after` holds the outcome of encoding `incoming` onto `before`: a stored
   * word, which is the packed payload itself when no pair triggers, the
   * triggered pairs' flags set, and the counters `hist` grown into `hist'` by
   * one per triggered pair, in that pair's bucket.
   */
  ghost predicate EncodedOnto(before: Block, after: Block, incoming: seq<Byte>, hist: Histogram, hist': Histogram)
    requires WellFormed(before) && WellFormed(after) && |incoming| >= 8
  {
    && after.encoded.Some?
    && (TriggeredPairs(incoming, before) == {} ==> after.encoded == Some(Pack(incoming)))
    && (forall i :: 0 <= i < Pairs ==> after.flags[i] == (before.flags[i] || i in TriggeredPairs(incoming, before)))
    && Total(hist') == Total(hist) + |TriggeredPairs(incoming, before)|
    && (forall b :: Count(hist', b) == Count(hist, b) + |PairsInBucket(incoming, before, b)|)
  }

  /** Bump the chosen block's wear counter, then encode the incoming payload onto it. */
  function Finish(blks: seq<Block>, v: nat, incoming: seq<Byte>, hist: Histogram): (c: Choice)
    requires v < |blks| && AllWellFormed(blks) && |incoming| >= 8
    ensures c.way == v && |c.blks| == |blks| && AllWellFormed(c.blks)
    ensures forall j :: 0 <= j < |blks| && j != v ==> c.blks[j] == blks[j]
    ensures c.blks[v] == blks[v].(counter := blks[v].counter + 1, flags := c.blks[v].flags, encoded := c.blks[v].encoded)
    ensures EncodedOnto(blks[v], c.blks[v], incoming, hist, c.hist)
    ensures CountersBounded(blks) && blks[v].counter < Threshold ==> CountersBounded(c.blks)
  {
    var bumped := blks[v].(counter := blks[v].counter + 1);
    var e := CountTransitionsAndEncode(incoming, bumped, hist);
    EncodingIgnoresCounter(incoming, blks[v], blks[v].counter + 1);
    Choice(blks[v := e.victim], e.hist, v)
  }

  /**
   * The relaxed pass: every block of the reference validity has its wear
   * counter reset, and the nearest of them, ignoring the counters, is chosen.
   * The tail block is always eligible there, so the pass never comes back empty.
   */
  function Relaxed(blks: seq<Block>, ds: seq<nat>, val: bool, incoming: seq<Byte>, hist: Histogram): (c: Choice)
    requires |blks| >= 1 && AllWellFormed(blks) && |incoming| >= 8 && blks[|blks| - 1].valid == val
    requires |ds| == |blks| && forall j :: 0 <= j < |ds| ==> ds[j] <= Pairs
    ensures c.way < |blks| && |c.blks| == |blks| && AllWellFormed(c.blks)
    ensures FirstNearest(blks, ds, val, false, c.way, |blks|)
    ensures forall j :: 0 <= j < |blks| && j != c.way ==>
      c.blks[j] == (if blks[j].valid == val then blks[j].(counter := 0) else blks[j])
    ensures c.blks[c.way] == blks[c.way].(counter := 1, flags := c.blks[c.way].flags, encoded := c.blks[c.way].encoded)
    ensures EncodedOnto(blks[c.way], c.blks[c.way], incoming, hist, c.hist)
    ensures CountersBounded(blks) ==> CountersBounded(c.blks)
  {
    var v := RelaxedPick(blks, ds, val);
    var reset := ResetCounters(blks, val);
    var c := Finish(reset, v, incoming, hist);
    EncodedOntoIgnoresCounter(blks[v], 0, c.blks[v], incoming, hist, c.hist);
    c
  }

  /** The relaxed pass always finds a block: the tail is eligible in it. */
  function RelaxedPick(blks: seq<Block>, ds: seq<nat>, val: bool): (v: nat)
    requires |blks| >= 1 && blks[|blks| - 1].valid == val
    requires |ds| == |blks| && forall j :: 0 <= j < |ds| ==> ds[j] <= Pairs
    ensures v < |blks| && FirstNearest(blks, ds, val, false, v, |blks|)
  {
    assert Eligible(blks[|blks| - 1], val, false);
    Pass(blks, ds, val, false).value
  }

  /** Whether a block received an encoding does not depend on its wear counter. */
  lemma EncodedOntoIgnoresCounter(b: Block, n: nat, after: Block, incoming: seq<Byte>, hist: Histogram, hist': Histogram)
    requires WellFormed(b) && WellFormed(after) && |incoming| >= 8
    ensures EncodedOnto(b.(counter := n), after, incoming, hist, hist') == EncodedOnto(b, after, incoming, hist, hist')
  {
    EncodingIgnoresCounter(incoming, b, n);
  }

  /**
   * Victim selection in a non-top-level cache, given the blocks' distances
   * `ds`: the strict pass, and when it finds nothing, the relaxed pass. The
   * reference validity is that of the tail block.
   */
  function Select(blks: seq<Block>, ds: seq<nat>, incoming: seq<Byte>, hist: Histogram): (c: Choice)
    requires |blks| >= 1 && AllWellFormed(blks) && |incoming| >= 8
    requires |ds| == |blks| && forall j :: 0 <= j < |ds| ==> ds[j] <= Pairs
    ensures c.way < |blks| && |c.blks| == |blks| && AllWellFormed(c.blks)
    ensures blks[c.way].valid == blks[|blks| - 1].valid
    // Some block passes the strict test: the first nearest of those is chosen and only it changes.
    ensures !NoneEligible(blks, blks[|blks| - 1].valid, true, |blks|) ==>
      && FirstNearest(blks, ds, blks[|blks| - 1].valid, true, c.way, |blks|)
      && (forall j :: 0 <= j < |blks| && j != c.way ==> c.blks[j] == blks[j])
      && c.blks[c.way].counter == blks[c.way].counter + 1
    // None does: the first nearest block of the tail's validity is chosen, and
    // every block of that validity has its counter reset, the victim's then bumped to 1.
    ensures NoneEligible(blks, blks[|blks| - 1].valid, true, |blks|) ==>
      && FirstNearest(blks, ds, blks[|blks| - 1].valid, false, c.way, |blks|)
      && (forall j :: 0 <= j < |blks| && j != c.way ==>
            c.blks[j] == (if blks[j].valid == blks[|blks| - 1].valid then blks[j].(counter := 0) else blks[j]))
      && c.blks[c.way].counter == 1
    // The victim keeps its state and payload; only its counter, flags and stored word change.
    ensures c.blks[c.way] == blks[c.way].(counter := c.blks[c.way].counter, flags := c.blks[c.way].flags, encoded := c.blks[c.way].encoded)
    ensures EncodedOnto(blks[c.way], c.blks[c.way], incoming, hist, c.hist)
    ensures CountersBounded(blks) ==> CountersBounded(c.blks)
  {
    var val := blks[|blks| - 1].valid;
    match Pass(blks, ds, val, true)
    case Some(v) => Finish(blks, v, incoming, hist)
    case None => Relaxed(blks, ds, val, incoming, hist)
  }
}
