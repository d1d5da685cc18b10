/**
 * The wear-aware LRU tag store: an array of sets of `assoc` blocks each, kept
 * in recency order (index 0 the most recently used head, index `assoc - 1`
 * the tail), plus the eight transition counters shared by all sets.
 */
module TagStore {
  import opened Wrappers
  import opened Bits
  import opened Histograms
  import opened Blocks
  import opened Victim

  datatype Tags = Tags(sets: seq<seq<Block>>, assoc: nat, hist: Histogram)

  /** Where a block sits: its set and its position in that set's recency order. */
  datatype Location = Location(index: nat, way: nat)

  /** Every set has `assoc` well-formed blocks. */
  predicate Valid(t: Tags)
  {
    && t.assoc >= 1
    && forall s :: 0 <= s < |t.sets| ==> |t.sets[s]| == t.assoc && AllWellFormed(t.sets[s])
  }

  /** The store invariant: well-formed, and no wear counter beyond the threshold. */
  predicate Inv(t: Tags)
  {
    Valid(t) && forall s :: 0 <= s < |t.sets| ==> CountersBounded(t.sets[s])
  }

  predicate InStore(t: Tags, loc: Location)
  {
    loc.index < |t.sets| && loc.way < t.assoc
  }

  /** `s` without its element at `i`. */
  function Without<T>(s: seq<T>, i: nat): (r: seq<T>)
    requires i < |s|
    ensures |r| == |s| - 1
  {
    s[..i] + s[i + 1..]
  }

  /** Makes block `w` the most recently used: it goes to the head, the blocks before it shift down by one. */
  function MoveToHead<T>(blks: seq<T>, w: nat): (r: seq<T>)
    requires w < |blks|
    ensures |r| == |blks| && r[0] == blks[w]
    ensures forall i :: 0 <= i < w ==> r[i + 1] == blks[i]
    ensures forall i :: w < i < |blks| ==> r[i] == blks[i]
    ensures multiset(r) == multiset(blks)
  {
    var r := [blks[w]] + Without(blks, w);
    assert blks == blks[..w] + [blks[w]] + blks[w + 1..];
    r
  }

  /** Makes block `w` the least recently used: it goes to the tail, the blocks after it shift up by one. */
  function MoveToTail<T>(blks: seq<T>, w: nat): (r: seq<T>)
    requires w < |blks|
    ensures |r| == |blks| && r[|r| - 1] == blks[w]
    ensures forall i :: 0 <= i < w ==> r[i] == blks[i]
    ensures forall i :: w <= i < |blks| - 1 ==> r[i] == blks[i + 1]
    ensures multiset(r) == multiset(blks)
  {
    var r := Without(blks, w) + [blks[w]];
    assert blks == blks[..w] + [blks[w]] + blks[w + 1..];
    r
  }

  /** Moving to the head leaves the other blocks in their relative order. */
  lemma MoveToHeadKeepsOthers<T>(blks: seq<T>, w: nat)
    requires w < |blks|
    ensures Without(MoveToHead(blks, w), 0) == Without(blks, w)
  {
    var r := MoveToHead(blks, w);
    assert forall i :: 0 <= i < |blks| - 1 ==> Without(r, 0)[i] == r[i + 1];
    assert forall i :: 0 <= i < w ==> Without(blks, w)[i] == blks[i];
    assert forall i :: w <= i < |blks| - 1 ==> Without(blks, w)[i] == blks[i + 1];
  }

  /** Moving to the tail leaves the other blocks in their relative order. */
  lemma MoveToTailKeepsOthers<T>(blks: seq<T>, w: nat)
    requires w < |blks|
    ensures Without(MoveToTail(blks, w), |blks| - 1) == Without(blks, w)
  {
    var r := MoveToTail(blks, w);
    assert forall i :: 0 <= i < |blks| - 1 ==> Without(r, |blks| - 1)[i] == r[i];
    assert forall i :: 0 <= i < w ==> Without(blks, w)[i] == blks[i];
    assert forall i :: w <= i < |blks| - 1 ==> Without(blks, w)[i] == blks[i + 1];
  }

  /** Dropping one block keeps the others' well-formedness and counter bound. */
  lemma WithoutKeepsSet(blks: seq<Block>, w: nat)
    requires w < |blks|
    ensures AllWellFormed(blks) ==> AllWellFormed(Without(blks, w))
    ensures CountersBounded(blks) ==> CountersBounded(Without(blks, w))
  {
    var r := Without(blks, w);
    assert forall i :: 0 <= i < w ==> r[i] == blks[i];
    assert forall i :: w <= i < |r| ==> r[i] == blks[i + 1];
  }

  /** Dropping a block after overwriting it is the same as dropping it. */
  lemma WithoutUpdate(blks: seq<Block>, w: nat, b: Block)
    requires w < |blks|
    ensures Without(blks[w := b], w) == Without(blks, w)
  {
    assert blks[w := b][..w] == blks[..w];
    assert blks[w := b][w + 1..] == blks[w + 1..];
  }

  /** Block `w` of a set, replaced by `b`, moved to the head. */
  function Promote(blks: seq<Block>, w: nat, b: Block): (r: seq<Block>)
    requires w < |blks|
    ensures |r| == |blks| && r[0] == b
    ensures Without(r, 0) == Without(blks, w)
    ensures AllWellFormed(blks) && WellFormed(b) ==> AllWellFormed(r)
    ensures CountersBounded(blks) && b.counter <= Threshold ==> CountersBounded(r)
  {
    WithoutUpdate(blks, w, b);
    WithoutKeepsSet(blks, w);
    MoveToHeadKeepsOthers(blks[w := b], w);
    MoveToHead(blks[w := b], w)
  }

  /** Block `w` of a set, replaced by `b`, moved to the tail. */
  function Demote(blks: seq<Block>, w: nat, b: Block): (r: seq<Block>)
    requires w < |blks|
    ensures |r| == |blks| && r[|r| - 1] == b
    ensures Without(r, |r| - 1) == Without(blks, w)
    ensures AllWellFormed(blks) && WellFormed(b) ==> AllWellFormed(r)
    ensures CountersBounded(blks) && b.counter <= Threshold ==> CountersBounded(r)
  {
    WithoutUpdate(blks, w, b);
    WithoutKeepsSet(blks, w);
    MoveToTailKeepsOthers(blks[w := b], w);
    MoveToTail(blks[w := b], w)
  }

  /** Replaces set `s` by `blks`; a replacement of the right size and shape keeps the store valid. */
  function UpdateSet(t: Tags, s: nat, blks: seq<Block>): (r: Tags)
    requires s < |t.sets|
    ensures |r.sets| == |t.sets| && r.sets[s] == blks && r.assoc == t.assoc && r.hist == t.hist
    ensures forall s' :: 0 <= s' < |t.sets| && s' != s ==> r.sets[s'] == t.sets[s']
    ensures Valid(t) && |blks| == t.assoc && AllWellFormed(blks) ==> Valid(r)
    ensures Inv(t) && |blks| == t.assoc && AllWellFormed(blks) && CountersBounded(blks) ==> Inv(r)
  {
    t.(sets := t.sets[s := blks])
  }

  /** The result of a lookup: the store after it and the block found, if any. */
  datatype Access = Access(tags: Tags, blk: Option<Block>)

  /**
   * A lookup. `hit` is where the underlying set-associative lookup found the
   * block, if anywhere; on a hit the block's write count goes up by one and
   * the block becomes the most recently used of its set.
   */
  function AccessBlock(t: Tags, hit: Option<Location>): (r: Access)
    requires Valid(t) && (hit.Some? ==> InStore(t, hit.value))
    ensures Valid(r.tags)
    ensures Inv(t) ==> Inv(r.tags)
    ensures hit.None? ==> r == Access(t, None)
    ensures hit.Some? ==>
      var s, w := hit.value.index, hit.value.way;
      && r.blk == Some(t.sets[s][w].(writeCount := t.sets[s][w].writeCount + 1))
      && |r.tags.sets| == |t.sets| && |r.tags.sets[s]| == t.assoc
      && r.tags.sets[s][0] == r.blk.value
      && Without(r.tags.sets[s], 0) == Without(t.sets[s], w)
      && r.tags.assoc == t.assoc && r.tags.hist == t.hist
      && (forall s' :: 0 <= s' < |t.sets| && s' != s ==> r.tags.sets[s'] == t.sets[s'])
  {
    match hit
    case None => Access(t, None)
    case Some(loc) =>
      var blks := t.sets[loc.index];
      var b := blks[loc.way].(writeCount := blks[loc.way].writeCount + 1);
      Access(UpdateSet(t, loc.index, Promote(blks, loc.way, b)), Some(b))
  }

  /**
   * Filling block `loc` with a new line: after the base container's fill, the
   * block becomes the most recently used of its set; nothing else about it
   * changes here.
   */
  function InsertBlock(t: Tags, loc: Location): (r: Tags)
    requires Valid(t) && InStore(t, loc)
    ensures Valid(r)
    ensures Inv(t) ==> Inv(r)
    ensures |r.sets| == |t.sets| && |r.sets[loc.index]| == t.assoc
    ensures r.sets[loc.index][0] == t.sets[loc.index][loc.way]
    ensures Without(r.sets[loc.index], 0) == Without(t.sets[loc.index], loc.way)
    ensures r.assoc == t.assoc && r.hist == t.hist
    ensures forall s' :: 0 <= s' < |t.sets| && s' != loc.index ==> r.sets[s'] == t.sets[s']
  {
    var blks := t.sets[loc.index];
    UpdateSet(t, loc.index, Promote(blks, loc.way, blks[loc.way]))
  }

  /**
   * Invalidating block `loc`: the block becomes invalid and the least recently
   * used of its set, so that it is evicted before the valid blocks.
   */
  function Invalidate(t: Tags, loc: Location): (r: Tags)
    requires Valid(t) && InStore(t, loc)
    ensures Valid(r)
    ensures Inv(t) ==> Inv(r)
    ensures |r.sets| == |t.sets| && |r.sets[loc.index]| == t.assoc
    ensures r.sets[loc.index][t.assoc - 1] == t.sets[loc.index][loc.way].(valid := false)
    ensures Without(r.sets[loc.index], t.assoc - 1) == Without(t.sets[loc.index], loc.way)
    ensures r.assoc == t.assoc && r.hist == t.hist
    ensures forall s' :: 0 <= s' < |t.sets| && s' != loc.index ==> r.sets[s'] == t.sets[s']
  {
    var blks := t.sets[loc.index];
    UpdateSet(t, loc.index, Demote(blks, loc.way, blks[loc.way].(valid := false)))
  }

  /** The result of victim selection: the store after it and the victim's position in its set. */
  datatype Replacement = Replacement(tags: Tags, way: nat)

  /**
   * The wear-aware selection in set `s`: among the blocks of the tail's
   * validity, the first nearest to `incoming` whose wear counter is other than
   * the threshold, or failing that the first nearest of all of them after their
   * counters are reset; the victim's counter is bumped and the incoming
   * payload encoded onto it.
   */
  function WearAwareVictim(t: Tags, s: nat, incoming: seq<Byte>): (r: Replacement)
    requires Valid(t) && s < |t.sets| && |incoming| >= 8
    ensures r.way < t.assoc && Valid(r.tags)
    ensures Inv(t) ==> Inv(r.tags)
    ensures |r.tags.sets| == |t.sets| && r.tags.assoc == t.assoc
    ensures forall s' :: 0 <= s' < |t.sets| && s' != s ==> r.tags.sets[s'] == t.sets[s']
    ensures t.sets[s][r.way].valid == t.sets[s][t.assoc - 1].valid
    ensures var blks := t.sets[s]; var val := blks[|blks| - 1].valid;
      !NoneEligible(blks, val, true, |blks|) ==> FirstNearest(blks, Distances(blks, incoming), val, true, r.way, |blks|)
    ensures var blks := t.sets[s]; var val := blks[|blks| - 1].valid;
      NoneEligible(blks, val, true, |blks|) ==> FirstNearest(blks, Distances(blks, incoming), val, false, r.way, |blks|)
    ensures EncodedOnto(t.sets[s][r.way], r.tags.sets[s][r.way], incoming, t.hist, r.tags.hist)
  {
    var blks := t.sets[s];
    var c := Select(blks, Distances(blks, incoming), incoming, t.hist);
    Replacement(UpdateSet(t, s, c.blks).(hist := c.hist), c.way)
  }

  /**
   * Chooses the block of set `s` to replace with `incoming`. A top-level cache
   * takes the tail block and changes nothing; any other cache runs the
   * wear-aware selection.
   */
  function FindVictim(t: Tags, s: nat, incoming: seq<Byte>, isTopLevel: bool): (r: Replacement)
    requires Valid(t) && s < |t.sets| && |incoming| >= 8
    ensures r.way < t.assoc && Valid(r.tags)
    ensures Inv(t) ==> Inv(r.tags)
    ensures |r.tags.sets| == |t.sets| && r.tags.assoc == t.assoc
    ensures forall s' :: 0 <= s' < |t.sets| && s' != s ==> r.tags.sets[s'] == t.sets[s']
    ensures t.sets[s][r.way].valid == t.sets[s][t.assoc - 1].valid
    ensures isTopLevel ==> r == Replacement(t, t.assoc - 1)
  {
    if isTopLevel then TopLevelVictim(t, s)
    else WearAwareVictim(t, s, incoming)
  }

  /** A top-level cache replaces the tail block of the set and changes nothing. */
  function TopLevelVictim(t: Tags, s: nat): (r: Replacement)
    requires Valid(t) && s < |t.sets|
    ensures r.way == t.assoc - 1 && r.tags == t
  {
    Replacement(t, t.assoc - 1)
  }

  /** An invalidated block is the very next victim of a top-level cache. */
  lemma InvalidatedIsNextTopLevelVictim(t: Tags, loc: Location, incoming: seq<Byte>)
    requires Valid(t) && InStore(t, loc) && |incoming| >= 8
    ensures var t' := Invalidate(t, loc);
      var r := FindVictim(t', loc.index, incoming, true);
      t'.sets[loc.index][r.way] == t.sets[loc.index][loc.way].(valid := false)
  {
  }

  /** After an invalidation, the wear-aware selection in that set picks an invalid block. */
  lemma InvalidatedSetEvictsInvalid(t: Tags, loc: Location, incoming: seq<Byte>)
    requires Valid(t) && InStore(t, loc) && |incoming| >= 8
    ensures var t' := Invalidate(t, loc);
      var r := FindVictim(t', loc.index, incoming, false);
      !t'.sets[loc.index][r.way].valid
  {
  }

  /**
   * After a hit in a set of two or more ways, the tail, where a top-level
   * cache takes its victim, holds the block that was least recently used
   * before the hit, or the one before that when the hit was on the tail
   * itself: the block just hit is never the next top-level victim.
   */
  lemma AccessKeepsTail(t: Tags, loc: Location)
    requires Valid(t) && InStore(t, loc) && t.assoc >= 2
    ensures var t' := AccessBlock(t, Some(loc)).tags;
      t'.sets[loc.index][t.assoc - 1] == t.sets[loc.index][if loc.way == t.assoc - 1 then t.assoc - 2 else t.assoc - 1]
  {
    var blks := t.sets[loc.index];
    var after := AccessBlock(t, Some(loc)).tags.sets[loc.index];
    var n := t.assoc;
    assert Without(after, 0)[n - 2] == after[n - 1];
    assert Without(blks, loc.way)[n - 2] == blks[if loc.way == n - 1 then n - 2 else n - 1];
  }
}
