/** One cache line as the wear-aware tag store sees it. */
module Blocks {
  import opened Wrappers
  import opened Bits

  /** The wear counter value at which a block drops out of the strict victim pass. */
  const Threshold: nat := 8

  /**
   * `valid`: the line holds data; `writeCount`: hits seen so far;
   * `counter`: wear counter, bumped each time the block is chosen as victim;
   * `data`: the line's payload bytes (only the first eight are read);
   * `flags`: the sticky per-pair polarity flags, one per bit-pair;
   * `encoded`: the word stored by the last encode step, if any.
   */
  datatype Block = Block(
    valid: bool,
    writeCount: nat,
    counter: nat,
    data: seq<Byte>,
    flags: seq<bool>,
    encoded: Option<bv64>)

  predicate WellFormed(b: Block)
  {
    |b.data| >= 8 && |b.flags| == Pairs
  }

  /** The word the encoder compares against: the stored encoded word when there is one, else the packed payload. */
  function OldWord(b: Block): (w: bv64)
    requires |b.data| >= 8
  {
    match b.encoded
    case Some(e) => e
    case None => Pack(b.data)
  }
}
