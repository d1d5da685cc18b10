# Wear-aware LRU tag store

A Dafny model of the wear-aware LRU tag store in `cache/tags/lru.cc`. The tag
store belongs to a cache simulator extended for memories whose cells wear out
with writes. The model covers four things:

- **Distance** (`hammingDist`). Both payloads are packed little-endian into a
  64-bit word. The result counts the 32 bit-pairs whose high bit (bit 1)
  differs.
- **Victim selection** (`findVictim`). A top-level cache takes the tail of the
  set. Any other cache runs a strict pass over the blocks that have the tail's
  validity and a wear counter other than 8, and picks the first nearest of
  them. If there is none, a relaxed pass resets the counters of all blocks of
  that validity and picks the first nearest of those. The victim's counter is
  then bumped and the encoder runs on it.
- **Transition encoding** (`countTransitionsAndEncode`). For each pair, the
  old high bit XOR the pair's sticky flag is compared with the incoming high
  bit. On a mismatch:
  - the flag is set;
  - one of eight histogram counters is incremented;
  - a bit of the output word is flipped.

  The output word is stored on the block.
- **Recency** (`accessBlock`, `insertBlock`, `invalidate`). These move a block
  to the head or the tail of its set.

## Layout

| file | module | contents |
|---|---|---|
| `wrappers.dfy` | `Wrappers` | `Option`, for the nullable pointers |
| `bits.dfy` | `Bits` | little-endian packing, the pair bits as the source's shift loops read them, bit-vector lemmas |
| `distance.dfy` | `Distance` | `hammingDist` and its properties |
| `histogram.dfy` | `Histograms` | the eight counters and the encoder's branch table |
| `block.dfy` | `Blocks` | the cache block and the word the encoder compares against |
| `encoder.dfy` | `Encoder` | `countTransitionsAndEncode` |
| `victim.dfy` | `Victim` | the two passes of `findVictim` inside one set |
| `tagstore.dfy` | `TagStore` | the sets, recency moves, `accessBlock`, `insertBlock`, `invalidate`, `findVictim` |

## Modelling decisions

**Sets.** A set is a `seq<Block>` in recency order:
- index 0 is the head (most recently used);
- index `assoc - 1` is the tail, which is `blks[assoc-1]` in the source;
- `moveToHead` and `moveToTail` are rotations of that sequence.

**The stored word.** The source stores the encoder's output through a pointer
to a stack local. The model stores it as an owned `encoded: Option<bv64>` on
the block.

**Where the distance reads.** The victim distance reads the block's raw
payload bytes, as the code does at lines 249 and 264. Only the encoder reads
the stored word, at lines 110-121.

**The output flip.** The flip on line 166 is modelled as XOR with bit
`63 - 2k` of a 64-bit word for pair `k`. That is the mirrored position, not a
bit inside pair `k`.

**The loops.** Each loop is a recursive function over the pair index:
- `DistFrom` for the distance;
- `EncodeFrom` for the encoder;
- `PassFrom` for one victim pass.

Each has a reference definition that does not loop:
- `DiffPairs`, the set of differing pairs;
- `TriggeredFrom` and `InBucketFrom`, the triggered pairs overall and per bucket;
- `FirstNearest` and `NoneEligible`, the first nearest eligible block and its absence.

Lemmas connect each loop to its reference definition.

**Distances are computed first.** The passes take the blocks' distances as a
precomputed sequence (`Distances`). `DistancesMeasure` ties entry `j` of that
sequence to block `j`'s distance.

**The relaxed pass.** The source resets the counters while it scans. The model
runs the relaxed selection over the blocks as they were and resets the
counters separately. This is the same thing, because the relaxed test ignores
the counters; `RelaxedPassIgnoresReset` proves it.

## Model

| member | source | states |
|---|---|---|
| Bits.PackIsSourceExpression | cache/tags/lru.cc:194-210 | the byte-by-byte packing equals the source's eight-term OR of shifted bytes, byte 0 least significant |
| Bits.UnpackPack | cache/tags/lru.cc:99-106 | packing loses none of the first eight bytes: splitting the packed word gives them back |
| Bits.PackUnpack | cache/tags/lru.cc:99-106 | every 64-bit word is the packing of exactly its own eight bytes |
| Bits.HiBitXor | cache/tags/lru.cc:215-218 | the high bit of pair `k` of `a ^ b`, read as the loop reads it, is set exactly when `a` and `b` differ there |
| Bits.PackHighBits | cache/tags/lru.cc:194-210 | payloads whose bytes agree under mask `0xAA` pack to words that agree on every high pair bit |
| Distance.HammingDist | cache/tags/lru.cc:189-227 | the distance of two payloads is at most 32 |
| Distance.DistCountsDiffPairs | cache/tags/lru.cc:213-224 | the loop's count from pair `k` on equals the number of pairs from `k` on whose high bits differ |
| Distance.PairDistanceCounts | cache/tags/lru.cc:213-226 | the returned distance is the size of the set of pairs whose high bits differ |
| Distance.PairDistanceZero | cache/tags/lru.cc:213-226 | the distance is 0 if and only if every pair agrees in its high bit |
| Distance.PairDistanceSymmetric | cache/tags/lru.cc:213-226 | swapping the two words does not change the distance |
| Distance.HammingDistSymmetric | cache/tags/lru.cc:189-227 | `hammingDist(x, y) == hammingDist(y, x)` |
| Distance.HammingDistSelf | cache/tags/lru.cc:189-227 | a payload is at distance 0 from itself |
| Distance.PairDistanceIgnoresLowBits | cache/tags/lru.cc:215-222 | flipping only low pair bits of a word never changes its distance to another word |
| Distance.HammingDistIgnoresLowBits | cache/tags/lru.cc:194-226 | payloads that differ only in the low bit of some pairs are equally far from every payload |
| Distance.SameHighBitsZero | cache/tags/lru.cc:213-226 | words that agree on every high pair bit are at distance 0 |
| Histograms.Initial | cache/tags/lru.cc:56-69 | the constructor leaves every one of the eight counters, and so their sum, at 0 |
| Histograms.Bump | cache/tags/lru.cc:135-161 | an increment raises its own counter by one, leaves the other seven alone, and raises the sum by one |
| Histograms.ClassifyMatchesNames | cache/tags/lru.cc:131-164 | the branch table sends a triggered pair to the bucket whose name records its old pair and its new low bit; the flipped high bit in every name is a property of the names only, since a pair whose flag is set triggers without a flip |
| Histograms.ClassifyInjective | cache/tags/lru.cc:131-164 | distinct (old high, old low, new low) triples land in distinct buckets |
| Encoder.StepEffect | cache/tags/lru.cc:125-171 | one iteration changes only the flag of its own pair, sets it exactly on a trigger, and counts at most that pair, in its bucket |
| Encoder.EncodeFromFlags | cache/tags/lru.cc:124-172 | after the loop a pair's flag is its old flag or whether it triggered; earlier pairs are untouched |
| Encoder.EncodeFromTotal | cache/tags/lru.cc:124-172 | the loop raises the counter sum by exactly the number of triggered pairs |
| Encoder.EncodeFromCounts | cache/tags/lru.cc:124-172 | the loop raises each counter by exactly the number of triggered pairs in its bucket |
| Encoder.EncodeFromQuiet | cache/tags/lru.cc:124-172 | with no triggered pair the loop changes no flag, no counter and no output bit |
| Encoder.TriggeredFromBound | cache/tags/lru.cc:123-124 | at most one trigger per pair, so at most 32 in all |
| Encoder.EncodeLoop | cache/tags/lru.cc:123-172 | the whole loop from pair 0: flags, sum and per-bucket counts as above, and no change when nothing triggers |
| Encoder.CountTransitionsAndEncode | cache/tags/lru.cc:94-186 | only flags and stored word change; flags become old-or-triggered; the sum grows by the triggered count and each counter by its bucket's share; with no trigger, flags and counters are unchanged and the stored word is the packed incoming payload |
| Encoder.TriggeredPairsBound | cache/tags/lru.cc:124-172 | one call adds at most 32 to the counters |
| Encoder.NextCallReadsOutput | cache/tags/lru.cc:110-174 | the next call on the same block compares against the word this call stored |
| Encoder.NextCallComparesOutput | cache/tags/lru.cc:110-174 | a second encode onto the same block triggers on the first call's output word under the flags the first call left; when the first call triggered nothing, that word is the first payload |
| Encoder.EncodeAll | cache/tags/lru.cc:94-186 | over N calls the sum of the counters grows by exactly the number of pairs that triggered, summed over the calls, hence by at most 32 N; a flag once set stays set |
| Victim.Distances | cache/tags/lru.cc:248-253 | one distance per block, each at most 32 |
| Victim.DistancesMeasure | cache/tags/lru.cc:249-253 | entry `j` of the distances is the distance from the incoming payload to block `j`'s payload bytes |
| Victim.PassFrom | cache/tags/lru.cc:248-259 | from any point of a pass, the result is empty exactly when no block is eligible, and otherwise is the first eligible block of minimal distance |
| Victim.Pass | cache/tags/lru.cc:243-259 | a pass starting at minimum 33 finds nothing exactly when no block is eligible, else the first nearest eligible block |
| Victim.FirstNearestUnique | cache/tags/lru.cc:255-256 | the strict `<` makes the chosen block unique: two first-nearest blocks are the same block |
| Victim.SameEligibilityChoices | cache/tags/lru.cc:251-256 | a pass depends on the blocks only through their eligibility and their distances |
| Victim.RelaxedPassIgnoresReset | cache/tags/lru.cc:263-274 | resetting the counters during the relaxed pass does not change which block it picks |
| Victim.EncodingIgnoresCounter | cache/tags/lru.cc:279-281 | bumping the victim's counter before encoding does not change what the encoder does |
| Victim.Finish | cache/tags/lru.cc:279-281 | the victim's counter goes up by one and the incoming payload is encoded onto it: flags become old-or-triggered, each counter grows by its bucket's triggered pairs, and the stored word is the packed payload when nothing triggers; no other block changes |
| Victim.Relaxed | cache/tags/lru.cc:261-281 | the victim is the first nearest block of the reference validity; every other block of that validity has counter 0, other blocks are untouched, the victim ends with counter 1, and no counter exceeds the threshold if none did |
| Victim.RelaxedPick | cache/tags/lru.cc:261-277 | the relaxed pass never comes back empty: the tail block is always eligible in it |
| Victim.Select | cache/tags/lru.cc:237-281 | a strict victim when one exists (counter +1, nothing else changes), else a relaxed one (same-validity counters reset, victim at 1); the victim has the tail's validity, only its counter, flags and stored word change, and the counter bound is kept |
| TagStore.MoveToHead | cache/tags/lru.cc:85 | the block goes to the head, the blocks before it shift down by one, the rest stay, and the set's contents are unchanged |
| TagStore.MoveToTail | cache/tags/lru.cc:302 | the block goes to the tail, the blocks after it shift up by one, the rest stay, and the set's contents are unchanged |
| TagStore.MoveToHeadKeepsOthers | cache/tags/lru.cc:85 | the other blocks keep their relative order |
| TagStore.MoveToTailKeepsOthers | cache/tags/lru.cc:302 | the other blocks keep their relative order |
| TagStore.AccessBlock | cache/tags/lru.cc:71-92 | a miss changes nothing; a hit returns the block with its write count up by exactly one, puts it at the head of its set, keeps the other blocks in order and every other set unchanged, and keeps the store invariant |
| TagStore.AccessKeepsTail | cache/tags/lru.cc:76-85 | after a hit, the tail is the previous least recently used block other than the one hit |
| TagStore.InsertBlock | cache/tags/lru.cc:286-293 | the filled block goes to the head unchanged; the other blocks keep their order and the store invariant holds |
| TagStore.Invalidate | cache/tags/lru.cc:295-303 | the block becomes invalid and goes to the tail; the other blocks keep their order and the store invariant holds |
| TagStore.WearAwareVictim | cache/tags/lru.cc:237-283 | the victim has the tail's validity; it is the first nearest strict candidate when one exists, else the first nearest relaxed one; the incoming payload is encoded onto it; other sets are untouched and no counter exceeds the threshold |
| TagStore.FindVictim | cache/tags/lru.cc:230-284 | a top-level cache gets the tail and nothing changes; otherwise a way of the set comes back (never null), it has the tail's validity, and only that set and the counters change |
| TagStore.InvalidatedIsNextTopLevelVictim | cache/tags/lru.cc:300-302 | an invalidated block is the next victim of a top-level cache |
| TagStore.InvalidatedSetEvictsInvalid | cache/tags/lru.cc:300-302 | after an invalidation, the wear-aware selection in that set picks an invalid block, so invalid blocks are evicted before valid ones |

## Left out

- `DPRINTF` tracing (lines 86-88, 176-184) has no effect on behaviour.
- `LRUParams::create` (lines 305-309) is construction glue.
- `BaseSetAssoc` is not part of this model. That covers:
  - the lookup: `AccessBlock` takes the hit location, or none, as an input;
  - the fill: `InsertBlock` models only the move to the head at line 292; whatever the base fill at line 289 does to the block (its status, tag and data) is not modelled;
  - the invalidation: `Invalidate` models only the block becoming invalid;
  - `extractSet`: the set index is an input;
  - `regenerateBlkAddr`.
- `CacheSet` is not part of this model. Its `moveToHead` and `moveToTail` are modelled as rotations of the set's sequence.
- The packet layer is replaced by a byte sequence of at least eight bytes. The source reads `incoming[0..7]` unchecked.
- Latency, `master_id`, the secure flag, the unused `dist` local and the `pkt` parameter of the encoder have no effect on the logic.
- `1 << (63 - j)` on line 166 is a 32-bit `int` shift. It is undefined for shift amounts of 32 and more, and `1 << 31` sign-extends when widened. The model XORs the intended single bit `63 - j` of the 64-bit word.
- Encoder.CountTransitionsAndEncode: states the stored word only when no pair triggers. When pairs trigger, it claims nothing about which output bits flip, because of the shift above.
- The eight histogram counters, `writeCount` and `counter` are unbounded naturals. In the source they are fixed-width counters declared in headers that are not part of this model. The model does not wrap them on overflow. `counter` stays at most the threshold under the store invariant. The histogram counters grow by up to 32 per wear-aware fill, and `writeCount` grows by one per hit.
- The dangling pointer `victim->newData = &newData` (line 174) is modelled as an owned stored word.
- TagStore.FindVictim: assumes a well-formed store with at least one way. The source indexes `blks[assoc-1]` without a check.
- TagStore.FindVictim: states the selection rule through `WearAwareVictim`, which carries the strict and relaxed choice. Its own contract keeps only what holds for both kinds of cache.
