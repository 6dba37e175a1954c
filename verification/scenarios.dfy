/**
  Small concrete cases worked out from the model.

  Word size 4 bytes throughout; addresses are byte addresses.
 */
module Scenarios {
  import opened Wrappers
  import opened Address
  import opened LineStore
  import opened Statistics
  import opened Configuration
  import opened AccessHandlers
  import opened CacheModel
  import opened Recency

  /**
    A direct-mapped unified cache of 64 bytes (16 words) with 16-byte
    (4-word) blocks, write-back and write-allocate: 4 sets, 2 index bits,
    and 4 offset bits, because the offset width is taken from the block
    size in bytes.
   */
  const DirectMapped := Config(false, 64, 64, 64, 16, 4, 1, true, true, 4)

  lemma SmallPowers()
    ensures Pow2(2) == 4 && Pow2(4) == 16 && Pow2(6) == 64
  {
  }

  /** The empty direct-mapped cache: four empty sets, a 2-bit index and a 4-bit offset. */
  lemma DirectMappedInitial()
    ensures ConfigOk(DirectMapped)
    ensures var s := InitCache(DirectMapped);
            && s.caches == Unified(Cache(Layout(2, 4), 1, [[], [], [], []]))
            && s.policy == Policy(true, true, 4)
  {
    assert NumSetsFor(DirectMapped, 64) == 4;
    assert Log2(4) == 2 && Log2(16) == 4;
    var c := InitCache(DirectMapped).caches.cache;
    assert |c.sets| == 4;
    assert c.sets == [[], [], [], []];
  }

  /** Byte address 0: set 0, tag 0. */
  lemma FieldsOf0()
    ensures SetIndex(Layout(2, 4), 0) == 0 && Tag(Layout(2, 4), 0) == 0
  {
    SmallPowers();
  }

  /** Byte address 16 starts the next 16-byte block, so it lands in the next set, under the same tag. */
  lemma FieldsOf16()
    ensures SetIndex(Layout(2, 4), 16) == 1 && Tag(Layout(2, 4), 16) == 0
  {
    SmallPowers();
  }

  /** Byte address 64 wraps round to set 0 under the next tag. */
  lemma FieldsOf64()
    ensures SetIndex(Layout(2, 4), 64) == 0 && Tag(Layout(2, 4), 64) == 1
  {
    SmallPowers();
  }

  /** Two loads of one tag into an empty direct-mapped set: one miss, then a hit. */
  lemma ReloadHits()
    ensures LoadRun(1, 4, [0, 0], Zero) == Outcome([Line(0, false)], Stats(2, 1, 0, 4, 0))
  {
    var t := [0, 0];
    assert t[..1] == [0] && t[..1][..0] == [];
    assert LoadRun(1, 4, [0], Zero) == Outcome([Line(0, false)], Stats(1, 1, 0, 4, 0));
    assert Find([Line(0, false)], 0) == Some(0);
  }

  /** Two tags alternating in a direct-mapped set evict each other on every load. */
  lemma ConflictThrashes()
    ensures LoadRun(1, 4, [0, 1, 0], Zero) == Outcome([Line(0, false)], Stats(3, 3, 2, 12, 0))
  {
    var t := [0, 1, 0];
    assert t[..2] == [0, 1] && t[..2][..1] == [0] && t[..2][..1][..0] == [];
    assert LoadRun(1, 4, [0], Zero) == Outcome([Line(0, false)], Stats(1, 1, 0, 4, 0));
    assert Find([Line(0, false)], 1) == None;
    assert LoadRun(1, 4, [0, 1], Zero) == Outcome([Line(1, false)], Stats(2, 2, 1, 8, 0));
    assert Find([Line(1, false)], 0) == None;
  }

  /**
    Under write-through with write-allocate and one-word blocks, a store
    miss fetches the block and copies one word back; a second store to it
    hits and copies one more word.
   */
  lemma WriteThroughStores()
    ensures var p := Policy(false, true, 1);
            var first := Store(p, 2, [], 0, Zero);
            && first == Outcome([Line(0, false)], Stats(1, 1, 0, 1, 1))
            && Store(p, 2, first.lines, 0, first.stats) == Outcome([Line(0, false)], Stats(2, 1, 0, 1, 2))
  {
    assert Find([Line(0, false)], 0) == Some(0);
    assert MoveToFront([Line(0, false)], 0) == [Line(0, false)];
  }
}
