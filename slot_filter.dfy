/**
 The slot filter of `register_hotkey`.

 Block numbers and the configured slot are both `u32` in the source.  A block
 belongs to slot `block_number % 3`; an instance submits only on blocks of its
 own slot.  The modulus is fixed at 3 and the slot is not validated, so a slot
 of 3 or more matches no block at all.
 */
module SlotFilter {

  /** Unsigned 32-bit integers, the type of block numbers and of the slot option. */
  type U32 = n: int | 0 <= n < 0x1_0000_0000

  /** Number of slots that share the blocks; fixed in the source. */
  const SlotCount: U32 := 3

  /** The slot a block belongs to (`block_number % 3`). */
  function BlockSlot(blockNumber: U32): (s: U32)
    ensures s < SlotCount
    ensures exists q: nat :: blockNumber == SlotCount * q + s
  {
    assert blockNumber == SlotCount * (blockNumber / SlotCount) + blockNumber % SlotCount;
    blockNumber % SlotCount
  }

  /** An instance configured with `slot` submits on this block. */
  predicate Eligible(blockNumber: U32, slot: U32): (b: bool)
    ensures b <==> slot < SlotCount && exists q: nat :: blockNumber == SlotCount * q + slot
  {
    RemainderUnique(blockNumber, slot);
    BlockSlot(blockNumber) == slot
  }

  /** A decomposition `3 * q + s` with `s < 3` determines the remainder. */
  lemma RemainderUnique(blockNumber: U32, s: U32)
    ensures (s < SlotCount && exists q: nat :: blockNumber == SlotCount * q + s) ==> blockNumber % SlotCount == s
  {
    if s < SlotCount && exists q: nat :: blockNumber == SlotCount * q + s {
      var q: nat :| blockNumber == SlotCount * q + s;
      assert blockNumber / SlotCount == q;
    }
  }

  /**
   Exact partition: every block is eligible for exactly one of the slots
   0, 1 and 2, and for no slot of 3 or more.
   */
  lemma ExactPartition(blockNumber: U32)
    ensures exists s: U32 :: s < SlotCount && Eligible(blockNumber, s)
    ensures forall s: U32, t: U32 :: Eligible(blockNumber, s) && Eligible(blockNumber, t) ==> s == t
    ensures forall s: U32 :: s >= SlotCount ==> !Eligible(blockNumber, s)
  {
    assert Eligible(blockNumber, BlockSlot(blockNumber));
  }

  /** Three consecutive blocks give each of the three slots exactly one turn. */
  lemma ConsecutiveBlocksRotate(blockNumber: U32, slot: U32)
    requires blockNumber + 2 < 0x1_0000_0000
    requires slot < SlotCount
    ensures Eligible(blockNumber, slot) || Eligible(blockNumber + 1, slot) || Eligible(blockNumber + 2, slot)
    ensures Eligible(blockNumber, slot) ==> !Eligible(blockNumber + 1, slot) && !Eligible(blockNumber + 2, slot)
    ensures Eligible(blockNumber + 1, slot) ==> !Eligible(blockNumber + 2, slot)
  {
    var q: nat :| blockNumber == SlotCount * q + BlockSlot(blockNumber);
    var r := BlockSlot(blockNumber);
    if r == 0 {
      assert BlockSlot(blockNumber + 1) == 1 && BlockSlot(blockNumber + 2) == 2;
    } else if r == 1 {
      assert blockNumber + 2 == SlotCount * (q + 1);
      assert BlockSlot(blockNumber + 1) == 2 && BlockSlot(blockNumber + 2) == 0;
    } else {
      assert blockNumber + 1 == SlotCount * (q + 1);
      assert BlockSlot(blockNumber + 1) == 0 && BlockSlot(blockNumber + 2) == 1;
    }
  }

  /** Block 100 goes to slot 1 only. */
  lemma Block100BelongsToSlot1()
    ensures Eligible(100, 1) && !Eligible(100, 0) && !Eligible(100, 2)
  {
  }
}
