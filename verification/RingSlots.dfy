/** Counters that only grow and the slots of a ring they stand for. */
module RingSlots {
  import opened Words

  const RESERVE := 16                 // EFX_RXQ_LIMIT and EFX_TXQ_LIMIT leave this many descriptors unused

  function Slot(size: nat, k: nat): (r: nat)
    requires size > 0
    ensures r < size
  {
    k % size
  }

  lemma SlotIs(size: nat, k: nat)
    ensures size > 0 ==> Slot(size, k) == k % size
  {
  }

  /** Of a ring's worth of counters in a row, no two share a slot. */
  lemma SlotsApart(size: nat, j: nat, lo: nat, hi: nat)
    requires size > 0 && hi <= lo + size && lo <= j < hi
    ensures forall k :: lo <= k < hi && k != j ==> Slot(size, k) != Slot(size, j)
  {
    forall k | lo <= k < hi && k != j
      ensures Slot(size, k) != Slot(size, j)
    {
      if k < j { SlotsDiffer(k, j, size); } else { SlotsDiffer(j, k, size); }
    }
  }

  lemma SlotWraps(size: nat, k: nat)
    requires size > 0
    ensures Slot(size, k + size) == Slot(size, k)
  {
    ModMultiple(k, size, 1);
  }

  lemma NextSlot(size: nat, k: nat)
    requires size > 0
    ensures (Slot(size, k) + 1) % size == Slot(size, k + 1)
  {
    var q, r := k / size, k % size;
    assert k + 1 == (r + 1) + size * q;
    ModMultiple(r + 1, size, q);
  }

  /** The distance round the ring from one counter's slot to that of a later one is the true count. */
  lemma DeltaIsCount(size: nat, x: nat, d: nat)
    requires size > 0 && d < size
    ensures var stop, at := Slot(size, x + d), Slot(size, x);
      d == if stop >= at then stop - at else size - at + stop
  {
    assert x == size * (x / size) + Slot(size, x);
    var y := Slot(size, x) + d;
    if y < size {
      DivModUnique(x + d, size, x / size, y);
    } else {
      assert size * (x / size + 1) == size * (x / size) + size;
      DivModUnique(x + d, size, x / size + 1, y - size);
    }
  }

  lemma SmallMod(x: nat, size: nat)
    ensures x < size ==> x % size == x
  {
  }

  /** A ring size that divides the range of the counters fits it. */
  lemma RingFits(size: nat)
    requires size > 0 && WORD32 % size == 0
    ensures size <= WORD32
  {
    SmallMod(WORD32, size);
  }
}
