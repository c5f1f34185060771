/** How completion events and doorbells move the ring positions (common/ef10_ev.c:537-553, 952-967;
    sfxge_ev.c:238-318; common/ef10_rx.c:634-700; common/ef10_tx.c:410-466). */
module Events {
  import opened Words
  import opened RingSlots

  const LBITS := 16                   // 1 << ESF_DZ_RX_DSC_PTR_LBITS_WIDTH
  const WPTR_ALIGN := 8               // EF10_RX_WPTR_ALIGN

  /** A ring size: a power of two that divides the counters' range. */
  predicate RingSize(size: nat) {
    RESERVE < size && WORD32 % size == 0
  }

  // ---------------------------------------------------------------- receive events

  /** The descriptor count of ef10_ev_rx: the reported low bits less the read pointer, in four bits. */
  function DescCount(lbits: nat, readPtr: u32): nat {
    Sub32(lbits % WORD32, readPtr) % LBITS
  }

  /** It recovers the true count exactly when the event completes at most 15 descriptors; a batch of 16,
      which the configured maximum allows, reads as none. */
  lemma CountRecovered(done: nat, d: nat)
    ensures DescCount((done + d) % LBITS, Wrap32(done)) == d % LBITS
    ensures DescCount((done + d) % LBITS, Wrap32(done)) == d <==> d < LBITS
  {
    var l := (done + d) % LBITS;
    var q := (done + d) / LBITS;
    assert l == done + d - LBITS * q;
    var w := done / WORD32;
    assert l - Wrap32(done) == d - LBITS * q + WORD32 * w;
    var s := (l - Wrap32(done)) / WORD32;
    assert Sub32(l, Wrap32(done)) == d + LBITS * (-q + WORD32 / LBITS * (w - s));
    ModMultiple(d, LBITS, -q + WORD32 / LBITS * (w - s));
    assert l % WORD32 == l;
  }

  /** What an event leaves in the packet of a completed descriptor. */
  datatype Mark = Mark(flags: nat, size: nat)

  class RxEvents {
    const marks: array<Mark>          // srp_flags and srp_size of the packet in each ring slot
    const batching: bool              // enc_rx_batching_enabled
    const batchMax: nat               // enc_rx_batch_max
    var readPtr: u32                  // eers_rx_read_ptr
    var pending: u32                  // sr_pending
    var exception: bool               // se_exception
    ghost var done: nat               // descriptors counted so far

    /** Both positions are the count of completed descriptors modulo 2^32. */
    ghost predicate InStep()
      reads this
    {
      RingSize(marks.Length) && readPtr == Wrap32(done) && pending == Wrap32(done)
    }

    /** ef10_ev_rxlabel_init, with the counters of a queue that has just been started. */
    constructor (size: nat, batching: bool, batchMax: nat)
      requires RingSize(size)
      ensures InStep() && done == 0 && fresh(marks) && marks.Length == size && !exception
    {
      marks := new Mark[size](_ => Mark(0, 0));
      this.batching, this.batchMax := batching, batchMax;
      readPtr, pending, exception, done := 0, 0, false, 0;
    }

    /** The descriptor part of ef10_ev_rx: the read pointer moves on, and the last index used is found. */
    method ReadPointer(lbits: nat) returns (last: nat)
      requires RingSize(marks.Length) && lbits < LBITS
      modifies this`readPtr
      ensures readPtr == Add32(old(readPtr), DescCount(lbits, old(readPtr)))
      ensures last == Sub32(readPtr, 1) % marks.Length
    {
      var count := DescCount(lbits, readPtr);
      readPtr := Add32(readPtr, count);
      last := Sub32(readPtr, 1) % marks.Length;
    }

    /** The whole event: the hardware has completed d more descriptors, and reports the low bits of its
        position.  Exactly the slots of the descriptors counted are marked, unless the count is refused. */
    method Event(lbits: nat, m: Mark, ghost d: nat)
      requires InStep() && !exception && lbits == (done + d) % LBITS
      modifies this`readPtr, this`pending, this`exception, this`done, marks
      ensures InStep() && done == old(done) + d % LBITS
      ensures var n := d % LBITS; exception <==> n != 1 && (!batching || n == 0 || n > batchMax)
      ensures exception ==> marks[..] == old(marks[..])
      ensures !exception ==> forall k :: old(done) <= k < done ==> marks[Slot(marks.Length, k)] == m
      ensures !exception ==> forall k :: done <= k < old(done) + marks.Length ==>
        marks[Slot(marks.Length, k)] == old(marks[..])[Slot(marks.Length, k)]
    {
      ghost var n, from := d % LBITS, done;
      CountRecovered(done, d);
      WrapAdd(done, n);
      var last := ReadPointer(lbits);
      var size := marks.Length;
      StopSlot(size, from + n);
      WrapSlot(from, size);
      DeltaIsCount(size, from, n);
      var stop := (last + 1) % size;
      var id := pending % size;
      var delta := if stop >= id then stop - id else size - id + stop;
      pending, done := Add32(pending, delta), done + n;
      if delta != 1 && (!batching || delta <= 0 || delta > batchMax) {
        exception := true;
        return;
      }
      MarkSlots(id, stop, m, from, n);
    }

    /** The loop over the completed slots. */
    method MarkSlots(first: nat, stop: nat, m: Mark, ghost from: nat, ghost n: nat)
      requires RingSize(marks.Length) && n < LBITS
      requires first == Slot(marks.Length, from) && stop == Slot(marks.Length, from + n)
      modifies marks
      ensures forall k :: from <= k < from + n ==> marks[Slot(marks.Length, k)] == m
      ensures forall k :: from + n <= k < from + marks.Length ==>
        marks[Slot(marks.Length, k)] == old(marks[..])[Slot(marks.Length, k)]
    {
      var id, size := first, marks.Length;
      ghost var k := from;
      hide Slot;
      SameSlot(size, from, k, n);
      while id != stop
        invariant from <= k <= from + n && id == Slot(size, k)
        invariant id == stop <==> k == from + n
        invariant forall j :: from <= j < k ==> marks[Slot(size, j)] == m
        invariant forall j :: k <= j < from + size ==> marks[Slot(size, j)] == old(marks[..])[Slot(size, j)]
        decreases from + n - k
      {
        SlotsApart(size, k, from, from + size);
        marks[id] := m;
        NextSlot(size, k);
        id := (id + 1) % size;
        k := k + 1;
        SameSlot(size, from, k, n);
      }
    }
  }

  lemma StopSlot(size: nat, x: nat)
    requires RingSize(size)
    ensures (Sub32(Wrap32(x), 1) % size + 1) % size == Slot(size, x)
  {
    assert Sub32(Wrap32(x), 1) == Wrap32(x - 1) by {
      WrapMultiple(x - 1, -(x / WORD32));
      assert Wrap32(x) - 1 == x - 1 + WORD32 * (-(x / WORD32));
    }
    WrapSlot(x - 1, size);
    var q, r := (x - 1) / size, (x - 1) % size;
    assert x == size * q + (r + 1);
    ModMultiple(r + 1, size, q);
  }

  lemma SameSlot(size: nat, from: nat, k: nat, n: nat)
    requires n < size && from <= k <= from + n
    ensures Slot(size, k) == Slot(size, from + n) <==> k == from + n
  {
    if k < from + n {
      SlotsDiffer(k, from + n, size);
    }
  }

  // ---------------------------------------------------------------- posting and pushing

  /** ef10_rx_qpost: n addresses go into the ring behind those already added. */
  method RxPost(ring: array<nat>, addrs: seq<nat>, completed: u32, added: u32, ghost trueAdded: nat)
    requires RingSize(ring.Length) && added == Wrap32(trueAdded)
    requires Sub32(added, completed) + |addrs| <= ring.Length - RESERVE
    modifies ring
    ensures forall k :: 0 <= k < |addrs| ==> ring[Slot(ring.Length, trueAdded + k)] == addrs[k]
    ensures forall k :: trueAdded + |addrs| <= k < trueAdded + ring.Length ==>
      ring[Slot(ring.Length, k)] == old(ring[..])[Slot(ring.Length, k)]
  {
    var size := ring.Length;
    WrapSlot(trueAdded, size);
    hide Slot;
    var id := added % size;
    var i := 0;
    SlotIs(size, trueAdded);
    while i < |addrs|
      invariant 0 <= i <= |addrs| && id == Slot(size, trueAdded + i)
      invariant forall k :: 0 <= k < i ==> ring[Slot(size, trueAdded + k)] == addrs[k]
      invariant forall k :: trueAdded + i <= k < trueAdded + size ==> ring[Slot(size, k)] == old(ring[..])[Slot(size, k)]
    {
      SlotsApart(size, trueAdded + i, trueAdded, trueAdded + size);
      ring[id] := addrs[i];
      NextSlot(size, trueAdded + i);
      id := (id + 1) % size;
      i := i + 1;
    }
  }

  /** ef10_rx_qpush: the doorbell, if any, and the new pushed pointer. */
  method RxPush(size: nat, added: u32, pushed: u32) returns (pushed': u32, rang: bool, wptr: nat)
    requires RingSize(size)
    ensures pushed' % WPTR_ALIGN == 0 && pushed' <= added < pushed' + WPTR_ALIGN
    ensures rang <==> pushed' != pushed
    ensures wptr == pushed' % size
  {
    pushed' := added - added % WPTR_ALIGN;
    wptr := pushed' % size;
    rang := pushed' != pushed;
  }

  /** The pushed pointer stands for the true count of added descriptors, rounded down to a multiple of 8,
      also once the counters have wrapped. */
  lemma PushedIsAligned(trueAdded: nat)
    ensures var added := Wrap32(trueAdded);
      added - added % WPTR_ALIGN == Wrap32(trueAdded - trueAdded % WPTR_ALIGN)
  {
    var q := trueAdded / WORD32;
    assert trueAdded == Wrap32(trueAdded) + WPTR_ALIGN * (WORD32 / WPTR_ALIGN * q);
    ModMultiple(Wrap32(trueAdded), WPTR_ALIGN, WORD32 / WPTR_ALIGN * q);
    var a := Wrap32(trueAdded) - Wrap32(trueAdded) % WPTR_ALIGN;
    assert trueAdded - trueAdded % WPTR_ALIGN == a + WORD32 * q;
    WrapMultiple(a, q);
  }

  /** ef10_tx_qpost: refuses a list that does not fit, else writes it behind what has been added. */
  method TxPost<T>(ring: array<T>, eb: seq<T>, completed: u32, added: u32, ghost trueAdded: nat, ghost trueCompleted: nat)
    returns (ok: bool, added': u32)
    requires RingSize(ring.Length) && added == Wrap32(trueAdded) && completed == Wrap32(trueCompleted)
    requires trueCompleted <= trueAdded <= trueCompleted + ring.Length - RESERVE
    modifies ring
    ensures ok <==> trueAdded - trueCompleted + |eb| <= ring.Length - RESERVE
    ensures added' == Wrap32(if ok then trueAdded + |eb| else trueAdded)
    ensures ok ==> forall k :: 0 <= k < |eb| ==> ring[Slot(ring.Length, trueAdded + k)] == eb[k]
    ensures ok ==> forall k :: trueAdded + |eb| <= k < trueAdded + ring.Length ==>
      ring[Slot(ring.Length, k)] == old(ring[..])[Slot(ring.Length, k)]
    ensures !ok ==> ring[..] == old(ring[..])
  {
    var size := ring.Length;
    RingFits(size);
    CounterDistance(trueAdded, trueCompleted);
    added' := added;
    if Sub32(added, completed) + |eb| > size - RESERVE {
      return false, added';
    }
    hide Slot;
    var i := 0;
    while i < |eb|
      invariant 0 <= i <= |eb| && added' == Wrap32(trueAdded + i)
      invariant forall k :: 0 <= k < i ==> ring[Slot(size, trueAdded + k)] == eb[k]
      invariant forall k :: trueAdded + i <= k < trueAdded + size ==> ring[Slot(size, k)] == old(ring[..])[Slot(size, k)]
    {
      WrapSlot(trueAdded + i, size);
      SlotIs(size, trueAdded + i);
      SlotsApart(size, trueAdded + i, trueAdded, trueAdded + size);
      var id := added' % size;
      ring[id] := eb[i];
      WrapAdd(trueAdded + i, 1);
      added' := Add32(added', 1);
      i := i + 1;
    }
    return true, added';
  }
}
