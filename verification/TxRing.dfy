/** The transmit queue's completion slots, pools and 32-bit counters as the driver keeps them
    (sfxge_tx.c:758-984, 2345-2385, 2492-2560; sfxge_ev.c:428-451; common/ef10_tx.c:410-466).

    A slot's list of mappings, linked through stm_next, is a sequence; [] stands for NULL. */
module TxRing {
  import opened Words
  import opened TxSizes
  import Events
  import RingSlots
  import TxUnblock
  import opened Chains
  import opened TxRings

  function ReapAll(r: Ring): Ring
    requires SlotsOk(r.s) && r.reaped <= r.completed
    decreases r.completed - r.reaped
  {
    if r.reaped == r.completed then r else ReapAll(ReapOne(r))
  }

  function CompleteAll(r: Ring): Ring
    requires SlotsOk(r.s) && r.scan <= r.pending
    decreases r.pending - r.scan
  {
    if r.scan == r.pending then r.(completed := r.scan) else CompleteAll(CompleteOne(r))
  }

  lemma {:induction false} ReapAllKeeps(r: Ring)
    requires Ok(r)
    ensures var r' := ReapAll(r);
      && Ok(r') && Conserved(r, r')
      && r'.reaped == r.completed == r'.completed && r'.added == r.added && r'.pending == r.pending && r'.scan == r.scan
      && r'.n == r.n && r'.open == r.open && r'.s.mp == r.s.mp && r'.freed == r.freed && r'.bound == r.bound
    decreases r.completed - r.reaped
  {
    if r.reaped < r.completed {
      ReapKeeps(r);
      assert r.s.mp[Slot(r.reaped) := r.s.mp[Slot(r.reaped)]] == r.s.mp;
      hide Ok, Mappings, Buffers, Messages;
      OkCounters(ReapOne(r));
      ReapAllKeeps(ReapOne(r));
    }
  }

  lemma OkCounters(r: Ring)
    ensures Ok(r) ==> SlotsOk(r.s) && Counters(r)
  {
  }

  lemma {:induction false} CompleteAllKeeps(r: Ring)
    requires Ok(r)
    ensures var r' := CompleteAll(r);
      && Ok(r') && Conserved(r, r')
      && r'.completed == r'.scan == r'.pending == r.pending && r'.added == r.added && r'.reaped == r.reaped
      && r'.n == r.n && r'.open == r.open
    decreases r.pending - r.scan
  {
    if r.scan == r.pending {
      StoreKeeps(r);
    } else {
      CompleteKeeps(r);
      hide Ok, Mappings, Buffers, Messages;
      OkCounters(CompleteOne(r));
      CompleteAllKeeps(CompleteOne(r));
    }
  }

  lemma OneBefore(x: nat)
    requires x >= 1
    ensures Sub32(Wrap32(x), 1) == Wrap32(x - 1)
  {
    WrapAdd(x, -1);
  }

  lemma MaskIsSlot(x: nat)
    ensures Wrap32(x) % NDESCS == Slot(x)
  {
    WrapSlot(x, NDESCS);
  }

  lemma SlotsAgree()
    ensures forall k: nat :: Slot(k) == RingSlots.Slot(NDESCS, k)
  {
  }

  /** sfxge_tx_qreap leaves a parked packet where it is. */
  lemma {:induction false} ReapLeavesParked(r: Ring)
    requires Ok(r) && Parked(r)
    ensures Parked(ReapAll(r))
    decreases r.completed - r.reaped
  {
    if r.reaped < r.completed {
      SlotsDiffer(r.reaped, r.added, NDESCS);
      ReapKeeps(r);
      assert Parked(ReapOne(r));
      hide Ok, Parked, ReapOne;
      ReapLeavesParked(ReapOne(r));
    }
  }

  /** The queue as TxUnblock sees it while a sender is in sfxge_tx_qlist_post. */
  function Protocol(r: Ring, unblock: int, pc: TxUnblock.PostPc): TxUnblock.State {
    TxUnblock.State(r.added, r.pending, r.completed, r.reaped, r.n, unblock, TxUnblock.Sender, pc, TxUnblock.Idle, true)
  }

  /** What a round from the label again comes to in the protocol. */
  lemma RoundInProtocol(r: Ring)
    requires Ok(r) && Parked(r)
    ensures var s := Protocol(r, NOT_BLOCKED, TxUnblock.Post);
      TxUnblock.Settled(s) ==
        if r.added - r.reaped + r.n <= LIMIT then s.(added := r.added + r.n, n := 0, post := TxUnblock.Outside)
        else if (r.added - r.completed + r.n <= LIMIT && r.completed - r.reaped >= BATCH) || r.pending == r.added
        then s.(reaped := r.completed)
        else s.(unblock := LEVEL1, post := TxUnblock.Outside)
  {
    OkCounters(r);
    TxUnblock.SettledMeaning(Protocol(r, NOT_BLOCKED, TxUnblock.Post));
  }

  class TxQueue {
    const stm: array<seq<Id>>
    const stb: array<seq<Id>>
    const mp: array<seq<Id>>
    const ring: array<nat>            // esm: the descriptors the hardware reads
    var fmp: seq<Id>
    var fbp: seq<Id>
    var bound: set<Id>
    var freed: seq<Id>
    var n: nat
    var added: u32
    var pending: u32
    var completed: u32
    var reaped: u32
    var unblock: int
    ghost var trueAdded: nat
    ghost var truePending: nat
    ghost var trueCompleted: nat
    ghost var trueReaped: nat
    ghost var open: bool

    ghost function Now(): Ring
      reads this, stm, stb, mp
    {
      Ring(Slots(stm[..], stb[..], mp[..]), fmp, fbp, bound, freed, n,
           trueAdded, truePending, trueCompleted, trueCompleted, trueReaped, open)
    }

    ghost predicate Wrapped()
      reads this
    {
      && added == Wrap32(trueAdded) && pending == Wrap32(truePending)
      && completed == Wrap32(trueCompleted) && reaped == Wrap32(trueReaped)
    }

    ghost predicate Shape()
      reads this, stm, stb, mp
    {
      stm != stb && stb != mp && stm != mp && SlotsOk(Now().s) && Wrapped() && ring.Length == NDESCS
    }

    ghost predicate Valid()
      reads this, stm, stb, mp
    {
      Shape() && Ok(Now())
    }

    static lemma ShapeIs(q: TxQueue)
      ensures q.Shape() <==>
        && q.stm != q.stb && q.stb != q.mp && q.stm != q.mp
        && q.stm.Length == q.stb.Length == q.mp.Length == q.ring.Length == NDESCS
        && q.added == Wrap32(q.trueAdded) && q.pending == Wrap32(q.truePending)
        && q.completed == Wrap32(q.trueCompleted) && q.reaped == Wrap32(q.trueReaped)
    {
    }

    static lemma ValidIs(q: TxQueue)
      ensures q.Valid() <==> q.Shape() && Ok(q.Now())
      ensures q.Now() == Ring(Slots(q.stm[..], q.stb[..], q.mp[..]), q.fmp, q.fbp, q.bound, q.freed, q.n,
                              q.trueAdded, q.truePending, q.trueCompleted, q.trueCompleted, q.trueReaped, q.open)
    {
      hide Ok;
    }

    /** The levels that the 32-bit counters show are the true ones. */
    static lemma Levels(q: TxQueue)
      requires q.Shape() && Counters(q.Now())
      ensures SlotsOk(q.Now().s)
      ensures var r := q.Now();
        && (q.n <= Sub32(LIMIT, Sub32(q.added, q.completed)) <==> r.added - r.completed + r.n <= LIMIT)
        && (q.n <= Sub32(LIMIT, Sub32(q.added, q.reaped)) <==> r.added - r.reaped + r.n <= LIMIT)
        && Sub32(q.completed, q.reaped) == r.completed - r.reaped && (q.pending == q.added <==> r.pending == r.added)
    {
      SameCounter(q.trueAdded, q.trueCompleted);
      SameCounter(q.trueAdded, q.trueReaped);
      SameCounter(q.trueCompleted, q.trueReaped);
      SameCounter(q.trueAdded, q.truePending);
      SmallDifference(LIMIT, q.trueAdded - q.trueCompleted);
      SmallDifference(LIMIT, q.trueAdded - q.trueReaped);
      hide Wrap32, Sub32;
    }

    static lemma SmallDifference(x: nat, y: nat)
      requires y <= x < WORD32
      ensures Sub32(x, y) == x - y
    {
    }

    /** A queue as sfxge_tx_qinit and sfxge_tx_qstart leave it; on this hardware the first index is 1. */
    constructor (index: u32)
      ensures Valid() && Now() == Start(index) && unblock == NOT_BLOCKED && fresh(stm) && fresh(stb) && fresh(mp) && fresh(ring)
    {
      stm := new seq<Id>[NDESCS](_ => []);
      stb := new seq<Id>[NDESCS](_ => []);
      mp := new seq<Id>[NDESCS](_ => []);
      ring := new nat[NDESCS](_ => 0);
      fmp, fbp, bound, freed, n := [], [], {}, [], 0;
      added, pending, completed, reaped, unblock := index, index, index, index, NOT_BLOCKED;
      trueAdded, truePending, trueCompleted, trueReaped, open := index, index, index, index, false;
      new;
      StartIsOk(index);
      assert Now() == Start(index);
    }

    /** Returning a chain to a pool, one by one to the front. */
    method PutChain(pool: seq<Id>, chain: seq<Id>) returns (r: seq<Id>)
      ensures r == PutBack(pool, chain)
    {
      r := pool;
      var rest := chain;
      while rest != []
        invariant PutBack(r, rest) == PutBack(pool, chain)
        decreases |rest|
      {
        r, rest := [rest[0]] + r, rest[1..];
      }
    }

    /** The mappings and buffers of a slot go back to their pools. */
    method ReturnChains(id: nat)
      requires stm != stb && stb != mp && stm != mp && id < stm.Length == stb.Length
      modifies this`fmp, this`fbp, stm, stb
      ensures stm[..] == old(stm[..])[id := []] && stb[..] == old(stb[..])[id := []]
      ensures fmp == PutBack(old(fmp), old(stm[id])) && fbp == PutBack(old(fbp), old(stb[id]))
    {
      hide PutBack;
      var chain := stm[id];
      stm[id] := [];
      fmp := PutChain(fmp, chain);
      chain := stb[id];
      stb[id] := [];
      fbp := PutChain(fbp, chain);
      assert stm[..] == old(stm[..])[id := []] && stb[..] == old(stb[..])[id := []];
    }

    /** One round of sfxge_tx_qreap.  The driver stores st_reaped after the last round; nobody else reads it. */
    method ReapSlot()
      requires Shape() && trueReaped < trueCompleted
      modifies this`fmp, this`fbp, this`reaped, this`trueReaped, stm, stb
      ensures Shape() && Now() == ReapOne(old(Now()))
    {
      MaskIsSlot(trueReaped);
      WrapAdd(trueReaped, 1);
      hide Slot, PutBack, Wrap32;
      ghost var was := Now();
      var id := reaped % NDESCS;
      ReturnChains(id);
      reaped, trueReaped := Add32(reaped, 1), trueReaped + 1;
      assert was.s.mp[id := was.s.mp[id]] == was.s.mp;
    }

    /** sfxge_tx_qreap */
    method Reap()
      requires Shape() && Counters(Now())
      modifies this`fmp, this`fbp, this`reaped, this`trueReaped, stm, stb
      ensures Shape() && Now() == ReapAll(old(Now()))
    {
      hide ReapOne, ReapAll, Slot, PutBack, Wrap32;
      SameCounter(trueCompleted, trueReaped);
      while reaped != completed
        invariant Shape() && Counters(Now()) && ReapAll(Now()) == ReapAll(old(Now()))
        decreases trueCompleted - trueReaped
      {
        ghost var was := Now();
        ReapSlot();
        ReapUnfolds(was);
        SameCounter(trueCompleted, trueReaped);
      }
      SameCounter(trueCompleted, trueReaped);
      ReapEnds(Now());
    }

    /** sfxge_tx_msgb_unbind on every mapping of a chain. */
    method UnbindChain(chain: seq<Id>)
      modifies this`bound
      ensures bound == old(bound) - AsSet(chain)
    {
      var rest := chain;
      while rest != []
        invariant |rest| <= |chain| && rest == chain[|chain| - |rest|..]
        invariant bound == old(bound) - AsSet(chain[..|chain| - |rest|])
        decreases |rest|
      {
        var k := |chain| - |rest|;
        assert chain[..k + 1] == chain[..k] + [rest[0]];
        bound := bound - {rest[0]};
        rest := rest[1..];
      }
      assert chain[..|chain|] == chain;
    }

    /** sfxge_tx_qlist_abort; mappings that are not bound are not unbound. */
    method Abort()
      requires Shape()
      modifies this`fmp, this`fbp, this`bound, this`freed, this`n, this`open, stm, stb, mp
      ensures Shape() && Now() == Aborted(old(Now()))
    {
      hide Slot, PutBack, Wrap32, AsSet, Shape, SlotsOk;
      ShapeIs(this);
      MaskIsSlot(trueAdded);
      var id := added % NDESCS;
      UnbindChain(stm[id]);
      ReturnChains(id);
      var m := mp[id];
      mp[id] := [];
      assert mp[..] == old(mp[..])[id := []];
      freed := freed + m;
      n := 0;
      open := false;
      ShapeIs(this);
    }

    /** One round of sfxge_tx_qcomplete. */
    method CompleteSlot(c: u32, ghost scan: nat)
      requires Shape() && c == Wrap32(scan)
      modifies this`bound, this`freed, mp
      ensures Shape()
      ensures var r := old(Now()).(scan := scan);
        scan < r.pending ==> Now().(scan := scan + 1) == CompleteOne(r)
    {
      hide Slot, Wrap32, AsSet;
      MaskIsSlot(scan);
      ghost var was := Now();
      var id := c % NDESCS;
      if stm[id] != [] {
        UnbindChain(stm[id]);
        var m := mp[id];
        mp[id] := [];
        assert mp[..] == was.s.mp[id := []];
        freed := freed + m;
        assert was.s.stm[id := was.s.stm[id]] == was.s.stm && was.s.stb[id := was.s.stb[id]] == was.s.stb;
      }
    }

    /** The loop of sfxge_tx_qcomplete; the check for a blocked queue that follows it is in TxUnblock. */
    method Complete()
      requires Shape() && Counters(Now())
      modifies this`bound, this`freed, this`completed, this`trueCompleted, mp
      ensures Shape() && Now() == CompleteAll(old(Now()))
    {
      hide CompleteOne, CompleteAll, Slot, AsSet, Wrap32;
      var c := completed;
      ghost var scan := trueCompleted;
      SameCounter(truePending, scan);
      while c != pending
        invariant Shape() && c == Wrap32(scan) && trueCompleted <= scan <= truePending
        invariant c == pending <==> scan == truePending
        invariant trueCompleted == old(trueCompleted) && truePending == old(truePending)
        invariant CompleteAll(Now().(scan := scan)) == CompleteAll(old(Now()))
        decreases truePending - scan
      {
        CompleteUnfolds(Now().(scan := scan));
        WrapAdd(scan, 1);
        CompleteSlot(c, scan);
        c, scan := Add32(c, 1), scan + 1;
        SameCounter(truePending, scan);
      }
      CompleteEnds(Now().(scan := scan));
      completed, trueCompleted := c, scan;
    }

    /** The counter part of sfxge_ev_tx: the event names the last of d more descriptors that are done. */
    method EventTx(id: u16, ghost d: nat)
      requires Valid() && truePending + d <= trueAdded && id < NDESCS && (id + 1) % NDESCS == Slot(truePending + d)
      modifies this`pending, this`truePending
      ensures Valid() && Now() == Next(old(Now()), Hardware(d))
    {
      hide Ok, Slot;
      OkCounters(Now());
      var stop := (id + 1) % NDESCS;
      MaskIsSlot(truePending);
      var at := pending % NDESCS;
      var delta := if stop >= at then stop - at else NDESCS - at + stop;
      DeltaIsCount(truePending, d);
      WrapAdd(truePending, delta);
      HardwareKeeps(Now(), d);
      pending, truePending := Add32(pending, delta), truePending + d;
    }

    /** The descriptors eb are in the ring from position from on, and the other slots are as they were. */
    ghost predicate Sent(from: nat, eb: seq<nat>, was: seq<nat>)
      requires |was| == ring.Length == NDESCS
      reads ring
    {
      && (forall k :: 0 <= k < |eb| ==> ring[Slot(from + k)] == eb[k])
      && (forall k :: from + |eb| <= k < from + NDESCS ==> ring[Slot(k)] == was[Slot(k)])
    }

    /** Moving the completion information to the slot of the packet's last descriptor. */
    method MoveToLast(id: nat)
      requires stm != stb && stb != mp && stm != mp && SlotsOk(Now().s) && id < NDESCS
      modifies stm, stb, mp
      ensures Now().s == Moved(old(Now()).s, id, Sub32(added, 1) % NDESCS)
    {
      var last := Sub32(added, 1) % NDESCS;
      if last != id {
        var chain := stm[id];
        stm[id] := [];
        stm[last] := chain;
        chain := stb[id];
        stb[id] := [];
        stb[last] := chain;
        chain := mp[id];
        mp[id] := [];
        mp[last] := chain;
      }
    }

    /** The part of sfxge_tx_qlist_post that follows a successful space check: the descriptors eb go into the
        ring behind those added, and the completion information to the slot of the last of them. */
    method PostList(eb: seq<nat>)
      requires Shape() && Counters(Now()) && |eb| == n > 0 && trueAdded - trueReaped + n <= LIMIT
      modifies this`added, this`trueAdded, this`n, this`open, stm, stb, mp, ring
      ensures Shape() && n == 0 && Now() == Posted(old(Now())) && Sent(old(trueAdded), eb, old(ring[..]))
    {
      hide Moved, Slot, Wrap32, Sub32, SlotsOk, RingSlots.Slot, Shape, Wrapped;
      ghost var from := trueAdded;
      ShapeIs(this);
      Levels(this);
      MaskIsSlot(trueAdded);
      MaskIsSlot(trueAdded + n - 1);
      OneBefore(trueAdded + n);
      var id := added % NDESCS;
      SlotsAgree();
      var ok;
      ok, added := Events.TxPost(ring, eb, reaped, added, trueAdded, trueReaped);
      MoveToLast(id);
      trueAdded, n, open := trueAdded + n, 0, false;
      ShapeIs(this);
    }

    /** The part of sfxge_tx_qlist_post for a list that does not fit: reap and try again, or block.  A
        round that ends in again with room still missing waits for the event thread to store st_completed. */
    method NoRoom() returns (again: bool)
      requires Valid() && Parked(Now()) && unblock == NOT_BLOCKED
      modifies this, stm, stb, mp
      ensures Valid()
      ensures var r := old(Now());
        again <==> (r.added - r.completed + r.n <= LIMIT && r.completed - r.reaped >= BATCH) || r.pending == r.added
      ensures again ==> Now() == ReapAll(old(Now())) && Parked(Now()) && unblock == NOT_BLOCKED
      ensures !again ==> Now() == old(Now()) && unblock == LEVEL1
    {
      hide Ok, ReapAll, Conserved, Live, Slot, Mappings, Buffers, Messages, Shape, Wrapped, Valid, Counters, Parked, Wrap32,
           Sub32, Now;
      ghost var was := Now();
      ValidIs(this);
      OkCounters(was);
      Levels(this);
      ReapAllKeeps(was);
      ReapLeavesParked(was);
      var level := Sub32(added, completed);
      var available := Sub32(LIMIT, level);
      if n <= available && Sub32(completed, reaped) >= BATCH {
        Reap();
        ValidIs(this);
        return true;
      }
      ShapeIs(this);
      unblock := if unblock == NOT_BLOCKED then LEVEL1 else LEVEL2;
      ValidIs(this);
      ShapeIs(this);
      if pending == added {
        Reap();
        ValidIs(this);
        ShapeIs(this);
        unblock := NOT_BLOCKED;
        ValidIs(this);
        ShapeIs(this);
        return true;
      }
      return false;
    }

    /** sfxge_tx_qlist_post from the label again to the next goto again, or to the end. */
    method PostRound(eb: seq<nat>) returns (again: bool)
      requires Valid() && Parked(Now()) && unblock == NOT_BLOCKED && |eb| == n
      modifies this, stm, stb, mp, ring
      ensures Valid()
      ensures var r := old(Now()); r.added - r.reaped + r.n <= LIMIT ==>
        !again && Now() == Posted(r) && Sent(r.added, eb, old(ring[..]))
      ensures var r := old(Now()); r.added - r.reaped + r.n > LIMIT ==> ring[..] == old(ring[..])
      ensures var r := old(Now()); r.added - r.reaped + r.n > LIMIT ==>
        (again <==> (r.added - r.completed + r.n <= LIMIT && r.completed - r.reaped >= BATCH) || r.pending == r.added)
      ensures again ==> Now() == ReapAll(old(Now())) && Parked(Now())
      ensures unblock == LEVEL1 ==> Now() == old(Now())
      ensures unblock == (if again || n == 0 then NOT_BLOCKED else LEVEL1)
      ensures Protocol(Now(), unblock, if again then TxUnblock.Post else TxUnblock.Outside)
        == TxUnblock.Settled(Protocol(old(Now()), NOT_BLOCKED, TxUnblock.Post))
    {
      hide Ok, Posted, ReapAll, Live, Slot, Mappings, Buffers, Messages, TxUnblock.Settled, Sub32, Wrap32;
      ghost var was := Now();
      OkCounters(was);
      Levels(this);
      RoundInProtocol(was);
      ReapAllKeeps(was);
      PostedCounters(was);
      var level := Sub32(added, reaped);
      var available := Sub32(LIMIT, level);
      if available < n {
        again := NoRoom();
      } else {
        PostKeeps(was);
        PostList(eb);
        again := false;
      }
    }

    /** The parked packet is dropped, and everything posted counts as done. */
    method Drain()
      requires Valid()
      modifies this, stm, stb, mp
      ensures SlotsOk(Ended(old(Now())).s) && Counters(Ended(old(Now())))
      ensures var c := CompleteAll(Ended(old(Now()))); SlotsOk(c.s) && Counters(c) && Now() == ReapAll(c)
      ensures Shape() && unblock == NOT_BLOCKED
    {
      hide Ok, ReapAll, CompleteAll, Mappings, Buffers, Messages, Aborted, Slot;
      OkCounters(Now());
      StopFacts(Now());
      Abort();
      unblock := NOT_BLOCKED;
      pending, truePending := added, trueAdded;
      Complete();
      Reap();
    }

    /** The ring part of sfxge_tx_qstop: everything goes back to its pool, every message is freed, and the
        queue can be started again. */
    method Stop()
      requires Valid()
      modifies this, stm, stb, mp
      ensures Valid() && n == 0 && unblock == NOT_BLOCKED && added == pending == completed == reaped == 0
      ensures multiset(fmp) == old(Mappings(Now())) && multiset(fbp) == old(Buffers(Now()))
      ensures multiset(freed) == old(Messages(Now()))
    {
      hide Ok, ReapAll, CompleteAll, Mappings, Buffers, Messages, Ended, Counters, SlotsOk, Aborted, Shape, Wrapped, Valid, Now,
           Wrap32;
      ValidIs(this);
      StopFacts(Now());
      Drain();
      ghost var d := Now();
      ValidIs(this);
      ShapeIs(this);
      WrapNothing();
      added, pending, completed, reaped := 0, 0, 0, 0;
      trueAdded, truePending, trueCompleted, trueReaped := 0, 0, 0, 0;
      ValidIs(this);
      ShapeIs(this);
      assert Now() == d.(added := 0, pending := 0, scan := 0, completed := 0, reaped := 0);
    }
  }

  /** The ring once the parked packet is dropped and everything else counts as done. */
  function Ended(r: Ring): Ring
    requires SlotsOk(r.s)
  {
    var a := Aborted(r);
    a.(pending := a.added)
  }

  lemma StopFacts(r: Ring)
    requires Ok(r)
    ensures var e := Ended(r);
      && SlotsOk(e.s) && Counters(e) && e.n == 0 && !e.open
      && e == Aborted(r).(pending := r.added) && Aborted(r).added == r.added
      && SlotsOk(Aborted(r).s) && Counters(Aborted(r))
      && var c := CompleteAll(e);
        && SlotsOk(c.s) && Counters(c) && c.added == r.added && c.n == 0 && !c.open
        && var d := ReapAll(c);
          && d.n == 0 && !d.open && d.added == r.added
          && Ok(d.(added := 0, pending := 0, scan := 0, completed := 0, reaped := 0))
          && multiset(d.fmp) == Mappings(r) && multiset(d.fbp) == Buffers(r) && multiset(d.freed) == Messages(r)
  {
    hide Ok, ReapAll, CompleteAll, Mappings, Buffers, Messages, Aborted, Slot;
    OkCounters(r);
    AbortKeeps(r);
    AbortLeaves(r);
    var a := Aborted(r);
    OkCounters(a);
    HardwareKeeps(a, a.added - a.pending);
    var e := a.(pending := a.added);
    SameHoldings(a, e);
    OkCounters(e);
    CompleteAllKeeps(e);
    var c := CompleteAll(e);
    OkCounters(c);
    ReapAllKeeps(c);
    DrainedIsEmpty(ReapAll(c));
    DrainedRestarts(ReapAll(c), 0);
  }

  lemma AbortLeaves(r: Ring)
    requires SlotsOk(r.s)
    ensures var a := Aborted(r);
      && a.added == r.added && a.pending == r.pending && a.scan == r.scan && a.completed == r.completed && a.reaped == r.reaped
      && !a.open && a.n == 0
  {
  }

  lemma PostedCounters(r: Ring)
    requires SlotsOk(r.s) && r.n > 0
    ensures var p := Posted(r);
      && p.added == r.added + r.n && p.n == 0 && !p.open
      && p.reaped == r.reaped && p.completed == r.completed && p.pending == r.pending
  {
  }

  lemma ReapUnfolds(r: Ring)
    requires SlotsOk(r.s) && r.reaped < r.completed
    ensures SlotsOk(ReapOne(r).s) && ReapOne(r).completed == r.completed && ReapOne(r).reaped == r.reaped + 1
    ensures Counters(r) ==> Counters(ReapOne(r))
    ensures ReapAll(r) == ReapAll(ReapOne(r))
  {
  }

  lemma ReapEnds(r: Ring)
    requires SlotsOk(r.s)
    ensures r.reaped == r.completed ==> ReapAll(r) == r
  {
  }

  lemma CompleteEnds(r: Ring)
    requires SlotsOk(r.s)
    ensures r.scan == r.pending ==> CompleteAll(r) == r.(completed := r.scan)
  {
  }

  lemma CompleteUnfolds(r: Ring)
    requires SlotsOk(r.s) && r.scan < r.pending
    ensures SlotsOk(CompleteOne(r).s) && CompleteAll(r) == CompleteAll(CompleteOne(r))
    ensures CompleteOne(r).scan == r.scan + 1
  {
  }

  /** The distance from a counter's slot round the ring to the stop index is the true count. */
  lemma DeltaIsCount(x: nat, d: nat)
    requires d < NDESCS
    ensures var stop, at := Slot(x + d), Slot(x);
      d == if stop >= at then stop - at else NDESCS - at + stop
  {
    RingSlots.DeltaIsCount(NDESCS, x, d);
  }
}
