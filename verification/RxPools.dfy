/** Receive packets and where they can be: in a ring slot, on the get list, on one of the put lists, or
    out with the network stack (sfxge_rx.c:354-446, 553-594, 754-950, 1707-1846, 2064-2077).

    Counters are unbounded here; RxPool keeps their 32-bit values. */
module RxPools {
  import opened Words
  import opened RingSlots
  import opened Chains

  const NPUT := 8                     // SFXGE_RX_FPP_NSLOTS

  /** loaned is srfpp_loaned as a true number.  extra counts packets that were put on a put list without
      a loan (preallocation), lost those that were destroyed while on loan. */
  datatype Pool = Pool(slots: seq<seq<Id>>, get: seq<Id>, put: seq<seq<Id>>, out: multiset<Id>,
                       loaned: int, added: nat, pending: nat, completed: nat, extra: nat, lost: nat)

  predicate Shape(p: Pool) {
    |p.slots| > RESERVE && |p.put| == NPUT
  }

  function All(p: Pool): multiset<Id> {
    Held(p.slots) + multiset(p.get) + Held(p.put) + p.out
  }

  /** The ring: at most size - 16 descriptors, and a slot holds a packet exactly for those. */
  ghost predicate RingOk(p: Pool) {
    && Shape(p) && p.completed <= p.pending <= p.added <= p.completed + |p.slots| - RESERVE
    && (forall k :: p.completed <= k < p.added ==> |p.slots[Slot(|p.slots|, k)]| == 1)
    && (forall k :: p.added <= k < p.completed + |p.slots| ==> p.slots[Slot(|p.slots|, k)] == [])
  }

  /** What is on loan, but for packets that got onto the put lists unaccounted or were destroyed. */
  predicate LoansOk(p: Pool) {
    p.loaned == |p.out| + |Held(p.put)| - p.extra + p.lost
  }

  ghost predicate Ok(p: Pool) {
    RingOk(p) && LoansOk(p) && Unique(All(p))
  }

  // ---------------------------------------------------------------- steps

  /** sfxge_rx_qfpp_put on the list of a CPU. */
  function Put(p: Pool, cpu: nat, x: Id): Pool
    requires Shape(p) && cpu < NPUT
  {
    p.(put := p.put[cpu := p.put[cpu] + [x]])
  }

  /** sfxge_rx_qpacket_free of a packet that is out: back to a put list, or destroyed when no new block
      can be had for it. */
  function Freed(p: Pool, cpu: nat, x: Id, ok: bool): Pool
    requires Shape(p) && cpu < NPUT && x in p.out
  {
    var q := p.(out := p.out - multiset{x});
    if ok then Put(q, cpu, x) else q.(lost := q.lost + 1)
  }

  /** sfxge_rx_qfpp_swizzle of one put list. */
  function Swizzled(p: Pool, id: nat): Pool
    requires Shape(p) && id < NPUT
  {
    p.(get := p.put[id] + p.get, loaned := p.loaned - |p.put[id]|, put := p.put[id := []])
  }

  /** A packet goes into the next ring slot. */
  function Posted(p: Pool, x: Id): Pool
    requires Shape(p)
  {
    p.(slots := p.slots[Slot(|p.slots|, p.added) := [x]], added := p.added + 1)
  }

  /** The first packet of the get list goes into the ring, or is destroyed because its size is stale. */
  function Refilled(p: Pool): Pool
    requires Shape(p) && p.get != []
  {
    Posted(p.(get := p.get[1..]), p.get[0])
  }

  function Dropped(p: Pool): Pool
    requires p.get != []
  {
    p.(get := p.get[1..])
  }

  /** sfxge_rx_qpreallocate puts a new packet on a put list. */
  function Preallocated(p: Pool, cpu: nat, x: Id): Pool
    requires Shape(p) && cpu < NPUT
  {
    Put(p, cpu, x).(extra := p.extra + 1)
  }

  /** One round of sfxge_rx_qcomplete: the packet leaves its slot and counts as loaned. */
  function Completed(p: Pool): Pool
    requires Shape(p) && p.completed < p.pending && |p.slots[Slot(|p.slots|, p.completed)]| == 1
  {
    var i := Slot(|p.slots|, p.completed);
    p.(slots := p.slots[i := []], out := p.out + multiset{p.slots[i][0]}, loaned := p.loaned + 1,
       completed := p.completed + 1)
  }

  /** sfxge_rx_qstop, once everything in the ring has been discarded. */
  function Restarted(p: Pool): Pool {
    p.(added := 0, pending := 0, completed := 0)
  }

  datatype Step =
    | Free(cpu: nat, x: Id, ok: bool) | Swizzle(id: nat) | Refill | Drop | Fill(x: Id)
    | Prealloc(cpu: nat, x: Id) | Hardware(d: nat) | Complete | Restart

  predicate HasRoom(p: Pool) {
    p.added - p.completed < |p.slots| - RESERVE
  }

  predicate Enabled(p: Pool, s: Step) {
    && Shape(p)
    && match s
       case Free(cpu, x, ok) => cpu < NPUT && x in p.out
       case Swizzle(id) => id < NPUT
       case Refill => p.get != [] && HasRoom(p)
       case Drop => p.get != []
       case Fill(x) => HasRoom(p) && x !in All(p)
       case Prealloc(cpu, x) => cpu < NPUT && x !in All(p)
       case Hardware(d) => p.pending + d <= p.added
       case Complete => p.completed < p.pending && |p.slots[Slot(|p.slots|, p.completed)]| == 1
       case Restart => p.completed == p.added
  }

  function Next(p: Pool, s: Step): Pool
    requires Enabled(p, s)
  {
    match s
    case Free(cpu, x, ok) => Freed(p, cpu, x, ok)
    case Swizzle(id) => Swizzled(p, id)
    case Refill => Refilled(p)
    case Drop => Dropped(p)
    case Fill(x) => Posted(p, x)
    case Prealloc(cpu, x) => Preallocated(p, cpu, x)
    case Hardware(d) => p.(pending := p.pending + d)
    case Complete => Completed(p)
    case Restart => Restarted(p)
  }

  /** Packets created and destroyed by a step. */
  function Created(s: Step): multiset<Id> {
    if s.Fill? || s.Prealloc? then multiset{s.x} else multiset{}
  }

  function Destroyed(p: Pool, s: Step): multiset<Id>
    requires Enabled(p, s)
  {
    if s.Free? && !s.ok then multiset{s.x} else if s.Drop? then multiset{p.get[0]} else multiset{}
  }

  // ---------------------------------------------------------------- what the steps keep

  lemma PutHolds(p: Pool, cpu: nat, x: Id)
    requires Shape(p) && cpu < NPUT
    ensures Held(Put(p, cpu, x).put) == Held(p.put) + multiset{x}
  {
    HeldUpdate(p.put, cpu, p.put[cpu] + [x]);
    var a, b, c := Held(Put(p, cpu, x).put), Held(p.put), multiset(p.put[cpu]);
    assert multiset(p.put[cpu] + [x]) == c + multiset{x};
    assert a + c == (b + multiset{x}) + c;
    Cancel(a, b + multiset{x}, c);
  }

  /** Steps that leave the ring alone. */
  lemma SameRing(p: Pool, q: Pool)
    requires RingOk(p) && Shape(q) && q.slots == p.slots && q.completed == p.completed && q.added == p.added
    requires p.completed <= q.pending <= p.added
    ensures RingOk(q)
  {
    hide Slot;
  }

  lemma FreeKeeps(p: Pool, cpu: nat, x: Id, ok: bool)
    requires Ok(p) && cpu < NPUT && x in p.out
    ensures var q := Freed(p, cpu, x, ok);
      Ok(q) && All(q) + (if ok then multiset{} else multiset{x}) == All(p)
  {
    hide RingOk, Slot, Held;
    ShapeOf(p);
    var q := Freed(p, cpu, x, ok);
    SameRing(p, q);
    var r := p.(out := p.out - multiset{x});
    assert p.out == r.out + multiset{x};
    var s, g, h := Held(p.slots), multiset(p.get), Held(p.put);
    if ok {
      PutHolds(r, cpu, x);
      assert s + g + (h + multiset{x}) + r.out == s + g + h + (r.out + multiset{x});
    } else {
      assert (s + g + h + r.out) + multiset{x} == s + g + h + (r.out + multiset{x});
      FewerIsUnique(All(q), x);
    }
  }

  lemma ShapeOf(p: Pool)
    ensures RingOk(p) ==> Shape(p) && p.completed <= p.pending <= p.added <= p.completed + |p.slots| - RESERVE
  {
  }

  lemma FewerIsUnique(m: multiset<Id>, x: Id)
    requires Unique(m + multiset{x})
    ensures Unique(m)
  {
    forall y | y in m
      ensures m[y] == 1
    {
      assert y in m + multiset{x} && (m + multiset{x})[y] == 1;
    }
  }

  lemma SwizzleKeeps(p: Pool, id: nat)
    requires Ok(p) && id < NPUT
    ensures Ok(Swizzled(p, id)) && All(Swizzled(p, id)) == All(p)
  {
    hide RingOk, Slot, Held;
    ShapeOf(p);
    SameRing(p, Swizzled(p, id));
    HeldClear(p.put, id);
    var s, g, h, c := Held(p.slots), multiset(p.get), Held(p.put[id := []]), multiset(p.put[id]);
    assert multiset(p.put[id] + p.get) == c + g;
    assert s + (c + g) + h + p.out == s + g + (h + c) + p.out;
    assert |h + c| == |h| + |c|;
  }

  lemma PostKeeps(p: Pool, x: Id)
    requires RingOk(p) && HasRoom(p)
    ensures RingOk(Posted(p, x)) && Held(Posted(p, x).slots) == Held(p.slots) + multiset{x}
    ensures p.slots[Slot(|p.slots|, p.added)] == []
  {
    hide Slot, Held;
    var i := Slot(|p.slots|, p.added);
    SlotsApart(|p.slots|, p.added, p.completed, p.completed + |p.slots|);
    HeldUpdate(p.slots, i, [x]);
    var nothing: seq<Id> := [];
    assert multiset(nothing) == multiset{} && multiset([x]) == multiset{x};
  }

  lemma CompleteRing(p: Pool)
    requires RingOk(p) && p.completed < p.pending
    ensures |p.slots[Slot(|p.slots|, p.completed)]| == 1 && RingOk(Completed(p))
  {
    hide Slot;
    SlotsApart(|p.slots|, p.completed, p.completed, p.completed + |p.slots|);
    SlotWraps(|p.slots|, p.completed);
  }

  lemma CompleteKeeps(p: Pool)
    requires Ok(p) && p.completed < p.pending
    ensures |p.slots[Slot(|p.slots|, p.completed)]| == 1
    ensures Ok(Completed(p)) && All(Completed(p)) == All(p)
  {
    hide RingOk, Slot, Held;
    ShapeOf(p);
    CompleteRing(p);
    var i := Slot(|p.slots|, p.completed);
    HeldClear(p.slots, i);
    assert p.slots[i] == [p.slots[i][0]];
    var s, g, h, c := Held(p.slots[i := []]), multiset(p.get), Held(p.put), multiset{p.slots[i][0]};
    assert s + g + h + (p.out + c) == (s + c) + g + h + p.out;
    assert |p.out + c| == |p.out| + 1;
  }

  lemma RefillKeeps(p: Pool)
    requires Ok(p) && p.get != [] && HasRoom(p)
    ensures Ok(Refilled(p)) && All(Refilled(p)) == All(p)
  {
    hide RingOk, Slot, Held;
    ShapeOf(p);
    var q := p.(get := p.get[1..]);
    SameRing(p, q);
    PostKeeps(q, p.get[0]);
    assert p.get == [p.get[0]] + p.get[1..];
    var s, g, c := Held(p.slots), multiset(p.get[1..]), multiset{p.get[0]};
    assert multiset(p.get) == c + g;
    assert (s + c) + g + Held(p.put) + p.out == s + (c + g) + Held(p.put) + p.out;
  }

  lemma DropKeeps(p: Pool)
    requires Ok(p) && p.get != []
    ensures Ok(Dropped(p)) && All(Dropped(p)) + multiset{p.get[0]} == All(p)
  {
    hide RingOk, Slot, Held;
    ShapeOf(p);
    SameRing(p, Dropped(p));
    assert p.get == [p.get[0]] + p.get[1..];
    var s, g, c, h := Held(p.slots), multiset(p.get[1..]), multiset{p.get[0]}, Held(p.put);
    assert multiset(p.get) == c + g;
    assert (s + g + h + p.out) + c == s + (c + g) + h + p.out;
    FewerIsUnique(All(Dropped(p)), p.get[0]);
  }

  lemma FillKeeps(p: Pool, x: Id)
    requires Ok(p) && HasRoom(p) && x !in All(p)
    ensures Ok(Posted(p, x)) && All(Posted(p, x)) == All(p) + multiset{x}
  {
    hide RingOk, Slot, Held;
    ShapeOf(p);
    PostKeeps(p, x);
    var s, g, h := Held(p.slots), multiset(p.get), Held(p.put);
    assert (s + multiset{x}) + g + h + p.out == (s + g + h + p.out) + multiset{x};
    NewIsUnique(All(p), x);
  }

  lemma PreallocKeeps(p: Pool, cpu: nat, x: Id)
    requires Ok(p) && cpu < NPUT && x !in All(p)
    ensures Ok(Preallocated(p, cpu, x)) && All(Preallocated(p, cpu, x)) == All(p) + multiset{x}
  {
    hide RingOk, Slot, Held;
    ShapeOf(p);
    SameRing(p, Preallocated(p, cpu, x));
    PutHolds(p, cpu, x);
    var s, g, h := Held(p.slots), multiset(p.get), Held(p.put);
    assert s + g + (h + multiset{x}) + p.out == (s + g + h + p.out) + multiset{x};
    assert |h + multiset{x}| == |h| + 1;
    NewIsUnique(All(p), x);
  }

  lemma HardwareKeeps(p: Pool, d: nat)
    requires Ok(p) && p.pending + d <= p.added
    ensures var q := p.(pending := p.pending + d); Ok(q) && All(q) == All(p)
  {
    hide RingOk, Slot, Held;
    ShapeOf(p);
    SameRing(p, p.(pending := p.pending + d));
  }

  /** A ring without descriptors has only empty slots, and can start again from zero. */
  lemma EmptyRing(p: Pool)
    requires Ok(p) && p.completed == p.added
    ensures forall i :: 0 <= i < |p.slots| ==> p.slots[i] == []
    ensures Ok(Restarted(p)) && All(Restarted(p)) == All(p)
  {
    forall i | 0 <= i < |p.slots|
      ensures p.slots[i] == []
    {
      EmptySlot(p, i);
    }
  }

  lemma EmptySlot(p: Pool, i: nat)
    requires RingOk(p) && p.completed == p.added && i < |p.slots|
    ensures p.slots[i] == []
  {
    var k := SlotExists(|p.slots|, p.completed, i);
    hide Slot;
    assert p.slots[Slot(|p.slots|, k)] == [];
  }

  /** Every slot belongs to one of any size counters in a row. */
  lemma SlotExists(size: nat, c: nat, i: nat) returns (k: nat)
    requires i < size
    ensures c <= k < c + size && Slot(size, k) == i
  {
    var q, d := (i - c) / size, (i - c) % size;
    k := c + d;
    assert k == i + size * (-q);
    ModMultiple(i, size, -q);
    SmallMod(i, size);
  }

  /** The packets after a step are those before it, with the new ones and without the destroyed ones. */
  ghost predicate Accounted(p: Pool, q: Pool, created: multiset<Id>, destroyed: multiset<Id>) {
    All(q) + destroyed == All(p) + created
  }

  lemma AccountedMeans(p: Pool, q: Pool, created: multiset<Id>, destroyed: multiset<Id>)
    ensures Accounted(p, q, created, destroyed) <==> All(q) + destroyed == All(p) + created
  {
  }

  /** Every step keeps the pool in order: no packet is lost or in two places, the ring's slots are filled
      exactly for its descriptors, and the loan count is right but for extra and lost packets. */
  lemma StepKeeps(p: Pool, s: Step)
    requires Ok(p) && Enabled(p, s)
    ensures Ok(Next(p, s)) && Accounted(p, Next(p, s), Created(s), Destroyed(p, s))
  {
    hide All, Freed, Swizzled, Refilled, Dropped, Posted, Preallocated, Completed, Restarted, Slot, Ok, Held, Accounted;
    AccountedMeans(p, Next(p, s), Created(s), Destroyed(p, s));
    match s
    case Free(cpu, x, ok) => FreeKeeps(p, cpu, x, ok);
    case Swizzle(id) => SwizzleKeeps(p, id);
    case Refill => RefillKeeps(p);
    case Drop => DropKeeps(p);
    case Fill(x) => FillKeeps(p, x);
    case Prealloc(cpu, x) => PreallocKeeps(p, cpu, x);
    case Hardware(d) => HardwareKeeps(p, d);
    case Complete => CompleteKeeps(p);
    case Restart => EmptyRing(p);
  }

  // ---------------------------------------------------------------- runs

  /** The pool before anything has happened: no packets, and all counters zero. */
  function Start(size: nat): Pool {
    Pool(seq(size, _ => []), [], seq(NPUT, _ => []), multiset{}, 0, 0, 0, 0, 0, 0)
  }

  lemma StartIsOk(size: nat)
    requires RESERVE < size
    ensures Ok(Start(size)) && All(Start(size)) == multiset{}
  {
    HeldNone(Start(size).slots);
    HeldNone(Start(size).put);
    var nothing: seq<Id> := [];
    assert multiset(nothing) == multiset{};
  }

  predicate Runs(p: Pool, steps: seq<Step>)
    decreases |steps|
  {
    steps == [] || (Enabled(p, steps[0]) && Runs(Next(p, steps[0]), steps[1..]))
  }

  function After(p: Pool, steps: seq<Step>): Pool
    requires Runs(p, steps)
    decreases |steps|
  {
    if steps == [] then p else After(Next(p, steps[0]), steps[1..])
  }

  /** Packets created and destroyed in a run. */
  function CreatedIn(steps: seq<Step>): multiset<Id> {
    if steps == [] then multiset{} else Created(steps[0]) + CreatedIn(steps[1..])
  }

  function DestroyedIn(p: Pool, steps: seq<Step>): multiset<Id>
    requires Runs(p, steps)
    decreases |steps|
  {
    if steps == [] then multiset{} else Destroyed(p, steps[0]) + DestroyedIn(Next(p, steps[0]), steps[1..])
  }

  /** How many packets were preallocated in a run, and how many were lost because no block could be had. */
  function Preallocations(steps: seq<Step>): nat {
    if steps == [] then 0 else (if steps[0].Prealloc? then 1 else 0) + Preallocations(steps[1..])
  }

  function Losses(steps: seq<Step>): nat {
    if steps == [] then 0 else (if steps[0].Free? && !steps[0].ok then 1 else 0) + Losses(steps[1..])
  }

  lemma RunUnfolds(p: Pool, steps: seq<Step>)
    requires Runs(p, steps)
    ensures steps == [] ==> After(p, steps) == p && CreatedIn(steps) == DestroyedIn(p, steps) == multiset{}
    ensures steps == [] ==> Preallocations(steps) == Losses(steps) == 0
    ensures steps != [] ==>
      Enabled(p, steps[0]) && var s, rest, q := steps[0], steps[1..], Next(p, steps[0]);
      && Runs(q, rest) && After(p, steps) == After(q, rest)
      && CreatedIn(steps) == Created(s) + CreatedIn(rest) && DestroyedIn(p, steps) == Destroyed(p, s) + DestroyedIn(q, rest)
      && q.extra + Preallocations(rest) == p.extra + Preallocations(steps)
      && q.lost + Losses(rest) == p.lost + Losses(steps)
  {
  }

  /** Every run keeps the pool in order: the packets left are those there were and those created, without
      those destroyed, and the two corrections of the loan count are what happened in the run. */
  lemma {:induction false} RunKeeps(p: Pool, steps: seq<Step>)
    requires Ok(p) && Runs(p, steps)
    ensures var q := After(p, steps);
      && Ok(q) && All(q) + DestroyedIn(p, steps) == All(p) + CreatedIn(steps)
      && q.extra == p.extra + Preallocations(steps) && q.lost == p.lost + Losses(steps)
    decreases |steps|
  {
    hide *;
    RunUnfolds(p, steps);
    if steps != [] {
      var s, rest, q := steps[0], steps[1..], Next(p, steps[0]);
      StepKeeps(p, s);
      AccountedMeans(p, q, Created(s), Destroyed(p, s));
      RunKeeps(q, rest);
      var a, b := All(After(q, rest)), DestroyedIn(q, rest);
      assert a + (Destroyed(p, s) + b) == (a + b) + Destroyed(p, s) == (All(q) + Destroyed(p, s)) + CreatedIn(rest);
      assert (All(p) + Created(s)) + CreatedIn(rest) == All(p) + (Created(s) + CreatedIn(rest));
    }
  }

  /** srfpp_loaned after any run from the start, and when it has its documented meaning, the number of
      packets out with the stack or on a put list: exactly when as many were preallocated as were lost. */
  lemma LoanedIsDocumented(size: nat, steps: seq<Step>)
    requires RESERVE < size && Runs(Start(size), steps)
    ensures var p := After(Start(size), steps);
      && p.loaned == |p.out| + |Held(p.put)| - Preallocations(steps) + Losses(steps)
      && (p.loaned == |p.out| + |Held(p.put)| <==> Preallocations(steps) == Losses(steps))
  {
    StartIsOk(size);
    RunKeeps(Start(size), steps);
    hide Runs, After, Preallocations, Losses;
  }

  lemma RunOne(p: Pool, s: Step, rest: seq<Step>)
    requires Enabled(p, s) && (rest == [] || Runs(Next(p, s), rest))
    ensures Runs(Next(p, s), rest) && (rest == [] ==> After(Next(p, s), rest) == Next(p, s))
    ensures Runs(p, [s] + rest) && After(p, [s] + rest) == After(Next(p, s), rest)
  {
    assert ([s] + rest)[1..] == rest;
  }

  /** One preallocated packet is enough: it is on a put list, but not on loan. */
  lemma PreallocatedIsNotLoaned(size: nat, cpu: nat, x: Id)
    requires RESERVE < size && cpu < NPUT
    ensures var steps := [Prealloc(cpu, x)];
      Runs(Start(size), steps) && var p := After(Start(size), steps); p.loaned == 0 && |p.out| + |Held(p.put)| == 1
  {
    StartIsOk(size);
    var p := Start(size);
    PreallocKeeps(p, cpu, x);
    RunOne(p, Prealloc(cpu, x), []);
  }

  /** And so is one packet that gets no new block when the stack frees it: it stays on loan for ever. */
  lemma LostStaysLoaned(size: nat, cpu: nat, x: Id)
    requires RESERVE < size && cpu < NPUT
    ensures var steps := [Fill(x)] + ([Hardware(1)] + ([Complete] + ([Free(cpu, x, false)] + [])));
      Runs(Start(size), steps) && var p := After(Start(size), steps); p.loaned == 1 && |p.out| + |Held(p.put)| == 0
  {
    StartIsOk(size);
    var p0 := Start(size);
    var p1 := Next(p0, Fill(x));
    var p2 := Next(p1, Hardware(1));
    assert Slot(size, 0) == 0;
    var p3 := Next(p2, Complete);
    var p4 := Next(p3, Free(cpu, x, false));
    HeldNone(p4.put);
    hide Runs, After;
    RunOne(p3, Free(cpu, x, false), []);
    RunOne(p2, Complete, [Free(cpu, x, false)] + []);
    RunOne(p1, Hardware(1), [Complete] + ([Free(cpu, x, false)] + []));
    RunOne(p0, Fill(x), [Hardware(1)] + ([Complete] + ([Free(cpu, x, false)] + [])));
  }
}
