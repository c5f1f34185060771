/** The transmit descriptor ring and its completion slots as a state machine: what every step keeps
    (sfxge_tx.c:758-938, 2345-2385, 2492-2560; sfxge_ev.c:428-470).

    The counters are unbounded here; TxRing keeps their 32-bit values. */
module TxRings {
  import opened Words
  import opened TxSizes
  import RingSlots
  import opened Chains

  datatype Slots = Slots(stm: seq<seq<Id>>, stb: seq<seq<Id>>, mp: seq<seq<Id>>)

  /** The slots hold chains of mappings and buffers and at most one message; free mappings and buffers
      are in two pools.  bound says which mappings hold a DMA binding, freed which messages have been
      freed so far.  scan is how far the event thread has completed; completed is what it has stored. */
  datatype Ring = Ring(s: Slots, fmp: seq<Id>, fbp: seq<Id>, bound: set<Id>, freed: seq<Id>, n: nat,
                       added: nat, pending: nat, scan: nat, completed: nat, reaped: nat, open: bool)

  function Slot(k: nat): (r: nat)
    ensures r < NDESCS
  {
    k % NDESCS
  }

  predicate SlotsOk(s: Slots) {
    |s.stm| == |s.stb| == |s.mp| == NDESCS
  }

  predicate Empty(s: Slots, i: nat)
    requires SlotsOk(s) && i < NDESCS
  {
    s.stm[i] == [] && s.stb[i] == [] && s.mp[i] == []
  }

  function Set(s: Slots, i: nat, stm: seq<Id>, stb: seq<Id>, mp: seq<Id>): (r: Slots)
    requires SlotsOk(s) && i < NDESCS
    ensures SlotsOk(r)
  {
    Slots(s.stm[i := stm], s.stb[i := stb], s.mp[i := mp])
  }

  function Mappings(r: Ring): multiset<Id> {
    multiset(r.fmp) + Held(r.s.stm)
  }

  function Buffers(r: Ring): multiset<Id> {
    multiset(r.fbp) + Held(r.s.stb)
  }

  function Messages(r: Ring): multiset<Id> {
    multiset(r.freed) + Held(r.s.mp)
  }

  /** A completed slot: nothing is bound any more and the message has been freed. */
  predicate Done(r: Ring, i: nat)
    requires SlotsOk(r.s) && i < NDESCS
  {
    r.s.mp[i] == [] && forall j :: 0 <= j < |r.s.stm[i]| ==> r.s.stm[i][j] !in r.bound
  }

  /** A slot the hardware may still read through: every mapping is bound, and there is a message to free
      exactly when there is a mapping. */
  predicate Live(r: Ring, i: nat)
    requires SlotsOk(r.s) && i < NDESCS
  {
    && |r.s.mp[i]| <= 1 && (r.s.mp[i] == [] <==> r.s.stm[i] == [])
    && forall j :: 0 <= j < |r.s.stm[i]| ==> r.s.stm[i][j] in r.bound
  }

  /** Counters in order, and never more than the limit in the ring. */
  predicate Counters(r: Ring) {
    r.reaped <= r.completed <= r.scan <= r.pending <= r.added <= r.reaped + LIMIT && r.n <= LIMIT
  }

  /** Slots are empty outside [reaped, added), but for that of the packet at hand. */
  ghost predicate Vacant(r: Ring) {
    && SlotsOk(r.s)
    && (forall k :: r.added < k < r.reaped + NDESCS ==> Empty(r.s, Slot(k)))
    && (!r.open ==> r.n == 0 && Empty(r.s, Slot(r.added)))
  }

  /** Bound mappings and unfreed messages are exactly those of slots that are not completed. */
  ghost predicate Tidy(r: Ring) {
    && SlotsOk(r.s)
    && (forall k :: r.reaped <= k < r.scan ==> Done(r, Slot(k)))
    && (forall k :: r.scan <= k < r.added ==> Live(r, Slot(k)))
    && |r.s.mp[Slot(r.added)]| <= 1
    && (forall j :: 0 <= j < |r.fmp| ==> r.fmp[j] !in r.bound)
  }

  ghost predicate Owned(r: Ring) {
    Unique(Mappings(r)) && Unique(Buffers(r)) && Unique(Messages(r))
  }

  ghost predicate Ok(r: Ring) {
    SlotsOk(r.s) && Counters(r) && Vacant(r) && Tidy(r) && Owned(r)
  }

  /** A packet whose fragment list is complete, parked in the slot of the next descriptor. */
  predicate Parked(r: Ring) {
    SlotsOk(r.s) && r.open && r.n > 0 && Live(r, Slot(r.added))
  }

  // ---------------------------------------------------------------- steps

  /** Chains go back to a pool one by one, each to the front. */
  function PutBack(pool: seq<Id>, chain: seq<Id>): seq<Id>
    decreases |chain|
  {
    if chain == [] then pool else PutBack([chain[0]] + pool, chain[1..])
  }

  function AsSet(chain: seq<Id>): set<Id> {
    set x | x in chain
  }

  /** One round of the loop of sfxge_tx_qreap. */
  function ReapOne(r: Ring): Ring
    requires SlotsOk(r.s) && r.reaped < r.completed
  {
    var i := Slot(r.reaped);
    r.(fmp := PutBack(r.fmp, r.s.stm[i]), fbp := PutBack(r.fbp, r.s.stb[i]), s := Set(r.s, i, [], [], r.s.mp[i]),
       reaped := r.reaped + 1)
  }

  /** sfxge_tx_qlist_abort */
  function Aborted(r: Ring): Ring
    requires SlotsOk(r.s)
  {
    var i := Slot(r.added);
    r.(fmp := PutBack(r.fmp, r.s.stm[i]), fbp := PutBack(r.fbp, r.s.stb[i]), s := Set(r.s, i, [], [], []),
       bound := r.bound - AsSet(r.s.stm[i]), freed := r.freed + r.s.mp[i], n := 0, open := false)
  }

  /** All that slot i holds goes to slot j. */
  function Moved(s: Slots, i: nat, j: nat): (r: Slots)
    requires SlotsOk(s) && i < NDESCS && j < NDESCS
    ensures SlotsOk(r)
  {
    if i == j then s else Set(Set(s, i, [], [], []), j, s.stm[i], s.stb[i], s.mp[i])
  }

  /** The successful end of sfxge_tx_qlist_post: the completion information goes to the slot of the
      packet's last descriptor. */
  function Posted(r: Ring): Ring
    requires SlotsOk(r.s) && r.n > 0
  {
    r.(s := Moved(r.s, Slot(r.added), Slot(r.added + r.n - 1)), added := r.added + r.n, n := 0, open := false)
  }

  /** One round of the loop of sfxge_tx_qcomplete. */
  function CompleteOne(r: Ring): Ring
    requires SlotsOk(r.s) && r.scan < r.pending
  {
    var i := Slot(r.scan);
    if r.s.stm[i] == [] then r.(scan := r.scan + 1)
    else r.(bound := r.bound - AsSet(r.s.stm[i]), freed := r.freed + r.s.mp[i],
            s := Set(r.s, i, r.s.stm[i], r.s.stb[i], []), scan := r.scan + 1)
  }

  /** A mapping taken from the pool, or a new one, bound and put in front of the slot's chain. */
  function WithMapping(r: Ring, x: Id, pool: seq<Id>): Ring
    requires SlotsOk(r.s)
  {
    var i := Slot(r.added);
    r.(s := Set(r.s, i, [x] + r.s.stm[i], r.s.stb[i], r.s.mp[i]), fmp := pool, bound := r.bound + {x}, open := true)
  }

  function WithBuffer(r: Ring, x: Id, pool: seq<Id>): Ring
    requires SlotsOk(r.s)
  {
    var i := Slot(r.added);
    r.(s := Set(r.s, i, r.s.stm[i], [x] + r.s.stb[i], r.s.mp[i]), fbp := pool, open := true)
  }

  /** The end of fragmenting: the message waits for completion if any of it is mapped, else it is freed. */
  function WithMessage(r: Ring, m: Id, n: nat): Ring
    requires SlotsOk(r.s)
  {
    var i := Slot(r.added);
    if r.s.stm[i] == [] then r.(freed := r.freed + [m], n := n, open := true)
    else r.(s := Set(r.s, i, r.s.stm[i], r.s.stb[i], [m]), n := n, open := true)
  }

  datatype Step =
    | Map(x: Id) | Copy(x: Id)            // take a mapping or a buffer for the packet at hand
    | Finish(m: Id, n: nat)               // the packet at hand is complete, with n descriptors
    | Post | Abort | Reap
    | Hardware(d: nat) | Complete | Store // the event thread's steps

  predicate Enabled(r: Ring, step: Step)
    requires SlotsOk(r.s)
  {
    match step
    case Map(x) => r.n == 0 && r.s.mp[Slot(r.added)] == [] && (if r.fmp != [] then x == r.fmp[0] else x !in Mappings(r))
    case Copy(x) => r.n == 0 && r.s.mp[Slot(r.added)] == [] && (if r.fbp != [] then x == r.fbp[0] else x !in Buffers(r))
    case Finish(m, n) => r.n == 0 && r.s.mp[Slot(r.added)] == [] && 1 <= n <= LIMIT && m !in Messages(r)
                         && forall j :: 0 <= j < |r.s.stm[Slot(r.added)]| ==> r.s.stm[Slot(r.added)][j] in r.bound
    case Post => Parked(r) && r.added - r.reaped + r.n <= LIMIT
    case Abort => true
    case Reap => r.reaped < r.completed
    case Hardware(d) => r.pending + d <= r.added
    case Complete => r.scan < r.pending
    case Store => true
  }

  function Next(r: Ring, step: Step): Ring
    requires SlotsOk(r.s) && Enabled(r, step)
  {
    match step
    case Map(x) => WithMapping(r, x, if r.fmp != [] then r.fmp[1..] else [])
    case Copy(x) => WithBuffer(r, x, if r.fbp != [] then r.fbp[1..] else [])
    case Finish(m, n) => WithMessage(r, m, n)
    case Post => Posted(r)
    case Abort => Aborted(r)
    case Reap => ReapOne(r)
    case Hardware(d) => r.(pending := r.pending + d)
    case Complete => CompleteOne(r)
    case Store => r.(completed := r.scan)
  }

  // ---------------------------------------------------------------- what the steps keep

  lemma SlotsApart(j: nat, lo: nat, hi: nat)
    requires hi <= lo + NDESCS && lo <= j < hi
    ensures forall k :: lo <= k < hi && k != j ==> Slot(k) != Slot(j)
  {
    RingSlots.SlotsApart(NDESCS, j, lo, hi);
    forall k | lo <= k < hi && k != j
      ensures Slot(k) != Slot(j)
    {
      assert RingSlots.Slot(NDESCS, k) != RingSlots.Slot(NDESCS, j);
    }
  }

  lemma SlotWraps(k: nat)
    ensures Slot(k + NDESCS) == Slot(k)
  {
  }

  lemma {:induction false} PutBackHolds(pool: seq<Id>, chain: seq<Id>)
    ensures multiset(PutBack(pool, chain)) == multiset(pool) + multiset(chain)
    decreases |chain|
  {
    if chain != [] {
      PutBackHolds([chain[0]] + pool, chain[1..]);
      assert chain == [chain[0]] + chain[1..];
    }
  }

  /** Two slots never share a mapping. */
  lemma ChainsApart(chains: seq<seq<Id>>, pool: seq<Id>, i: nat, j: nat, x: Id)
    requires i < |chains| && j < |chains| && i != j && Unique(multiset(pool) + Held(chains)) && x in chains[i]
    ensures x !in chains[j] && x !in pool
  {
    HeldTwice(chains, pool, i, j, x);
    HeldMember(chains, i, x);
  }

  /** Everything a slot held goes to a pool: nothing is lost, nothing is doubled. */
  lemma SlotToPool(chains: seq<seq<Id>>, pool: seq<Id>, i: nat)
    requires i < |chains|
    ensures multiset(PutBack(pool, chains[i])) + Held(chains[i := []]) == multiset(pool) + Held(chains)
  {
    PutBackHolds(pool, chains[i]);
    HeldClear(chains, i);
    var p, m, h := multiset(pool), multiset(chains[i]), Held(chains[i := []]);
    assert (p + m) + h == p + (h + m);
  }

  lemma HardwareKeeps(r: Ring, d: nat)
    ensures Ok(r) && Enabled(r, Hardware(d)) ==> Ok(Next(r, Hardware(d)))
  {
  }

  lemma StoreKeeps(r: Ring)
    ensures Ok(r) ==> Ok(Next(r, Store))
  {
  }

  /** Nothing is lost and nothing is doubled. */
  ghost predicate Conserved(r: Ring, r': Ring) {
    Mappings(r') == Mappings(r) && Buffers(r') == Buffers(r) && Messages(r') == Messages(r)
  }

  lemma ReapConserves(r: Ring)
    requires SlotsOk(r.s) && r.reaped < r.completed
    ensures Conserved(r, ReapOne(r))
  {
    var i := Slot(r.reaped);
    SlotToPool(r.s.stm, r.fmp, i);
    SlotToPool(r.s.stb, r.fbp, i);
    assert r.s.mp[i := r.s.mp[i]] == r.s.mp;
  }

  lemma ReapTidies(r: Ring)
    requires SlotsOk(r.s) && Counters(r) && Vacant(r) && Tidy(r) && r.reaped < r.completed
    ensures var r' := ReapOne(r); SlotsOk(r'.s) && Vacant(r') && Tidy(r') && Counters(r')
  {
    hide Slot, PutBack;
    SlotsApart(r.reaped, r.reaped, r.reaped + NDESCS);
    SlotWraps(r.reaped);
    PutBackUnbound(r.fmp, r.s.stm[Slot(r.reaped)], r.bound);
  }

  lemma ReapKeeps(r: Ring)
    requires Ok(r) && r.reaped < r.completed
    ensures Ok(ReapOne(r)) && Conserved(r, ReapOne(r))
  {
    hide ReapOne, Vacant, Tidy, Mappings, Buffers, Messages, Counters;
    ReapConserves(r);
    ReapTidies(r);
  }

  lemma {:induction false} PutBackUnbound(pool: seq<Id>, chain: seq<Id>, bound: set<Id>)
    requires forall j :: 0 <= j < |pool| ==> pool[j] !in bound
    requires forall j :: 0 <= j < |chain| ==> chain[j] !in bound
    ensures forall j :: 0 <= j < |PutBack(pool, chain)| ==> PutBack(pool, chain)[j] !in bound
    decreases |chain|
  {
    if chain != [] {
      PutBackUnbound([chain[0]] + pool, chain[1..], bound);
    }
  }

  lemma AbortConserves(r: Ring)
    requires SlotsOk(r.s)
    ensures Conserved(r, Aborted(r))
  {
    var i := Slot(r.added);
    SlotToPool(r.s.stm, r.fmp, i);
    SlotToPool(r.s.stb, r.fbp, i);
    HeldClear(r.s.mp, i);
    var f, m, h := multiset(r.freed), multiset(r.s.mp[i]), Held(r.s.mp[i := []]);
    assert multiset(r.freed + r.s.mp[i]) == f + m;
    assert (f + m) + h == f + (h + m);
  }

  lemma AbortTidies(r: Ring)
    requires SlotsOk(r.s) && Counters(r) && Vacant(r) && Tidy(r) && Unique(Mappings(r))
    ensures var r' := Aborted(r); SlotsOk(r'.s) && Vacant(r') && Tidy(r') && Counters(r')
  {
    hide Slot, PutBack, Held, Unique;
    var r' := Aborted(r);
    var i := Slot(r.added);
    SlotsApart(r.added, r.reaped, r.reaped + NDESCS);
    PutBackUnbound(r.fmp, r.s.stm[i], r'.bound);
    forall k | r.scan <= k < r.added
      ensures Live(r', Slot(k))
    {
      StaysBound(r.s.stm, r.fmp, i, Slot(k), r.bound);
    }
  }

  /** Unbinding one slot's mappings leaves those of another bound. */
  lemma StaysBound(chains: seq<seq<Id>>, pool: seq<Id>, i: nat, j: nat, bound: set<Id>)
    requires i < |chains| && j < |chains| && i != j && Unique(multiset(pool) + Held(chains))
    ensures forall k :: 0 <= k < |chains[j]| && chains[j][k] in bound ==> chains[j][k] in bound - AsSet(chains[i])
  {
    forall k | 0 <= k < |chains[j]| && chains[j][k] in bound
      ensures chains[j][k] in bound - AsSet(chains[i])
    {
      ChainsApart(chains, pool, j, i, chains[j][k]);
    }
  }

  lemma AbortKeeps(r: Ring)
    requires Ok(r)
    ensures Ok(Aborted(r)) && Conserved(r, Aborted(r))
  {
    hide Aborted, Vacant, Tidy, Mappings, Buffers, Messages, Counters;
    AbortConserves(r);
    AbortTidies(r);
  }

  lemma LastIsEmpty(r: Ring)
    requires SlotsOk(r.s) && Counters(r) && Vacant(r) && r.n > 0 && r.added - r.reaped + r.n <= LIMIT
    ensures Slot(r.added) == Slot(r.added + r.n - 1) || Empty(r.s, Slot(r.added + r.n - 1))
  {
  }

  lemma PostConserves(r: Ring)
    requires SlotsOk(r.s) && Counters(r) && Vacant(r) && r.n > 0 && r.added - r.reaped + r.n <= LIMIT
    ensures Conserved(r, Posted(r))
  {
    hide Held, Slot, Vacant, Counters;
    LastIsEmpty(r);
    var i, j := Slot(r.added), Slot(r.added + r.n - 1);
    if i != j {
      MoveSlot(r.s, i, j);
    }
  }

  lemma MoveSlot(s: Slots, i: nat, j: nat)
    requires SlotsOk(s) && i < NDESCS && j < NDESCS && i != j && Empty(s, j)
    ensures var s' := Set(Set(s, i, [], [], []), j, s.stm[i], s.stb[i], s.mp[i]);
      Held(s'.stm) == Held(s.stm) && Held(s'.stb) == Held(s.stb) && Held(s'.mp) == Held(s.mp)
  {
    hide Held;
    SlotToSlot(s.stm, i, j);
    SlotToSlot(s.stb, i, j);
    SlotToSlot(s.mp, i, j);
  }

  /** Posting never writes to a slot that is in use: the slot of the last descriptor is empty before,
      and the packet's chains stand there afterwards. */
  lemma PostMoves(r: Ring)
    requires Ok(r) && Parked(r) && r.added - r.reaped + r.n <= LIMIT
    ensures var i, j := Slot(r.added), Slot(r.added + r.n - 1); var r' := Posted(r);
      && (i == j || (Empty(r.s, j) && Empty(r'.s, i)))
      && r'.s.stm[j] == r.s.stm[i] && r'.s.stb[j] == r.s.stb[i] && r'.s.mp[j] == r.s.mp[i]
      && forall k :: 0 <= k < NDESCS && k != i && k != j ==>
           r'.s.stm[k] == r.s.stm[k] && r'.s.stb[k] == r.s.stb[k] && r'.s.mp[k] == r.s.mp[k]
  {
    hide Held;
  }

  lemma PostTidies(r: Ring)
    requires SlotsOk(r.s) && Counters(r) && Vacant(r) && Tidy(r) && Parked(r) && r.added - r.reaped + r.n <= LIMIT
    ensures var r' := Posted(r); SlotsOk(r'.s) && Vacant(r') && Tidy(r') && Counters(r')
  {
    PostVacates(r);
    PostLives(r);
    hide Slot, Vacant, Tidy, Moved, Live;
  }

  /** Slots behind the packet stay empty. */
  lemma PostVacates(r: Ring)
    requires Counters(r) && Vacant(r) && Parked(r) && r.added - r.reaped + r.n <= LIMIT
    ensures Vacant(Posted(r))
  {
    hide Slot, Live;
    var last := r.added + r.n - 1;
    SlotsApart(r.added, r.reaped, r.reaped + NDESCS);
    SlotsApart(last, r.reaped, r.reaped + NDESCS);
    assert r.added + r.n < r.reaped + NDESCS && Empty(r.s, Slot(r.added + r.n));
  }

  /** The slots of the packet hold what it holds, in the last of them. */
  lemma PostLives(r: Ring)
    requires Counters(r) && Vacant(r) && Tidy(r) && Parked(r) && r.added - r.reaped + r.n <= LIMIT
    ensures Tidy(Posted(r))
  {
    hide Slot;
    var r' := Posted(r);
    var last := r.added + r.n - 1;
    SlotsApart(r.added, r.reaped, r.reaped + NDESCS);
    SlotsApart(last, r.reaped, r.reaped + NDESCS);
    assert Empty(r.s, Slot(last)) || last == r.added;
    assert r.added + r.n < r.reaped + NDESCS && Empty(r.s, Slot(r.added + r.n));
    forall k | r.scan <= k < r'.added
      ensures Live(r', Slot(k))
    {
      if k > r.added && k != last {
        assert Empty(r.s, Slot(k));
      }
    }
  }

  lemma PostKeeps(r: Ring)
    requires Ok(r) && Parked(r) && r.added - r.reaped + r.n <= LIMIT
    ensures Ok(Posted(r)) && Conserved(r, Posted(r))
  {
    hide Posted, Vacant, Tidy, Mappings, Buffers, Messages, Counters;
    PostConserves(r);
    PostTidies(r);
  }

  lemma CompleteConserves(r: Ring)
    requires SlotsOk(r.s) && r.scan < r.pending
    ensures Conserved(r, CompleteOne(r))
  {
    var i := Slot(r.scan);
    assert r.s.stm[i := r.s.stm[i]] == r.s.stm && r.s.stb[i := r.s.stb[i]] == r.s.stb;
    HeldClear(r.s.mp, i);
    var f, m, h := multiset(r.freed), multiset(r.s.mp[i]), Held(r.s.mp[i := []]);
    assert multiset(r.freed + r.s.mp[i]) == f + m;
    assert (f + m) + h == f + (h + m);
  }

  lemma CompleteTidies(r: Ring)
    requires SlotsOk(r.s) && Counters(r) && Vacant(r) && Tidy(r) && Unique(Mappings(r)) && r.scan < r.pending
    ensures var r' := CompleteOne(r); SlotsOk(r'.s) && Vacant(r') && Tidy(r') && Counters(r')
  {
    hide Slot, Held, Unique;
    var r' := CompleteOne(r);
    var i := Slot(r.scan);
    SlotsApart(r.scan, r.reaped, r.reaped + NDESCS);
    assert Live(r, i);
    forall k | r.scan < k < r.added
      ensures Live(r', Slot(k))
    {
      StaysBound(r.s.stm, r.fmp, i, Slot(k), r.bound);
    }
  }

  lemma CompleteKeeps(r: Ring)
    requires Ok(r) && r.scan < r.pending
    ensures Ok(CompleteOne(r)) && Conserved(r, CompleteOne(r))
  {
    hide CompleteOne, Vacant, Tidy, Mappings, Buffers, Messages, Counters;
    CompleteConserves(r);
    CompleteTidies(r);
  }

  /** A mapping or buffer from the pool moves to a chain; a new one joins what is owned. */
  lemma Taken(chains: seq<seq<Id>>, pool: seq<Id>, i: nat, x: Id)
    requires i < |chains| && Unique(multiset(pool) + Held(chains))
    requires if pool != [] then x == pool[0] else x !in multiset(pool) + Held(chains)
    ensures var pool' := if pool != [] then pool[1..] else []; var chains' := chains[i := [x] + chains[i]];
      && Unique(multiset(pool') + Held(chains'))
      && multiset(pool') + Held(chains') == multiset(pool) + Held(chains) + (if pool != [] then multiset{} else multiset{x})
  {
    HeldUpdate(chains, i, [x] + chains[i]);
    var h, h', c := Held(chains), Held(chains[i := [x] + chains[i]]), multiset(chains[i]);
    assert multiset([x] + chains[i]) == multiset{x} + c;
    assert h' + c == (h + multiset{x}) + c;
    Cancel(h', h + multiset{x}, c);
    if pool != [] {
      assert pool == [pool[0]] + pool[1..];
      assert multiset(pool) == multiset{x} + multiset(pool[1..]);
      var p := multiset(pool[1..]);
      assert p + (h + multiset{x}) == (multiset{x} + p) + h;
    } else {
      assert multiset(pool) == multiset{};
      assert multiset(pool) + h == h && multiset(pool) + (h + multiset{x}) == h + multiset{x};
      NewIsUnique(h, x);
    }
  }

  lemma MapTidies(r: Ring, x: Id)
    requires SlotsOk(r.s) && Counters(r) && Vacant(r) && Tidy(r) && Owned(r) && Enabled(r, Map(x))
    ensures var r' := Next(r, Map(x)); SlotsOk(r'.s) && Vacant(r') && Tidy(r') && Counters(r')
  {
    hide Slot, Held, Unique, Done, Live, Owned;
    var r' := Next(r, Map(x));
    var i := Slot(r.added);
    MapIsNew(r, x);
    SlotsApart(r.added, r.reaped, r.reaped + NDESCS);
    forall k | r.reaped <= k < r.added
      ensures (k < r.scan ==> Done(r', Slot(k))) && (r.scan <= k ==> Live(r', Slot(k)))
    {
      MapElsewhere(r, x, Slot(k));
    }
  }

  /** Once mapped, x is in no other slot and no longer in the pool. */
  lemma MapIsNew(r: Ring, x: Id)
    requires SlotsOk(r.s) && Owned(r) && Enabled(r, Map(x))
    ensures forall j :: 0 <= j < NDESCS && j != Slot(r.added) ==> x !in r.s.stm[j]
    ensures forall k :: 0 <= k < |Next(r, Map(x)).fmp| ==> Next(r, Map(x)).fmp[k] != x
  {
    hide Slot, Held, Unique;
    var r' := Next(r, Map(x));
    var i := Slot(r.added);
    Taken(r.s.stm, r.fmp, i, x);
    assert r'.s.stm[i][0] == x;
    OnlyHere(r'.s.stm, r'.fmp, i, x);
    assert forall j :: 0 <= j < NDESCS && j != i ==> r'.s.stm[j] == r.s.stm[j];
  }

  /** Mapping x changes no other slot. */
  lemma MapElsewhere(r: Ring, x: Id, j: nat)
    requires SlotsOk(r.s) && j < NDESCS && j != Slot(r.added) && x !in r.s.stm[j]
    ensures var r' := WithMapping(r, x, if r.fmp != [] then r.fmp[1..] else []);
      (Done(r, j) ==> Done(r', j)) && (Live(r, j) ==> Live(r', j))
  {
    hide Slot;
  }

  lemma OnlyHere(chains: seq<seq<Id>>, pool: seq<Id>, i: nat, x: Id)
    requires i < |chains| && Unique(multiset(pool) + Held(chains)) && x in chains[i]
    ensures forall j :: 0 <= j < |chains| && j != i ==> forall k :: 0 <= k < |chains[j]| ==> chains[j][k] != x
    ensures forall k :: 0 <= k < |pool| ==> pool[k] != x
  {
    forall j | 0 <= j < |chains| && j != i
      ensures forall k :: 0 <= k < |chains[j]| ==> chains[j][k] != x
    {
      NotElsewhere(chains, pool, i, j, x);
    }
    NotInPool(chains, pool, i, x);
  }

  lemma NotElsewhere(chains: seq<seq<Id>>, pool: seq<Id>, i: nat, j: nat, x: Id)
    requires i < |chains| && j < |chains| && i != j && Unique(multiset(pool) + Held(chains)) && x in chains[i]
    ensures forall k :: 0 <= k < |chains[j]| ==> chains[j][k] != x
  {
    ChainsApart(chains, pool, i, j, x);
  }

  lemma NotInPool(chains: seq<seq<Id>>, pool: seq<Id>, i: nat, x: Id)
    requires i < |chains| && Unique(multiset(pool) + Held(chains)) && x in chains[i]
    ensures forall k :: 0 <= k < |pool| ==> pool[k] != x
  {
    HeldTwice(chains, pool, i, i, x);
    HeldMember(chains, i, x);
  }

  lemma MapOwns(r: Ring, x: Id)
    requires SlotsOk(r.s) && Owned(r) && Enabled(r, Map(x))
    ensures var r' := Next(r, Map(x));
      && Owned(r') && Buffers(r') == Buffers(r) && Messages(r') == Messages(r)
      && Mappings(r') == Mappings(r) + (if r.fmp != [] then multiset{} else multiset{x})
  {
    hide Slot, Held, Unique;
    var i := Slot(r.added);
    Taken(r.s.stm, r.fmp, i, x);
    assert r.s.stb[i := r.s.stb[i]] == r.s.stb && r.s.mp[i := r.s.mp[i]] == r.s.mp;
  }

  lemma CopyTidies(r: Ring, x: Id)
    requires SlotsOk(r.s) && Counters(r) && Vacant(r) && Tidy(r) && Enabled(r, Copy(x))
    ensures var r' := Next(r, Copy(x)); SlotsOk(r'.s) && Vacant(r') && Tidy(r') && Counters(r')
  {
    hide Slot, Held;
    var i := Slot(r.added);
    SlotsApart(r.added, r.reaped, r.reaped + NDESCS);
  }

  lemma CopyOwns(r: Ring, x: Id)
    requires SlotsOk(r.s) && Owned(r) && Enabled(r, Copy(x))
    ensures var r' := Next(r, Copy(x));
      && Owned(r') && Mappings(r') == Mappings(r) && Messages(r') == Messages(r)
      && Buffers(r') == Buffers(r) + (if r.fbp != [] then multiset{} else multiset{x})
  {
    hide Slot, Held, Unique;
    var i := Slot(r.added);
    Taken(r.s.stb, r.fbp, i, x);
    assert r.s.stm[i := r.s.stm[i]] == r.s.stm && r.s.mp[i := r.s.mp[i]] == r.s.mp;
  }

  lemma FinishTidies(r: Ring, m: Id, n: nat)
    requires SlotsOk(r.s) && Counters(r) && Vacant(r) && Tidy(r) && Enabled(r, Finish(m, n))
    ensures var r' := Next(r, Finish(m, n)); SlotsOk(r'.s) && Vacant(r') && Tidy(r') && Counters(r') && Parked(r')
  {
    hide Slot, Held;
    var i := Slot(r.added);
    SlotsApart(r.added, r.reaped, r.reaped + NDESCS);
  }

  lemma FinishOwns(r: Ring, m: Id, n: nat)
    requires SlotsOk(r.s) && Owned(r) && Enabled(r, Finish(m, n))
    ensures var r' := Next(r, Finish(m, n));
      && Owned(r') && Mappings(r') == Mappings(r) && Buffers(r') == Buffers(r)
      && Messages(r') == Messages(r) + multiset{m}
  {
    hide Slot, Held;
    var i := Slot(r.added);
    assert r.s.stm[i := r.s.stm[i]] == r.s.stm && r.s.stb[i := r.s.stb[i]] == r.s.stb;
    if r.s.stm[i] == [] {
      var f, h := multiset(r.freed), Held(r.s.mp);
      assert multiset(r.freed + [m]) == f + multiset{m};
      assert (f + multiset{m}) + h == (f + h) + multiset{m};
    } else {
      HeldUpdate(r.s.mp, i, [m]);
      var none: seq<Id> := [];
      assert multiset(none) == multiset{} && multiset([m]) == multiset{m};
      var f, h, h' := multiset(r.freed), Held(r.s.mp), Held(r.s.mp[i := [m]]);
      assert h' == h + multiset{m};
      assert f + (h + multiset{m}) == (f + h) + multiset{m};
    }
  }

  // ---------------------------------------------------------------- whole runs

  /** What a step adds to the things owned: a new mapping, buffer or message. */
  function NewMappings(r: Ring, step: Step): multiset<Id> {
    if step.Map? && r.fmp == [] then multiset{step.x} else multiset{}
  }

  function NewBuffers(r: Ring, step: Step): multiset<Id> {
    if step.Copy? && r.fbp == [] then multiset{step.x} else multiset{}
  }

  function NewMessages(step: Step): multiset<Id> {
    if step.Finish? then multiset{step.m} else multiset{}
  }

  /** Every step keeps the ring in order and loses nothing. */
  lemma StepKeeps(r: Ring, step: Step)
    requires Ok(r) && Enabled(r, step)
    ensures var r' := Next(r, step);
      && Ok(r') && Mappings(r') == Mappings(r) + NewMappings(r, step)
      && Buffers(r') == Buffers(r) + NewBuffers(r, step) && Messages(r') == Messages(r) + NewMessages(step)
  {
    hide Vacant, Tidy, Mappings, Buffers, Messages, Owned, Aborted, Posted, ReapOne, CompleteOne, WithMapping, WithBuffer,
         WithMessage, Parked;
    match step
    case Map(x) => MapTidies(r, x); MapOwns(r, x);
    case Copy(x) => CopyTidies(r, x); CopyOwns(r, x);
    case Finish(m, n) => FinishTidies(r, m, n); FinishOwns(r, m, n);
    case Post => ParkedHasWork(r); PostKeeps(r);
    case Abort => AbortKeeps(r);
    case Reap => ReapKeeps(r);
    case Hardware(d) => HardwareKeeps(r, d); SameHoldings(r, Next(r, step));
    case Complete => CompleteKeeps(r);
    case Store => StoreKeeps(r); SameHoldings(r, Next(r, step));
  }

  lemma ParkedHasWork(r: Ring)
    ensures Parked(r) ==> r.n > 0
  {
  }

  lemma SameHoldings(r: Ring, r': Ring)
    ensures r'.s == r.s && r'.fmp == r.fmp && r'.fbp == r.fbp && r'.freed == r.freed ==> Conserved(r, r')
  {
  }

  /** A run: every step is enabled when it is taken. */
  predicate Runs(r: Ring, steps: seq<Step>)
    requires SlotsOk(r.s)
    decreases |steps|
  {
    steps == [] || (Enabled(r, steps[0]) && SlotsOk(Next(r, steps[0]).s) && Runs(Next(r, steps[0]), steps[1..]))
  }

  function After(r: Ring, steps: seq<Step>): Ring
    requires SlotsOk(r.s) && Runs(r, steps)
    decreases |steps|
  {
    if steps == [] then r else After(Next(r, steps[0]), steps[1..])
  }

  /** All messages handed over in a run. */
  function Accepted(steps: seq<Step>): multiset<Id> {
    if steps == [] then multiset{} else NewMessages(steps[0]) + Accepted(steps[1..])
  }

  /** In every run the ring stays in order, and every message accepted is either freed, once, or still
      held in one slot. */
  lemma {:induction false} RunKeeps(r: Ring, steps: seq<Step>)
    requires Ok(r) && SlotsOk(r.s) && Runs(r, steps)
    ensures Ok(After(r, steps)) && Messages(After(r, steps)) == Messages(r) + Accepted(steps)
    decreases |steps|
  {
    hide *;
    RunUnfolds(r, steps);
    if steps != [] {
      StepKeeps(r, steps[0]);
      RunKeeps(Next(r, steps[0]), steps[1..]);
      var m, a, b := Messages(r), NewMessages(steps[0]), Accepted(steps[1..]);
      assert (m + a) + b == m + (a + b);
    }
  }

  lemma RunUnfolds(r: Ring, steps: seq<Step>)
    requires SlotsOk(r.s) && Runs(r, steps)
    ensures steps == [] ==> After(r, steps) == r && Accepted(steps) == multiset{}
    ensures steps != [] ==> Enabled(r, steps[0]) && SlotsOk(Next(r, steps[0]).s) && Runs(Next(r, steps[0]), steps[1..])
    ensures steps != [] ==> After(r, steps) == After(Next(r, steps[0]), steps[1..])
    ensures steps != [] ==> Accepted(steps) == NewMessages(steps[0]) + Accepted(steps[1..])
  {
  }

  /** The queue as it is started: nothing in the slots or pools, all counters at the first index. */
  function Start(index: nat): Ring {
    var none: seq<seq<Id>> := seq(NDESCS, _ => []);
    Ring(Slots(none, none, none), [], [], {}, [], 0, index, index, index, index, index, false)
  }

  lemma StartIsOk(index: nat)
    ensures Ok(Start(index))
  {
    HeldNone(Start(index).s.stm);
    var nothing: seq<Id> := [];
    assert multiset(nothing) == multiset{};
  }

  /** When everything has been completed and reaped, and no packet is parked, no slot holds anything:
      every mapping and buffer is back in its pool, and every message has been freed. */
  lemma DrainedIsEmpty(r: Ring)
    requires Ok(r) && r.reaped == r.added && !r.open
    ensures multiset(r.fmp) == Mappings(r) && multiset(r.fbp) == Buffers(r) && multiset(r.freed) == Messages(r)
    ensures r.bound * AsSet(r.fmp) == {}
  {
    forall i | 0 <= i < NDESCS
      ensures r.s.stm[i] == [] && r.s.stb[i] == [] && r.s.mp[i] == []
    {
      VacantSlot(r, i);
    }
    HeldNone(r.s.stm);
    HeldNone(r.s.stb);
    HeldNone(r.s.mp);
  }

  lemma VacantSlot(r: Ring, i: nat)
    requires SlotsOk(r.s) && Vacant(r) && r.reaped == r.added && !r.open && i < NDESCS
    ensures Empty(r.s, i)
  {
    var d, q := (i - r.reaped) % NDESCS, (i - r.reaped) / NDESCS;
    DivModUnique(r.reaped + d, NDESCS, -q, i);
    assert Slot(r.reaped + d) == i;
    assert d == 0 || r.added < r.reaped + d < r.reaped + NDESCS;
  }

  /** A drained queue can start again from any index. */
  lemma DrainedRestarts(r: Ring, index: nat)
    requires Ok(r) && r.reaped == r.added && !r.open
    ensures Ok(r.(added := index, pending := index, scan := index, completed := index, reaped := index))
  {
    forall i | 0 <= i < NDESCS
      ensures Empty(r.s, i)
    {
      VacantSlot(r, i);
    }
  }
}
