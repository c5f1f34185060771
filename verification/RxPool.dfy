/** The receive packet pool as the driver keeps it: ring slots, lists and 32-bit counters
    (sfxge_rx.c:354-446, 553-594, 754-950, 1707-1846, 2064-2077).

    A ring slot or list of mblks is a sequence of packets; [] stands for NULL. */
module RxPool {
  import opened Words
  import opened RingSlots
  import opened Chains
  import opened RxPools

  const BATCH := 64                   // SFXGE_REFILL_BATCH

  /** All put lists from id on, n of them, in the order in which they are taken. */
  function SwizzledFrom(p: Pool, id: nat, n: nat): (q: Pool)
    requires Shape(p) && id < NPUT
    ensures Shape(q)
    decreases n
  {
    if n == 0 then p else SwizzledFrom(Swizzled(p, id), (id + 1) % NPUT, n - 1)
  }

  lemma {:induction false} SwizzledFromKeeps(p: Pool, id: nat, n: nat)
    requires Ok(p) && id < NPUT
    ensures var q := SwizzledFrom(p, id, n);
      && Ok(q) && All(q) == All(p) && q.slots == p.slots && q.out == p.out
      && q.added == p.added && q.pending == p.pending && q.completed == p.completed && q.extra == p.extra && q.lost == p.lost
    decreases n
  {
    if n > 0 {
      SwizzleKeeps(p, id);
      hide Ok, All, Swizzled;
      SwizzledLeaves(p, id);
      SwizzledFromKeeps(Swizzled(p, id), (id + 1) % NPUT, n - 1);
    }
  }

  lemma SwizzledLeaves(p: Pool, id: nat)
    requires Shape(p) && id < NPUT
    ensures var q := Swizzled(p, id);
      && q.slots == p.slots && q.out == p.out && q.added == p.added && q.pending == p.pending && q.completed == p.completed
      && q.extra == p.extra && q.lost == p.lost
  {
  }

  /** How many lists are taken before list i when starting at id. */
  function Turn(i: nat, id: nat): nat
    requires i < NPUT && id < NPUT
  {
    (i - id) % NPUT
  }

  lemma TurnNext(i: nat, id: nat)
    requires i < NPUT && id < NPUT
    ensures Turn(i, id) < NPUT && (Turn(i, id) == 0 <==> i == id)
    ensures i != id ==> Turn(i, (id + 1) % NPUT) == Turn(i, id) - 1
    ensures i == id ==> Turn(i, (id + 1) % NPUT) == NPUT - 1
  {
  }

  /** One round over all put lists empties them. */
  lemma SwizzleEmpties(p: Pool, id: nat)
    requires Shape(p) && id < NPUT
    ensures forall i :: 0 <= i < NPUT ==> SwizzledFrom(p, id, NPUT).put[i] == []
  {
    forall i | 0 <= i < NPUT
      ensures SwizzledFrom(p, id, NPUT).put[i] == []
    {
      TurnNext(i, id);
      SwizzledRange(p, id, NPUT, i);
    }
  }

  lemma {:induction false} SwizzledRange(p: Pool, id: nat, n: nat, i: nat)
    requires Shape(p) && id < NPUT && n <= NPUT && i < NPUT
    ensures SwizzledFrom(p, id, n).put[i] == if Turn(i, id) < n then [] else p.put[i]
    decreases n
  {
    TurnNext(i, id);
    hide Turn;
    if n > 0 {
      SwizzledRange(Swizzled(p, id), (id + 1) % NPUT, n - 1, i);
    }
  }

  ghost predicate Below(p: Pool, next: Id) {
    forall x :: x in All(p) ==> x < next
  }

  lemma StillBelow(p: Pool, q: Pool, next: Id, gone: multiset<Id>)
    requires Below(p, next) && All(q) + gone == All(p)
    ensures Below(q, next)
  {
    forall x | x in All(q)
      ensures x < next
    {
      assert x in All(q) + gone;
    }
  }

  lemma OkShape(p: Pool)
    requires Ok(p)
    ensures Shape(p) && p.completed <= p.pending <= p.added <= p.completed + |p.slots| - RESERVE
    ensures p.loaned == |p.out| + |Held(p.put)| - p.extra + p.lost
  {
  }

  /** The first packet of the get list goes to the ring, unless it is stale. */
  function RefilledOne(p: Pool, stale: set<Id>): (q: Pool)
    requires Shape(p) && p.get != []
    ensures Shape(q)
  {
    if p.get[0] in stale then Dropped(p) else Refilled(p)
  }

  /** The loop of sfxge_rx_qrefill: up to n packets of the get list, stale ones being destroyed. */
  function RefilledBy(p: Pool, n: nat, stale: set<Id>): (q: Pool)
    requires Shape(p)
    ensures Shape(q)
    decreases n
  {
    if n == 0 || p.get == [] then p else RefilledBy(RefilledOne(p, stale), n - 1, stale)
  }

  /** All packets that are not stale are still there. */
  ghost predicate OnlyStaleGone(p: Pool, q: Pool, stale: set<Id>) {
    All(q) <= All(p) && forall x :: x !in stale ==> All(q)[x] == All(p)[x]
  }

  lemma RefilledOneKeeps(p: Pool, stale: set<Id>)
    requires Ok(p) && p.get != [] && HasRoom(p)
    ensures var q := RefilledOne(p, stale);
      && Ok(q) && OnlyStaleGone(p, q, stale)
      && q.out == p.out && q.put == p.put && q.loaned == p.loaned && q.extra == p.extra && q.lost == p.lost
      && q.completed == p.completed && q.pending == p.pending && |q.get| == |p.get| - 1 && |q.slots| == |p.slots|
      && p.added <= q.added <= p.added + 1 && (stale == {} ==> q.added == p.added + 1)
  {
    hide Ok, Slot, Held;
    if p.get[0] in stale { DropKeeps(p); } else { RefillKeeps(p); }
  }

  lemma OnlyStaleTwice(p: Pool, q: Pool, r: Pool, stale: set<Id>)
    ensures OnlyStaleGone(p, p, stale)
    ensures OnlyStaleGone(p, q, stale) && OnlyStaleGone(q, r, stale) ==> OnlyStaleGone(p, r, stale)
  {
  }

  /** Refilling moves packets from the get list to the ring and destroys only stale ones. */
  lemma {:induction false} RefilledByKeeps(p: Pool, n: nat, stale: set<Id>)
    requires Ok(p) && p.added - p.completed + n <= |p.slots| - RESERVE
    ensures var q := RefilledBy(p, n, stale);
      && Ok(q) && OnlyStaleGone(p, q, stale)
      && q.out == p.out && q.put == p.put && q.loaned == p.loaned && q.extra == p.extra && q.lost == p.lost
      && q.completed == p.completed && q.pending == p.pending && p.added <= q.added <= p.added + n
      && (stale == {} ==> q.added == p.added + Min(n, |p.get|))
    decreases n
  {
    hide Ok, OnlyStaleGone, RefilledOne;
    OkShape(p);
    if n > 0 && p.get != [] {
      var r := RefilledOne(p, stale);
      RefilledOneKeeps(p, stale);
      RefilledByKeeps(r, n - 1, stale);
      OnlyStaleTwice(p, r, RefilledBy(r, n - 1, stale), stale);
    } else {
      OnlyStaleTwice(p, p, p, stale);
    }
  }

  /** The packets of s that are not stale, in order. */
  function Usable(s: seq<Id>, stale: set<Id>): (r: seq<Id>)
    ensures |r| <= |s|
  {
    if s == [] then [] else (if s[0] in stale then [] else [s[0]]) + Usable(s[1..], stale)
  }

  /** And those that are. */
  function Unusable(s: seq<Id>, stale: set<Id>): seq<Id> {
    if s == [] then [] else (if s[0] in stale then [s[0]] else []) + Unusable(s[1..], stale)
  }

  /** Of the first n packets of a list those that are not stale have filled the next slots, in order, and the stale ones
      are gone. */
  ghost predicate TookFrom(p: Pool, q: Pool, list: seq<Id>, n: nat, stale: set<Id>)
    requires Shape(p)
  {
    var m := Min(n, |list|);
    var u := Usable(list[..m], stale);
    && |q.slots| == |p.slots| && q.get == list[m..] && q.added == p.added + |u|
    && HasAt(q.slots, |p.slots|, p.added, u)
    && All(q) + multiset(Unusable(list[..m], stale)) == All(p)
  }

  lemma TookSame(p: Pool, p': Pool, q: Pool, list: seq<Id>, n: nat, stale: set<Id>)
    requires Shape(p) && TookFrom(p, q, list, n, stale)
    ensures |p'.slots| == |p.slots| && p'.added == p.added && All(p') == All(p) && Shape(p') ==> TookFrom(p', q, list, n, stale)
  {
    hide All, Usable, Unusable, Slot;
  }

  lemma {:induction false} UsableAre(s: seq<Id>, stale: set<Id>)
    ensures forall k :: 0 <= k < |Usable(s, stale)| ==> Usable(s, stale)[k] in s && Usable(s, stale)[k] !in stale
    ensures forall x :: x in Unusable(s, stale) ==> x in s && x in stale
    ensures multiset(Usable(s, stale)) + multiset(Unusable(s, stale)) == multiset(s)
  {
    if s != [] {
      UsableAre(s[1..], stale);
      assert s == [s[0]] + s[1..];
    }
  }

  /** What refilling means. */
  lemma {:induction false} RefilledMeans(p: Pool, n: nat, stale: set<Id>)
    requires Ok(p) && p.added - p.completed + n <= |p.slots| - RESERVE
    ensures var q := RefilledBy(p, n, stale);
      && TookFrom(p, q, p.get, n, stale)
      && (forall k :: p.completed <= k < p.added ==> q.slots[Slot(|p.slots|, k)] == p.slots[Slot(|p.slots|, k)])
    decreases n
  {
    hide Ok, RefilledOne, RefilledBy, All, Slot, Usable, Unusable, TookFrom;
    OkShape(p);
    if n > 0 && p.get != [] {
      var r := RefilledOne(p, stale);
      RefilledOneKeeps(p, stale);
      RefilledOneMeans(p, stale);
      RefilledMeans(r, n - 1, stale);
      RefilledUnfolds(p, n, stale);
      TookOneMore(p, r, RefilledBy(p, n, stale), n, stale);
    } else {
      RefilledUnfolds(p, n, stale);
      TookNone(p, n, stale);
    }
  }

  lemma TookNone(p: Pool, n: nat, stale: set<Id>)
    requires Shape(p) && (n == 0 || p.get == [])
    ensures TookFrom(p, p, p.get, n, stale)
  {
    hide All, Slot;
    assert p.get[..0] == [] && p.get[0..] == p.get;
  }

  lemma TookOneMore(p: Pool, r: Pool, q: Pool, n: nat, stale: set<Id>)
    requires Shape(p) && Shape(r) && n > 0 && p.get != [] && TookFrom(r, q, r.get, n - 1, stale)
    requires var x := p.get[0];
      && r.get == p.get[1..] && r.added == p.added + (if x in stale then 0 else 1) && |r.slots| == |p.slots|
      && (x !in stale ==> q.slots[Slot(|p.slots|, p.added)] == [x])
      && All(r) + (if x in stale then multiset{x} else multiset{}) == All(p)
    ensures TookFrom(p, q, p.get, n, stale)
  {
    hide *;
    FirstOfList(p.get, n);
    var s := p.get[..Min(n, |p.get|)];
    TookIs(r, q, r.get, n - 1, stale);
    UsableFirst(s, stale);
    SlotsOfMore(q.slots, |p.slots|, p.added, s, stale);
    Regroup(All(q), multiset(Unusable(s[1..], stale)), if s[0] in stale then multiset{s[0]} else multiset{}, All(r), All(p));
    TookIs(p, q, p.get, n, stale);
  }

  lemma TookIs(p: Pool, q: Pool, list: seq<Id>, n: nat, stale: set<Id>)
    requires Shape(p)
    ensures Min(n, |list|) >= 0 && (TookFrom(p, q, list, n, stale) <==>
      var m := Min(n, |list|); var u := Usable(list[..m], stale);
        && |q.slots| == |p.slots| > 0 && q.get == list[m..] && q.added == p.added + |u| && HasAt(q.slots, |p.slots|, p.added, u)
        && All(q) + multiset(Unusable(list[..m], stale)) == All(p))
  {
    hide Slot, All, Usable, Unusable;
  }

  /** The slots from position at on hold the packets of u. */
  ghost predicate HasAt(slots: seq<seq<Id>>, size: nat, at: nat, u: seq<Id>)
    requires |slots| == size > 0
  {
    forall k :: 0 <= k < |u| ==> slots[Slot(size, at + k)] == [u[k]]
  }

  lemma FirstOfList(get: seq<Id>, n: nat)
    requires get != [] && n > 0
    ensures 0 < Min(n, |get|) <= |get| && Min(n - 1, |get[1..]|) == Min(n, |get|) - 1
    ensures var m, rest := Min(n, |get|), get[1..];
      && get[..m] != [] && get[..m][0] == get[0] && get[..m][1..] == rest[..m - 1] && rest[m - 1..] == get[m..]
  {
  }

  lemma SlotsOfMore(slots: seq<seq<Id>>, size: nat, at: nat, s: seq<Id>, stale: set<Id>)
    requires |slots| == size > 0 && s != []
    requires if s[0] in stale then HasAt(slots, size, at, Usable(s[1..], stale))
             else slots[Slot(size, at)] == [s[0]] && HasAt(slots, size, at + 1, Usable(s[1..], stale))
    ensures HasAt(slots, size, at, Usable(s, stale))
  {
    UsableFirst(s, stale);
    hide Slot, Usable;
    var u, v := Usable(s, stale), Usable(s[1..], stale);
    forall k | 0 <= k < |u|
      ensures slots[Slot(size, at + k)] == [u[k]]
    {
      if s[0] in stale {
        assert u == v && slots[Slot(size, at + k)] == [v[k]];
      } else if k > 0 {
        assert u[k] == v[k - 1] && slots[Slot(size, (at + 1) + (k - 1))] == [v[k - 1]];
        assert (at + 1) + (k - 1) == at + k;
      }
    }
  }

  lemma Regroup(q: multiset<Id>, rest: multiset<Id>, x: multiset<Id>, r: multiset<Id>, p: multiset<Id>)
    requires q + rest == r && r + x == p
    ensures q + (x + rest) == p
  {
    assert q + (x + rest) == (q + rest) + x;
  }

  lemma UsableFirst(s: seq<Id>, stale: set<Id>)
    requires s != []
    ensures Usable(s, stale) == (if s[0] in stale then [] else [s[0]]) + Usable(s[1..], stale)
    ensures multiset(Unusable(s, stale)) == (if s[0] in stale then multiset{s[0]} else multiset{}) + multiset(Unusable(s[1..], stale))
  {
  }

  lemma UsableNone(stale: set<Id>)
    ensures Usable([], stale) == [] && multiset(Unusable([], stale)) == multiset{}
  {
  }

  lemma RefilledOneMeans(p: Pool, stale: set<Id>)
    requires Ok(p) && p.get != [] && HasRoom(p)
    ensures var q, x := RefilledOne(p, stale), p.get[0];
      && q.get == p.get[1..] && q.added == p.added + (if x in stale then 0 else 1)
      && (x !in stale ==> q.slots[Slot(|p.slots|, p.added)] == [x])
      && (forall k :: p.completed <= k < p.added ==> q.slots[Slot(|p.slots|, k)] == p.slots[Slot(|p.slots|, k)])
      && All(q) + (if x in stale then multiset{x} else multiset{}) == All(p)
  {
    OkShape(p);
    RefilledOneAll(p, stale);
    hide Ok, All;
    forall k | p.completed <= k < p.added
      ensures Slot(|p.slots|, k) != Slot(|p.slots|, p.added)
    {
      SlotsDiffer(k, p.added, |p.slots|);
    }
  }

  lemma RefilledOneAll(p: Pool, stale: set<Id>)
    requires Ok(p) && p.get != [] && HasRoom(p)
    ensures All(RefilledOne(p, stale)) + (if p.get[0] in stale then multiset{p.get[0]} else multiset{}) == All(p)
  {
    if p.get[0] in stale {
      hide Ok, Held;
      assert p.get == [p.get[0]] + p.get[1..];
    } else {
      hide Ok, All;
      RefillKeeps(p);
    }
  }

  lemma RingHasUsable(p: Pool, q: Pool, n: nat, stale: set<Id>)
    requires Shape(p) && TookFrom(p, q, p.get, n, stale)
    ensures forall k :: p.added <= k < q.added ==>
      |q.slots[Slot(|p.slots|, k)]| == 1 && q.slots[Slot(|p.slots|, k)][0] !in stale
  {
    hide *;
    TookIs(p, q, p.get, n, stale);
    MinIs(n, |p.get|);
    var s := p.get[..Min(n, |p.get|)];
    UsableAre(s, stale);
    forall k | p.added <= k < q.added
      ensures |q.slots[Slot(|p.slots|, k)]| == 1 && q.slots[Slot(|p.slots|, k)][0] !in stale
    {
      HasAtIs(q.slots, |p.slots|, p.added, Usable(s, stale), k);
    }
  }

  /** The whole refill of n descriptors, the put lists from list id on first. */
  lemma RefillMeans(p: Pool, id: nat, n: nat, stale: set<Id>, next: Id)
    requires Ok(p) && id < NPUT && p.added - p.completed + n <= |p.slots| - RESERVE && Below(p, next)
    ensures Shape(p)
    ensures var s := SwizzledFrom(p, id, NPUT); var q := RefilledBy(s, n, stale);
      && Ok(q) && Below(q, next) && q.out == p.out && TookFrom(p, q, s.get, n, stale) && |q.slots| == |p.slots|
      && multiset(s.get) == multiset(p.get) + Held(p.put) && |s.get| >= |p.get| && s.get[|s.get| - |p.get|..] == p.get
      && forall k :: p.added <= k < q.added ==>
           |q.slots[Slot(|p.slots|, k)]| == 1 && q.slots[Slot(|p.slots|, k)][0] !in stale
  {
    hide Ok, Below, All, RefilledBy, RefilledOne, SwizzledFrom, Held, Slot, TookFrom;
    OkShape(p);
    var s := SwizzledFrom(p, id, NPUT);
    SwizzledFromKeeps(p, id, NPUT);
    SwizzledGet(p, id, NPUT);
    SwizzleEmpties(p, id);
    OkShape(s);
    HeldNone(s.put);
    RefilledByKeeps(s, n, stale);
    RefilledMeans(s, n, stale);
    var q := RefilledBy(s, n, stale);
    TookSame(s, p, q, s.get, n, stale);
    RefilledBelow(p, s, q, next, stale);
    RingHasUsable(s, q, n, stale);
    OkShape(q);
    TookIs(s, q, s.get, n, stale);
  }

  lemma MinIs(x: nat, y: nat)
    ensures 0 <= Min(x, y) <= x && Min(x, y) <= y
  {
  }

  lemma HasAtIs(slots: seq<seq<Id>>, size: nat, at: nat, u: seq<Id>, k: nat)
    requires |slots| == size > 0 && HasAt(slots, size, at, u)
    ensures at <= k < at + |u| ==> slots[Slot(size, k)] == [u[k - at]]
  {
    hide Slot;
    if at <= k < at + |u| {
      assert slots[Slot(size, at + (k - at))] == [u[k - at]];
    }
  }

  /** The put lists go in front of the get list. */
  lemma {:induction false} SwizzledGet(p: Pool, id: nat, n: nat)
    requires Shape(p) && id < NPUT
    ensures var q := SwizzledFrom(p, id, n);
      && multiset(q.get) + Held(q.put) == multiset(p.get) + Held(p.put) && q.loaned - |Held(q.put)| == p.loaned - |Held(p.put)|
      && |q.get| >= |p.get| && q.get[|q.get| - |p.get|..] == p.get
    decreases n
  {
    if n > 0 {
      var r := Swizzled(p, id);
      HeldClear(p.put, id);
      SwizzledGet(r, (id + 1) % NPUT, n - 1);
      hide Held, SwizzledFrom;
      var q := SwizzledFrom(p, id, n);
      assert q == SwizzledFrom(r, (id + 1) % NPUT, n - 1);
      assert r.get[|p.put[id]|..] == p.get;
      assert q.get[|q.get| - |p.get|..] == q.get[|q.get| - |r.get|..][|p.put[id]|..];
      assert multiset(r.get) == multiset(p.put[id]) + multiset(p.get);
    }
  }

  /** The loop of sfxge_rx_qfill, with n packets created. */
  function FilledBy(p: Pool, n: nat, first: Id): (q: Pool)
    requires Shape(p)
    ensures Shape(q)
    decreases n
  {
    if n == 0 then p else FilledBy(Posted(p, first), n - 1, first + 1)
  }

  lemma {:induction false} FilledByKeeps(p: Pool, n: nat, first: Id)
    requires Ok(p) && p.added - p.completed + n <= |p.slots| - RESERVE && Below(p, first)
    ensures var q := FilledBy(p, n, first);
      && Ok(q) && Below(q, first + n) && q.added == p.added + n && q.completed == p.completed && q.pending == p.pending
      && q.get == p.get && q.out == p.out && q.put == p.put && q.loaned == p.loaned
    decreases n
  {
    if n > 0 {
      FillKeeps(p, first);
      assert Below(Posted(p, first), first + 1);
      hide Ok, All, Below;
      FilledByKeeps(Posted(p, first), n - 1, first + 1);
    }
  }

  /** A completed packet is passed on, or discarded, which returns it to the pool at once. */
  ghost function Handled(p: Pool, cpu: nat, keep: bool, ok: bool): Pool
    requires Ok(p) && p.completed < p.pending && cpu < NPUT
  {
    CompleteKeeps(p);
    var q := Completed(p);
    if keep then q else Freed(q, cpu, p.slots[Slot(|p.slots|, p.completed)][0], ok)
  }

  lemma HandledKeeps(p: Pool, cpu: nat, keep: bool, ok: bool)
    requires Ok(p) && p.completed < p.pending && cpu < NPUT
    ensures |p.slots[Slot(|p.slots|, p.completed)]| == 1
    ensures var q, x := Handled(p, cpu, keep, ok), p.slots[Slot(|p.slots|, p.completed)][0];
      && Ok(q) && q.completed == p.completed + 1 && q.pending == p.pending && q.added == p.added && q.get == p.get
      && All(q) + (if keep || ok then multiset{} else multiset{x}) == All(p)
      && (keep ==> q.out == p.out + multiset{x} && q.put == p.put)
      && (!keep ==> q.out == p.out)
  {
    hide Ok, All, Slot;
    OkShape(p);
    CompleteKeeps(p);
    var q, x := Completed(p), p.slots[Slot(|p.slots|, p.completed)][0];
    if !keep {
      FreeKeeps(q, cpu, x, ok);
      assert q.out == p.out + multiset{x} && p.out + multiset{x} - multiset{x} == p.out;
    }
  }

  /** The new packets are in the next slots, in order. */
  lemma {:induction false} FilledMeans(p: Pool, n: nat, first: Id)
    requires Ok(p) && p.added - p.completed + n <= |p.slots| - RESERVE && Below(p, first)
    ensures var q := FilledBy(p, n, first);
      |q.slots| == |p.slots| > 0 && q.added == p.added + n && HasAt(q.slots, |p.slots|, p.added, NewIds(first, n))
    ensures var q := FilledBy(p, n, first);
      forall k :: p.completed <= k < p.added ==> q.slots[Slot(|p.slots|, k)] == p.slots[Slot(|p.slots|, k)]
    decreases n
  {
    hide Ok, All, Below, Slot, FilledBy, Posted, HasAt, NewIds;
    OkShape(p);
    FilledUnfolds(p, n, first);
    if n > 0 {
      var r := Posted(p, first);
      PostedMeans(p, first);
      FilledMeans(r, n - 1, first + 1);
      assert p.completed <= p.added < r.added;
      IdsOfMore(FilledBy(p, n, first).slots, |p.slots|, p.added, n, first);
    } else {
      IdsOfNone(p.slots, p.added, first);
    }
  }

  lemma PostedMeans(p: Pool, x: Id)
    requires Ok(p) && HasRoom(p) && Below(p, x)
    ensures var q := Posted(p, x);
      && Ok(q) && Below(q, x + 1) && |q.slots| == |p.slots| && q.added == p.added + 1 && q.completed == p.completed
      && q.slots[Slot(|p.slots|, p.added)] == [x]
      && (forall k :: p.completed <= k < p.added ==> q.slots[Slot(|p.slots|, k)] == p.slots[Slot(|p.slots|, k)])
  {
    FillKeeps(p, x);
    OkShape(p);
    hide Ok, All, Slot;
    forall k | p.completed <= k < p.added
      ensures Slot(|p.slots|, k) != Slot(|p.slots|, p.added)
    {
      SlotsDiffer(k, p.added, |p.slots|);
    }
  }

  lemma IdsOfNone(slots: seq<seq<Id>>, at: nat, first: Id)
    ensures |slots| > 0 ==> HasAt(slots, |slots|, at, NewIds(first, 0))
  {
  }

  lemma IdsOfMore(slots: seq<seq<Id>>, size: nat, at: nat, n: nat, first: Id)
    requires |slots| == size > 0 && n > 0 && slots[Slot(size, at)] == [first]
    requires HasAt(slots, size, at + 1, NewIds(first + 1, n - 1))
    ensures HasAt(slots, size, at, NewIds(first, n))
  {
    hide Slot;
    var u, v := NewIds(first, n), NewIds(first + 1, n - 1);
    forall k | 0 <= k < |u|
      ensures slots[Slot(size, at + k)] == [u[k]]
    {
      if k > 0 {
        assert u[k] == v[k - 1] && slots[Slot(size, (at + 1) + (k - 1))] == [v[k - 1]];
        assert (at + 1) + (k - 1) == at + k;
      }
    }
  }

  lemma FilledUnfolds(p: Pool, n: nat, first: Id)
    requires Shape(p)
    ensures FilledBy(p, n, first) == if n == 0 then p else FilledBy(Posted(p, first), n - 1, first + 1)
  {
  }

  /** The packets whose descriptors are done, in ring order. */
  ghost function Due(p: Pool): seq<Id>
    requires Ok(p)
  {
    seq(p.pending - p.completed, k requires 0 <= k < p.pending - p.completed => p.slots[Slot(|p.slots|, p.completed + k)][0])
  }

  /** The elements of s that are ticked, in order. */
  function Chosen<T>(s: seq<T>, keep: seq<bool>): seq<T>
    requires |s| == |keep|
  {
    if s == [] then [] else (if keep[0] then [s[0]] else []) + Chosen(s[1..], keep[1..])
  }

  function Ticks(keep: seq<bool>): nat {
    if keep == [] then 0 else (if keep[0] then 1 else 0) + Ticks(keep[1..])
  }

  /** There are as many as ticks, and the one at k has as many in front of it as there are ticks in front of it. */
  lemma {:induction false} ChosenAt<T>(s: seq<T>, keep: seq<bool>, k: nat)
    requires |s| == |keep| && k < |s|
    ensures |Chosen(s, keep)| == Ticks(keep)
    ensures keep[k] ==> Ticks(keep[..k]) < |Chosen(s, keep)| && Chosen(s, keep)[Ticks(keep[..k])] == s[k]
  {
    if k > 0 {
      ChosenAt(s[1..], keep[1..], k - 1);
      assert keep[..k][1..] == keep[1..][..k - 1];
    } else {
      assert keep[..0] == [];
      if |s| > 1 {
        ChosenAt(s[1..], keep[1..], 0);
      } else {
        assert s[1..] == [] && keep[1..] == [];
      }
    }
  }

  lemma {:induction false} PassedAreChosen(p: Pool, cpu: nat, keep: seq<bool>, ok: seq<bool>)
    requires Ok(p) && cpu < NPUT && |keep| == |ok| == p.pending - p.completed
    ensures PassedOn(p, cpu, keep, ok) == Chosen(Due(p), keep)
    decreases |keep|
  {
    hide Ok, Handled, PassedOn, AllHandled;
    if keep == [] {
      NothingHandled(p, cpu);
    } else {
      HandledUnfolds(p, cpu, keep, ok);
      var q := Handled(p, cpu, keep[0], ok[0]);
      PassedAreChosen(q, cpu, keep[1..], ok[1..]);
      DueNext(p, cpu, keep[0], ok[0]);
    }
  }

  lemma DueNext(p: Pool, cpu: nat, keep: bool, ok: bool)
    requires Ok(p) && p.completed < p.pending && cpu < NPUT
    ensures |p.slots[Slot(|p.slots|, p.completed)]| == 1 && Ok(Handled(p, cpu, keep, ok))
    ensures Due(p) == p.slots[Slot(|p.slots|, p.completed)] + Due(Handled(p, cpu, keep, ok))
  {
    hide Ok, All, Handled, Due, Slot;
    HandledKeeps(p, cpu, keep, ok);
    OkShape(p);
    var q := Handled(p, cpu, keep, ok);
    OkShape(q);
    HandledSlots(p, cpu, keep, ok);
    DueIs(p);
    DueIs(q);
    DueAt(p, q);
  }

  lemma DueIs(p: Pool)
    requires Ok(p)
    ensures p.completed <= p.pending && |p.slots| > 0 && |Due(p)| == p.pending - p.completed
    ensures forall k :: p.completed <= k < p.pending ==>
      |p.slots[Slot(|p.slots|, k)]| == 1 && Due(p)[k - p.completed] == p.slots[Slot(|p.slots|, k)][0]
  {
    hide Held, Slot;
  }

  lemma HandledSlots(p: Pool, cpu: nat, keep: bool, ok: bool)
    requires Ok(p) && p.completed < p.pending && cpu < NPUT
    ensures var q := Handled(p, cpu, keep, ok);
      |q.slots| == |p.slots| > 0 && forall k :: p.completed < k < p.pending ==> q.slots[Slot(|p.slots|, k)] == p.slots[Slot(|p.slots|, k)]
  {
    HandledKeeps(p, cpu, keep, ok);
    OkShape(p);
    hide Ok, All, Slot;
    forall k | p.completed < k < p.pending
      ensures Slot(|p.slots|, k) != Slot(|p.slots|, p.completed)
    {
      SlotsDiffer(p.completed, k, |p.slots|);
    }
  }

  lemma DueAt(p: Pool, q: Pool)
    requires Ok(p) && Ok(q) && p.completed < p.pending == q.pending && q.completed == p.completed + 1
    requires |q.slots| == |p.slots| > 0 && |Due(p)| == p.pending - p.completed && |Due(q)| == q.pending - q.completed
    requires |p.slots[Slot(|p.slots|, p.completed)]| == 1
    requires forall k :: p.completed < k < p.pending ==> q.slots[Slot(|p.slots|, k)] == p.slots[Slot(|p.slots|, k)]
    requires forall k :: p.completed <= k < p.pending ==>
      |p.slots[Slot(|p.slots|, k)]| == 1 && Due(p)[k - p.completed] == p.slots[Slot(|p.slots|, k)][0]
    requires forall k :: q.completed <= k < q.pending ==>
      |q.slots[Slot(|q.slots|, k)]| == 1 && Due(q)[k - q.completed] == q.slots[Slot(|q.slots|, k)][0]
    ensures Due(p) == p.slots[Slot(|p.slots|, p.completed)] + Due(q)
  {
    hide Ok, Slot, Due;
    var d := p.slots[Slot(|p.slots|, p.completed)] + Due(q);
    forall j | 0 <= j < |d|
      ensures Due(p)[j] == d[j]
    {
      var k := p.completed + j;
      assert Due(p)[k - p.completed] == p.slots[Slot(|p.slots|, k)][0];
      if j > 0 {
        assert Due(q)[k - q.completed] == q.slots[Slot(|q.slots|, k)][0];
      }
    }
  }

  /** All packets whose descriptors are done, with the fate of each. */
  ghost function AllHandled(p: Pool, cpu: nat, keep: seq<bool>, ok: seq<bool>): Pool
    requires Ok(p) && cpu < NPUT && |keep| == |ok| == p.pending - p.completed
    decreases |keep|
  {
    if keep == [] then p
    else
      HandledKeeps(p, cpu, keep[0], ok[0]);
      AllHandled(Handled(p, cpu, keep[0], ok[0]), cpu, keep[1..], ok[1..])
  }

  /** The packets that are passed on, in ring order. */
  ghost function PassedOn(p: Pool, cpu: nat, keep: seq<bool>, ok: seq<bool>): seq<Id>
    requires Ok(p) && cpu < NPUT && |keep| == |ok| == p.pending - p.completed
    decreases |keep|
  {
    if keep == [] then []
    else
      HandledKeeps(p, cpu, keep[0], ok[0]);
      (if keep[0] then p.slots[Slot(|p.slots|, p.completed)] else [])
        + PassedOn(Handled(p, cpu, keep[0], ok[0]), cpu, keep[1..], ok[1..])
  }

  /** Completion empties the done slots: passed-on packets are out with the stack, the others are on a put
      list or, when no block could be had for them, destroyed. */
  lemma {:induction false} AllHandledKeeps(p: Pool, cpu: nat, keep: seq<bool>, ok: seq<bool>)
    requires Ok(p) && cpu < NPUT && |keep| == |ok| == p.pending - p.completed
    ensures var q := AllHandled(p, cpu, keep, ok);
      && Ok(q) && q.completed == q.pending == p.pending && q.added == p.added && q.get == p.get && All(q) <= All(p)
      && q.out == p.out + multiset(PassedOn(p, cpu, keep, ok))
      && ((forall k :: 0 <= k < |ok| ==> ok[k]) ==> All(q) == All(p))
    decreases |keep|
  {
    hide Ok, All, Handled, Slot, AllHandled, PassedOn;
    if keep == [] {
      NothingHandled(p, cpu);
    } else {
      HandledUnfolds(p, cpu, keep, ok);
      HandledKeeps(p, cpu, keep[0], ok[0]);
      var r := Handled(p, cpu, keep[0], ok[0]);
      AllHandledKeeps(r, cpu, keep[1..], ok[1..]);
      OneChain(p.slots[Slot(|p.slots|, p.completed)], keep[0], PassedOn(r, cpu, keep[1..], ok[1..]));
    }
  }

  lemma NothingHandled(p: Pool, cpu: nat)
    requires Ok(p) && cpu < NPUT && p.pending == p.completed
    ensures AllHandled(p, cpu, [], []) == p && PassedOn(p, cpu, [], []) == [] && multiset(PassedOn(p, cpu, [], [])) == multiset{}
  {
    hide Ok;
  }

  lemma OneChain(chain: seq<Id>, keep: bool, rest: seq<Id>)
    requires |chain| == 1
    ensures multiset((if keep then chain else []) + rest) == (if keep then multiset{chain[0]} else multiset{}) + multiset(rest)
  {
    assert chain == [chain[0]];
  }

  function NewIds(first: Id, n: nat): seq<Id> {
    seq(n, k => first + k)
  }

  /** The lists with more packets behind those of list id. */
  function Longer(lists: seq<seq<Id>>, id: nat, more: seq<Id>): (r: seq<seq<Id>>)
    requires id < |lists|
    ensures |r| == |lists|
  {
    lists[id := lists[id] + more]
  }

  lemma LongerByNone(lists: seq<seq<Id>>, id: nat, first: Id)
    requires id < |lists|
    ensures Longer(lists, id, NewIds(first, 0)) == lists
  {
    assert NewIds(first, 0) == [] && lists[id] + [] == lists[id];
  }

  lemma LongerByOne(lists: seq<seq<Id>>, id: nat, first: Id, n: nat)
    requires id < |lists|
    ensures Longer(Longer(lists, id, NewIds(first, n)), id, [first + n]) == Longer(lists, id, NewIds(first, n + 1))
  {
    assert NewIds(first, n + 1) == NewIds(first, n) + [first + n];
    assert lists[id] + NewIds(first, n) + [first + n] == lists[id] + (NewIds(first, n) + [first + n]);
  }

  class Queue {
    const slots: array<seq<Id>>       // sr_srpp
    const put: array<seq<Id>>         // the put lists
    var get: seq<Id>                  // srfpp_get
    var count: u32                    // srfpp_count
    var loaned: u32                   // srfpp_loaned
    var added: u32
    var pending: u32
    var completed: u32
    var next: Id                      // identities of packets still to be created
    ghost var out: multiset<Id>       // packets out with the stack
    ghost var trueLoaned: int
    ghost var trueAdded: nat
    ghost var truePending: nat
    ghost var trueCompleted: nat
    ghost var extra: nat
    ghost var lost: nat

    ghost function Now(): Pool
      reads this, slots, put
    {
      Pool(slots[..], get, put[..], out, trueLoaned, trueAdded, truePending, trueCompleted, extra, lost)
    }

    /** The counters are the true ones modulo 2^32, but that sr_added lags by the batch not yet posted. */
    ghost predicate Counts(batch: nat)
      reads this
    {
      && count == Wrap32(|get|) && loaned == Wrap32(trueLoaned)
      && batch <= trueAdded && added == Wrap32(trueAdded - batch)
      && pending == Wrap32(truePending) && completed == Wrap32(trueCompleted)
    }

    ghost predicate Sane(batch: nat)
      reads this, slots, put
    {
      && slots != put && Ok(Now()) && Counts(batch)
      && WORD32 % slots.Length == 0 && Below(Now(), next)
    }

    ghost predicate Valid()
      reads this, slots, put
    {
      Sane(0)
    }

    static lemma ValidIs(q: Queue)
      ensures q.Valid() <==>
        && q.slots != q.put && Ok(q.Now()) && q.Counts(0) && WORD32 % q.slots.Length == 0 && Below(q.Now(), q.next)
      ensures q.Now() == Pool(q.slots[..], q.get, q.put[..], q.out, q.trueLoaned, q.trueAdded, q.truePending, q.trueCompleted,
                              q.extra, q.lost)
    {
      hide Ok, Below;
    }

    /** The queue as sfxge_rx_qctor sets it up, before any preallocation: no packets, and all counters zero. */
    constructor (size: nat)
      requires RESERVE < size && WORD32 % size == 0
      ensures Valid() && Now() == Start(size) && fresh(slots) && fresh(put)
    {
      slots := new seq<Id>[size](_ => []);
      put := new seq<Id>[NPUT](_ => []);
      get, count, loaned, added, pending, completed, next := [], 0, 0, 0, 0, 0, 0;
      out, trueLoaned, trueAdded, truePending, trueCompleted, extra, lost := multiset{}, 0, 0, 0, 0, 0, 0;
      new;
      StartIsOk(size);
      assert Now() == Start(size);
    }

    /** sfxge_rx_qfpp_put */
    method FppPut(cpu: nat, x: Id)
      requires put.Length == NPUT && slots.Length > RESERVE && slots != put
      modifies put
      ensures put[..] == old(put[..])[cpu % 8 := old(put[cpu % 8]) + [x]]
      ensures Now() == Put(old(Now()), cpu % NPUT, x)
    {
      var id := cpu % NPUT;
      put[id] := put[id] + [x];
      assert put[..] == old(put[..])[id := old(put[id]) + [x]];
    }

    /** sfxge_rx_qpacket_free, called when the stack frees the block; ok says whether desballoc succeeds. */
    method PacketFree(cpu: nat, x: Id, ok: bool, ghost batch: nat)
      requires Sane(batch) && x in out
      modifies this`out, this`lost, put
      ensures put.Length == 8 && put[..] == if ok then old(put[..])[cpu % 8 := old(put[cpu % 8]) + [x]] else old(put[..])
      ensures out == old(out) - multiset{x} && lost == old(lost) + if ok then 0 else 1
      ensures Sane(batch) && Now() == Freed(old(Now()), cpu % NPUT, x, ok)
    {
      hide Ok, All, Below, Held;
      ghost var p := Now();
      OkShape(p);
      FreeKeeps(p, cpu % NPUT, x, ok);
      StillBelow(p, Freed(p, cpu % NPUT, x, ok), next, if ok then multiset{} else multiset{x});
      out := out - multiset{x};
      if ok {
        FppPut(cpu, x);
      } else {
        lost := lost + 1;
      }
    }

    /** One put list is taken over. */
    method SwizzleOne(id: nat)
      requires id < NPUT == put.Length && slots.Length > RESERVE && slots != put && Counts(0)
      modifies this`get, this`count, this`loaned, this`trueLoaned, put
      ensures Now() == Swizzled(old(Now()), id) && Counts(0)
    {
      ghost var g := get;
      var p := put[id];
      put[id] := [];
      WrapAdd(|g|, |p|);
      WrapSub(trueLoaned, |p|);
      get := p + get;
      loaned := Sub32(loaned, Wrap32(|p|));
      count := Add32(count, |p|);
      trueLoaned := trueLoaned - |p|;
    }

    /** sfxge_rx_qfpp_swizzle */
    method Swizzle(cpu: nat)
      requires NPUT == put.Length && slots.Length > RESERVE && slots != put && Counts(0)
      modifies this`get, this`count, this`loaned, this`trueLoaned, put
      ensures forall i :: 0 <= i < 8 ==> put[i] == []
      ensures multiset(get) == old(multiset(get) + Held(put[..])) && trueLoaned == old(trueLoaned - |Held(put[..])|)
      ensures |get| >= |old(get)| && get[|get| - |old(get)|..] == old(get)
      ensures Counts(0) && Now() == SwizzledFrom(old(Now()), (cpu + 1) % NPUT, NPUT)
    {
      hide SwizzledFrom, Swizzled, Held;
      SwizzledGet(Now(), (cpu + 1) % NPUT, NPUT);
      SwizzleEmpties(Now(), (cpu + 1) % NPUT);
      HeldNone(SwizzledFrom(Now(), (cpu + 1) % NPUT, NPUT).put);
      var start := (cpu + 1) % NPUT;
      var id := start;
      ghost var left := NPUT;
      while true
        invariant 0 < left <= NPUT && id == (start + (NPUT - left)) % NPUT && Counts(0)
        invariant SwizzledFrom(Now(), id, left) == SwizzledFrom(old(Now()), start, NPUT)
        decreases left
      {
        ghost var was := Now();
        SwizzleOne(id);
        SwizzledUnfolds(was, id, left);
        RoundTrip(start, left - 1);
        id := (id + 1) % NPUT;
        left := left - 1;
        if id == start {
          break;
        }
      }
    }

    /** Filling the next slot, for the batch at hand. */
    method FillSlot(x: Id, batch: nat) returns (batch': nat)
      requires Counts(batch) && batch < BATCH && slots.Length > RESERVE && put.Length == NPUT && slots != put
      requires WORD32 % slots.Length == 0
      modifies this`added, this`trueAdded, slots
      ensures batch' == (if batch + 1 == BATCH then 0 else batch + 1) && Counts(batch')
      ensures Now() == Posted(old(Now()), x)
    {
      WrapAdd(trueAdded - batch, batch);
      WrapSlot(trueAdded, slots.Length);
      var id := Add32(added, batch) % slots.Length;
      slots[id] := [x];
      batch' := batch + 1;
      ghost var posted := trueAdded - batch;
      trueAdded := trueAdded + 1;
      if batch' == BATCH {
        WrapAdd(posted, batch');
        added := Add32(added, batch');
        batch' := 0;
      }
    }

    /** How many descriptors there is room for, up to the target. */
    method Wanted(target: nat) returns (n: nat)
      requires Valid()
      ensures n == Min(slots.Length - RESERVE - (trueAdded - trueCompleted), target)
    {
      hide Ok, Below;
      OkShape(Now());
      RingFits(slots.Length);
      CounterDistance(trueAdded, trueCompleted);
      var rxfill := Sub32(added, completed);
      n := Min(slots.Length - RESERVE - rxfill, target);
    }

    /** sfxge_rx_qrefill, for a started queue; packets of another size than the current one are stale.  The put lists
        go in front of the get list, and of the first n packets there those that are not stale go into the ring, in
        order; the others are destroyed. */
    method Refill(target: nat, cpu: nat, stale: set<Id>) returns (ghost list: seq<Id>)
      requires Valid()
      modifies this, slots, put
      ensures Valid() && out == old(out)
      ensures var n := Min(slots.Length - 16 - old(trueAdded - trueCompleted), target); n == 0 ==> Now() == old(Now())
      ensures var n := Min(slots.Length - 16 - old(trueAdded - trueCompleted), target);
        n > 0 ==> multiset(list) == old(multiset(get) + Held(put[..])) && |list| >= |old(get)| && list[|list| - |old(get)|..] == old(get)
      ensures var n := Min(slots.Length - 16 - old(trueAdded - trueCompleted), target);
        n > 0 ==> Shape(old(Now())) && TookFrom(old(Now()), Now(), list, n, stale)
      ensures forall k :: old(trueAdded) <= k < trueAdded ==>
        |slots[Slot(slots.Length, k)]| == 1 && slots[Slot(slots.Length, k)][0] !in stale
      ensures var p := old(Now()); var n := Min(|p.slots| - RESERVE - (p.added - p.completed), target);
        && Shape(p)
        && Now() == if n == 0 then p else RefilledBy(SwizzledFrom(p, (cpu + 1) % NPUT, NPUT), n, stale)
    {
      hide Ok, Below, All, RefilledBy, RefilledOne, SwizzledFrom, Held, Slot, Wrap32, TookFrom;
      ghost var p := Now();
      list := [];
      OkShape(p);
      var ntodo := Wanted(target);
      if ntodo == 0 {
        return;
      }
      RefillMeans(p, (cpu + 1) % NPUT, ntodo, stale, next);
      Swizzle(cpu);
      list := get;
      RefillLoop(ntodo, stale);
    }

    /** The loop, and the last batch. */
    method RefillLoop(n: nat, stale: set<Id>)
      requires Counts(0) && slots != put && Shape(Now()) && WORD32 % slots.Length == 0
      modifies this`get, this`count, this`added, this`trueAdded, slots
      ensures Counts(0) && Now() == RefilledBy(old(Now()), n, stale)
    {
      hide Posted, Slot, RefilledBy;
      var ntodo: nat := n;
      var batch := 0;
      while ntodo > 0
        invariant Counts(batch) && batch < BATCH && Shape(Now()) && ntodo <= n
        invariant RefilledBy(Now(), ntodo, stale) == RefilledBy(old(Now()), n, stale)
        decreases ntodo
      {
        RefilledUnfolds(Now(), ntodo, stale);
        ntodo := ntodo - 1;
        if get == [] {
          break;
        }
        var x := get[0];
        WrapSub(|get|, 1);
        get := get[1..];
        count := Sub32(count, 1);
        if x !in stale {
          batch := FillSlot(x, batch);
        }
      }
      RefilledUnfolds(Now(), 0, stale);
      WrapAdd(trueAdded - batch, batch);
      added := Add32(added, batch);
    }

    /** sfxge_rx_qpacket_create, when memory can be had. */
    method CreatePacket() returns (x: Id)
      modifies this`next
      ensures x == old(next) && next == x + 1
    {
      x := next;
      next := next + 1;
    }

    /** sfxge_rx_qfill, for a started queue; memory can be had for avail packets. */
    method Fill(target: nat, avail: nat)
      requires Valid()
      modifies this`added, this`trueAdded, this`next, slots
      ensures Valid() && Shape(old(Now()))
      ensures var made := Min(Min(slots.Length - RESERVE - old(trueAdded - trueCompleted), target), avail);
        made >= 0 && next == old(next) + made && Now() == FilledBy(old(Now()), made, old(next))
      ensures var made := next - old(next);
        made >= 0 && trueAdded == old(trueAdded) + made && HasAt(slots[..], slots.Length, old(trueAdded), NewIds(old(next), made))
    {
      hide Ok, All, FilledBy, Posted, Wrap32, Shape, HasAt, Slot;
      ghost var p, first := Now(), next;
      OkShape(p);
      var ntodo := Wanted(target);
      var batch, made := 0, 0;
      FilledSnoc(p, 0, first);
      while made < ntodo && made < avail
        invariant Counts(batch) && batch < BATCH && made <= ntodo && made <= avail && next == first + made
        invariant Shape(Now()) && Now() == FilledBy(p, made, first) && Below(Now(), next)
      {
        FilledByKeeps(p, made + 1, first);
        FilledSnoc(p, made, first);
        var x := CreatePacket();
        batch := FillSlot(x, batch);
        made := made + 1;
      }
      FilledByKeeps(p, made, first);
      FilledMeans(p, made, first);
      WrapAdd(trueAdded - batch, batch);
      added := Add32(added, batch);
    }

    /** sfxge_rx_qpreallocate puts new packets on a put list, although none was on loan; memory can be had
        for avail packets. */
    method Preallocate(cpu: nat, nprealloc: nat, avail: nat)
      requires Valid()
      modifies this`next, this`extra, put
      ensures Valid() && next == old(next) + Min(nprealloc, avail) && extra == old(extra) + Min(nprealloc, avail)
      ensures put[..] == Longer(old(put[..]), cpu % NPUT, NewIds(old(next), Min(nprealloc, avail)))
      ensures get == old(get) && loaned == old(loaned)
    {
      hide Ok, All, Below, Wrap32, Longer, NewIds;
      OkShape(Now());
      var left: nat := nprealloc;
      ghost var first, lists := next, put[..];
      LongerByNone(lists, cpu % NPUT, first);
      while left > 0 && nprealloc - left < avail
        invariant left <= nprealloc && nprealloc - left <= avail && Valid() && next == first + (nprealloc - left)
        invariant extra == old(extra) + (nprealloc - left) && get == old(get) && loaned == old(loaned)
        invariant put[..] == Longer(lists, cpu % NPUT, NewIds(first, nprealloc - left))
      {
        LongerByOne(lists, cpu % NPUT, first, nprealloc - left);
        left := left - 1;
        var x := CreatePacket();
        PreallocOne(cpu, x);
      }
    }

    method PreallocOne(cpu: nat, x: Id)
      requires slots != put && Ok(Now()) && Counts(0) && WORD32 % slots.Length == 0 && Below(Now(), x) && next == x + 1
      modifies this`extra, put
      ensures Valid() && Now() == Preallocated(old(Now()), cpu % NPUT, x)
      ensures put[..] == Longer(old(put[..]), cpu % NPUT, [x])
    {
      hide Ok, Held, Slot;
      ghost var p := Now();
      OkShape(p);
      PreallocKeeps(p, cpu % NPUT, x);
      FppPut(cpu, x);
      extra := extra + 1;
    }

    /** The packet of the next done descriptor leaves the ring. */
    method TakeDone() returns (x: Id)
      requires Valid() && trueCompleted < truePending
      modifies this`loaned, this`trueLoaned, this`completed, this`trueCompleted, this`out, slots
      ensures Valid() && Now() == Completed(old(Now())) && x in out
      ensures [x] == old(Now()).slots[Slot(slots.Length, old(trueCompleted))]
    {
      hide Ok, All, Below, Held;
      ghost var p := Now();
      OkShape(p);
      CompleteKeeps(p);
      StillBelow(p, Completed(p), next, multiset{});
      WrapSlot(trueCompleted, slots.Length);
      WrapAdd(trueCompleted, 1);
      WrapAdd(trueLoaned, 1);
      var id := completed % slots.Length;
      x := slots[id][0];
      slots[id] := [];
      loaned, trueLoaned := Add32(loaned, 1), trueLoaned + 1;
      completed, trueCompleted := Add32(completed, 1), trueCompleted + 1;
      out := out + multiset{x};
    }

    /** One round of sfxge_rx_qcomplete.  The driver stores sr_completed after the last round; nobody else
        reads it. */
    method CompleteOne(cpu: nat, keep: bool, ok: bool) returns (x: Id)
      requires Valid() && trueCompleted < truePending
      modifies this`loaned, this`trueLoaned, this`completed, this`trueCompleted, this`out, this`lost, slots, put
      ensures Valid() && Now() == Handled(old(Now()), cpu % NPUT, keep, ok)
      ensures [x] == old(Now()).slots[Slot(slots.Length, old(trueCompleted))]
    {
      hide Ok, All, Below, Held, Completed, Freed, Slot;
      OkShape(Now());
      CompleteKeeps(Now());
      x := TakeDone();
      if !keep {
        PacketFree(cpu, x, ok, 0);
      }
    }

    /** The loop of sfxge_rx_qcomplete: keep says which packets are passed on rather than discarded, ok
        whether a discarded one gets a new block.  chain is the list passed on to coalescing. */
    method Complete(cpu: nat, keep: seq<bool>, ok: seq<bool>) returns (chain: seq<Id>)
      requires Valid() && |keep| == |ok| == truePending - trueCompleted
      modifies this, slots, put
      ensures Valid() && trueCompleted == truePending == old(truePending) && trueAdded == old(trueAdded) && get == old(get)
      ensures Ok(old(Now())) && |keep| == |Due(old(Now()))| && chain == Chosen(Due(old(Now())), keep)
      ensures Now() == AllHandled(old(Now()), cpu % NPUT, keep, ok) && chain == PassedOn(old(Now()), cpu % NPUT, keep, ok)
    {
      hide Ok, All, Below, Held, Handled, Slot, AllHandled, PassedOn, Freed, Completed, Shape, Wrap32, Chosen;
      ghost var p := Now();
      OkShape(p);
      RingFits(slots.Length);
      AllHandledKeeps(p, cpu % NPUT, keep, ok);
      PassedAreChosen(p, cpu % NPUT, keep, ok);
      chain := [];
      var left, blocks := keep, ok;
      SameCounter(truePending, trueCompleted);
      while completed != pending
        invariant Valid() && |left| == |blocks| == truePending - trueCompleted && truePending == old(truePending)
        invariant completed == pending <==> left == []
        invariant SoFar(p, Now(), cpu % NPUT, keep, ok, left, blocks, chain)
        decreases |left|
      {
        ghost var q, before := Now(), chain;
        HandledUnfolds(q, cpu % NPUT, left, blocks);
        chain := CompleteNext(cpu, left[0], blocks[0], chain);
        SoFarNext(p, q, cpu % NPUT, keep, ok, left, blocks, before);
        left, blocks := left[1..], blocks[1..];
        OkShape(Now());
        SameCounter(truePending, trueCompleted);
      }
      NothingLeft(Now(), cpu % NPUT);
    }

    /** One round, and the packet at the end of the chain if it is passed on. */
    method CompleteNext(cpu: nat, keep: bool, ok: bool, chain: seq<Id>) returns (chain': seq<Id>)
      requires Valid() && trueCompleted < truePending
      modifies this`loaned, this`trueLoaned, this`completed, this`trueCompleted, this`out, this`lost, slots, put
      ensures Valid() && Now() == Handled(old(Now()), cpu % NPUT, keep, ok)
      ensures trueCompleted == old(trueCompleted) + 1
      ensures chain' == chain + (if keep then old(Now()).slots[Slot(slots.Length, old(trueCompleted))] else [])
    {
      hide Ok, All, Below, Held, Handled, Slot;
      OkShape(Now());
      HandledKeeps(Now(), cpu % NPUT, keep, ok);
      var x := CompleteOne(cpu, keep, ok);
      chain' := if keep then chain + [x] else chain;
    }

    /** The ring part of sfxge_rx_qstop: every packet in the ring is discarded, and the ring is empty. */
    method Stop(cpu: nat, ok: seq<bool>)
      requires Valid() && |ok| == trueAdded - trueCompleted
      modifies this, slots, put
      ensures Valid() && added == pending == completed == 0 && get == old(get) && out == old(out)
      ensures forall i :: 0 <= i < slots.Length ==> slots[i] == []
      ensures (forall k :: 0 <= k < |ok| ==> ok[k]) ==> All(Now()) == old(All(Now()))
    {
      hide Ok, All, Held, Slot, AllHandled, PassedOn, Valid, Sane, Now, Below, Wrap32;
      ghost var p := Now();
      ValidIs(this);
      OkShape(p);
      RingFits(slots.Length);
      CounterDistance(trueAdded, trueCompleted);
      HardwareKeeps(p, trueAdded - truePending);
      var drop := seq(Sub32(added, completed), _ => false);
      pending, truePending := added, trueAdded;
      ghost var q := Now();
      ValidIs(this);
      StillBelow(p, q, next, multiset{});
      var chain := Complete(cpu, drop, ok);
      AllHandledKeeps(q, cpu % NPUT, drop, ok);
      NonePassed(q, cpu % NPUT, drop, ok);
      ghost var r := Now();
      ValidIs(this);
      EmptyRing(r);
      WrapNothing();
      added, pending, completed := 0, 0, 0;
      trueAdded, truePending, trueCompleted := 0, 0, 0;
      ValidIs(this);
      StillBelow(r, Now(), next, multiset{});
    }
  }

  lemma WrapSub(x: int, d: nat)
    ensures Sub32(Wrap32(x), Wrap32(d)) == Wrap32(x - d)
  {
    assert Wrap32(x) - Wrap32(d) == (x - d) + WORD32 * (d / WORD32 - x / WORD32);
    WrapMultiple(x - d, d / WORD32 - x / WORD32);
  }

  lemma RoundTrip(start: nat, left: nat)
    requires start < NPUT && left < NPUT
    ensures (start + (NPUT - left)) % NPUT == start <==> left == 0
    ensures ((start + (NPUT - (left + 1))) % NPUT + 1) % NPUT == (start + (NPUT - left)) % NPUT
    ensures start % NPUT == start
  {
  }

  lemma SwizzledUnfolds(p: Pool, id: nat, n: nat)
    requires Shape(p) && id < NPUT && n > 0
    ensures Shape(Swizzled(p, id)) && SwizzledFrom(p, id, n) == SwizzledFrom(Swizzled(p, id), (id + 1) % NPUT, n - 1)
    ensures SwizzledFrom(Swizzled(p, id), (id + 1) % NPUT, 0) == Swizzled(p, id)
  {
  }

  lemma RefilledUnfolds(p: Pool, n: nat, stale: set<Id>)
    requires Shape(p)
    ensures RefilledBy(p, 0, stale) == p
    ensures n > 0 ==> RefilledBy(p, n, stale) == if p.get == [] then p else RefilledBy(RefilledOne(p, stale), n - 1, stale)
  {
  }

  lemma RefilledBelow(p: Pool, q: Pool, r: Pool, next: Id, stale: set<Id>)
    requires Below(p, next) && All(q) == All(p) && OnlyStaleGone(q, r, stale)
    ensures Below(r, next)
  {
    forall x | x in All(r)
      ensures x < next
    {
      assert x in All(q);
    }
  }

  lemma {:induction false} FilledSnoc(p: Pool, n: nat, first: Id)
    requires Shape(p)
    ensures FilledBy(p, 0, first) == p
    ensures FilledBy(p, n + 1, first) == Posted(FilledBy(p, n, first), first + n)
    decreases n
  {
    if n > 0 {
      FilledSnoc(Posted(p, first), n - 1, first + 1);
    }
  }

  lemma HandledUnfolds(p: Pool, cpu: nat, keep: seq<bool>, ok: seq<bool>)
    requires Ok(p) && cpu < NPUT && |keep| == |ok| == p.pending - p.completed && keep != []
    ensures |p.slots[Slot(|p.slots|, p.completed)]| == 1
    ensures var q := Handled(p, cpu, keep[0], ok[0]);
      && Ok(q) && q.pending == p.pending && q.added == p.added && q.get == p.get && |keep| - 1 == q.pending - q.completed
      && AllHandled(p, cpu, keep, ok) == AllHandled(q, cpu, keep[1..], ok[1..])
      && PassedOn(p, cpu, keep, ok) ==
           (if keep[0] then p.slots[Slot(|p.slots|, p.completed)] else []) + PassedOn(q, cpu, keep[1..], ok[1..])
  {
    HandledKeeps(p, cpu, keep[0], ok[0]);
  }

  /** From p the rounds have come to q with left and blocks still to do, and chain put out. */
  ghost predicate SoFar(p: Pool, q: Pool, cpu: nat, keep: seq<bool>, ok: seq<bool>, left: seq<bool>, blocks: seq<bool>, chain: seq<Id>)
    requires Ok(p) && Ok(q) && cpu < NPUT && |keep| == |ok| == p.pending - p.completed && |left| == |blocks| == q.pending - q.completed
  {
    && AllHandled(p, cpu, keep, ok) == AllHandled(q, cpu, left, blocks)
    && PassedOn(p, cpu, keep, ok) == chain + PassedOn(q, cpu, left, blocks)
    && q.added == p.added && q.get == p.get
  }

  lemma SoFarNext(p: Pool, q: Pool, cpu: nat, keep: seq<bool>, ok: seq<bool>, left: seq<bool>, blocks: seq<bool>, chain: seq<Id>)
    requires Ok(p) && Ok(q) && cpu < NPUT && |keep| == |ok| == p.pending - p.completed && |left| == |blocks| == q.pending - q.completed
    requires left != [] && SoFar(p, q, cpu, keep, ok, left, blocks, chain)
    ensures |q.slots[Slot(|q.slots|, q.completed)]| == 1
    ensures var r := Handled(q, cpu, left[0], blocks[0]);
      && Ok(r) && r.pending - r.completed == |left| - 1
      && SoFar(p, r, cpu, keep, ok, left[1..], blocks[1..],
               chain + (if left[0] then q.slots[Slot(|q.slots|, q.completed)] else []))
  {
    hide Ok, Handled, AllHandled, PassedOn, Slot;
    HandledUnfolds(q, cpu, left, blocks);
  }

  lemma NothingLeft(p: Pool, cpu: nat)
    requires cpu < NPUT && Ok(p) && p.pending == p.completed
    ensures AllHandled(p, cpu, [], []) == p && PassedOn(p, cpu, [], []) == []
  {
  }

  /** When every packet is discarded, none is passed on. */
  lemma {:induction false} NonePassed(p: Pool, cpu: nat, keep: seq<bool>, ok: seq<bool>)
    requires Ok(p) && cpu < NPUT && |keep| == |ok| == p.pending - p.completed
    requires forall k :: 0 <= k < |keep| ==> !keep[k]
    ensures PassedOn(p, cpu, keep, ok) == []
    decreases |keep|
  {
    hide Ok, Handled, Slot;
    if keep != [] {
      HandledUnfolds(p, cpu, keep, ok);
      NonePassed(Handled(p, cpu, keep[0], ok[0]), cpu, keep[1..], ok[1..]);
    }
  }
}
