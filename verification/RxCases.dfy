/** What receive coalescing loses, shown on packets: the flags of a segment in front of the last one of its frame,
    and the order of a flow that a never claimed table entry is mistaken for (sfxge_rx.c:1353-1401, 1661-1705). */
module RxCases {
  import opened Options
  import opened Words
  import opened RxStreams
  import opened RxFlows
  import opened RxOrder
  import opened RxLro

  /** Segment k of a flow that sends single bytes.  Segment 19 is the only one with FIN and ACK. */
  function Seg(key: FlowKey, k: nat): Packet
    requires k < WORD32
  {
    RawPacket(k, true, true, false, key, k, 0, Header(41, 0, 0, TcpFlags(k == 19, false, false, false, k == 19, false)), [0])
  }

  function Segs(key: FlowKey, m: nat, k: nat): seq<Packet>
    requires m <= k < WORD32
  {
    seq<Packet>(k - m, j requires 0 <= j < k - m => Seg(key, m + j))
  }

  /** The table after k segments of one flow: entry i counts them, and nothing is held. */
  function Counting(i: nat, tag: u32, key: FlowKey, k: u32, chain: seq<Frame>): Lro
    requires i < MAX_FLOW
  {
    Lro(Start().flows[i := Flow(tag, k, key, k, 0, [], 0)], chain, [])
  }

  lemma CountingAt(i: nat, tag: u32, key: FlowKey, k: u32, chain: seq<Frame>)
    requires i < MAX_FLOW
    ensures var s := Counting(i, tag, key, k, chain);
      && |s.flows| == MAX_FLOW && s.flows[i] == Flow(tag, k, key, k, 0, [], 0) && s.chain == chain && s.occupied == []
  {
  }

  lemma CoalescedLast(c: Config, s: Lro, front: seq<Packet>, p: Packet, now: int)
    requires |s.flows| == MAX_FLOW
    ensures var r := Coalesced(c, s, front, now); Coalesced(c, s, front + [p], now) == One(c, r.0, p, now, r.1)
  {
    hide One;
    assert (front + [p])[..|front|] == front;
  }

  lemma SegsLast(key: FlowKey, m: nat, k: nat)
    requires m <= k < WORD32 - 1
    ensures Segs(key, m, k + 1) == Segs(key, m, k) + [Seg(key, k)]
  {
  }

  lemma SinglesStep(packets: seq<Packet>, p: Packet)
    ensures Singles(packets + [p]) == Singles(packets) + [Frame([p], p.hdr)]
  {
    SinglesLast(packets + [p]);
    assert (packets + [p])[..|packets|] == packets;
  }

  /** Only the last update of an entry shows. */
  lemma UpdateTwice(i: nat, f: Flow, g: Flow)
    requires i < MAX_FLOW
    ensures |Start().flows| == MAX_FLOW && Start().flows[i] == ZERO_FLOW
    ensures Start().flows[i := f][i := g] == Start().flows[i := g]
  {
  }

  /** A packet of the current flow is added to its entry. */
  lemma OneAdded(c: Config, s: Lro, i: nat, f: Flow, p: Packet)
    requires |s.flows| == MAX_FLOW && i < MAX_FLOW && s.flows[i] == f && f.key == p.key && Eligible(p)
    ensures var t := Lro(s.flows[i := Added(c, f, p, 0)], s.chain + Emitted(c, f, p, 0), Occupied(c, s.occupied, i, f, p, 0));
      One(c, s, p, 0, i) == (if Continues(f, p, 0, c.rto) then t else Passed(t, p), i)
  {
    hide Added, Emitted, Occupied, Continues;
  }

  lemma CountAdded(c: Config, tag: u32, key: FlowKey, k: nat)
    requires k < SLOW_START - 1 && c.rto >= 0
    ensures var f, p := Flow(tag, k, key, k, 0, [], 0), Seg(key, k);
      && !Continues(f, p, 0, c.rto) && Emitted(c, f, p, 0) == []
      && Added(c, f, p, 0) == Flow(tag, k + 1, key, k + 1, 0, [], 0)
  {
  }

  /** During slow start a segment is only counted. */
  lemma CountOne(c: Config, i: nat, tag: u32, key: FlowKey, k: nat, chain: seq<Frame>)
    requires i < MAX_FLOW && k < SLOW_START - 1 && c.rto >= 0
    ensures var p := Seg(key, k);
      One(c, Counting(i, tag, key, k, chain), p, 0, i) == (Counting(i, tag, key, k + 1, chain + [Frame([p], p.hdr)]), i)
  {
    CountingAt(i, tag, key, k, chain);
    CountAdded(c, tag, key, k);
    OneAdded(c, Counting(i, tag, key, k, chain), i, Flow(tag, k, key, k, 0, [], 0), Seg(key, k));
    UpdateTwice(i, Flow(tag, k, key, k, 0, [], 0), Flow(tag, k + 1, key, k + 1, 0, [], 0));
    hide One, Added, Emitted, Continues;
    assert chain + [] == chain;
  }

  /** A flow that counts m segments counts k when the batch goes on with those up to k. */
  lemma {:induction false} Ramp(c: Config, front: seq<Packet>, i: nat, tag: u32, key: FlowKey, m: nat, k: nat,
                                chain: seq<Frame>)
    requires i < MAX_FLOW && m <= k < SLOW_START && c.rto >= 0
    requires Coalesced(c, Start(), front, 0) == (Counting(i, tag, key, m, chain), i)
    ensures Coalesced(c, Start(), front + Segs(key, m, k), 0) == (Counting(i, tag, key, k, chain + Singles(Segs(key, m, k))), i)
  {
    hide Counting, Coalesced, One, Seg;
    if k == m {
      assert front + Segs(key, m, k) == front && chain + Singles(Segs(key, m, k)) == chain;
    } else {
      var some := Segs(key, m, k - 1);
      Ramp(c, front, i, tag, key, m, k - 1, chain);
      SegsLast(key, m, k - 1);
      CoalescedLast(c, Start(), front + some, Seg(key, k - 1), 0);
      CountOne(c, i, tag, key, k - 1, chain + Singles(some));
      SinglesStep(some, Seg(key, k - 1));
      LastBehind(front, some, [Seg(key, k - 1)]);
      LastBehind(chain, Singles(some), [Frame([Seg(key, k - 1)], Seg(key, k - 1).hdr)]);
    }
  }

  /** The table when entry i holds the given segments. */
  function Holding(i: nat, tag: u32, key: FlowKey, k: u32, held: seq<Packet>, len: nat, chain: seq<Frame>): Lro
    requires i < MAX_FLOW
  {
    Lro(Start().flows[i := Flow(tag, k, key, k, 0, held, len)], chain, [i])
  }

  lemma HoldingAt(i: nat, tag: u32, key: FlowKey, k: u32, held: seq<Packet>, len: nat, chain: seq<Frame>)
    requires i < MAX_FLOW
    ensures var s := Holding(i, tag, key, k, held, len, chain);
      && |s.flows| == MAX_FLOW && s.flows[i] == Flow(tag, k, key, k, 0, held, len) && s.chain == chain && s.occupied == [i]
  {
  }

  lemma HeldAdded(c: Config, tag: u32, key: FlowKey, i: nat)
    requires c.rto >= 0
    ensures var f, p := Flow(tag, 19, key, 19, 0, [], 0), Seg(key, 19);
      && Continues(f, p, 0, c.rto) && Emitted(c, f, p, 0) == [] && Occupied(c, [], i, f, p, 0) == [i]
      && Added(c, f, p, 0) == Flow(tag, 20, key, 20, 0, [p], 41)
  {
    hide LengthLimit;
    assert ChainLength([Seg(key, 19)]) == 41;
  }

  /** The first segment past slow start is held. */
  lemma HoldOne(c: Config, i: nat, tag: u32, key: FlowKey, chain: seq<Frame>)
    requires i < MAX_FLOW && c.rto >= 0
    ensures One(c, Counting(i, tag, key, 19, chain), Seg(key, 19), 0, i)
      == (Holding(i, tag, key, 20, [Seg(key, 19)], 41, chain), i)
  {
    CountingAt(i, tag, key, 19, chain);
    HeldAdded(c, tag, key, i);
    OneAdded(c, Counting(i, tag, key, 19, chain), i, Flow(tag, 19, key, 19, 0, [], 0), Seg(key, 19));
    UpdateTwice(i, Flow(tag, 19, key, 19, 0, [], 0), Flow(tag, 20, key, 20, 0, [Seg(key, 19)], 41));
    hide One, Added, Emitted, Continues, Occupied;
    assert chain + [] == chain;
  }

  lemma PairAdded(c: Config, tag: u32, key: FlowKey, i: nat)
    requires c.rto >= 0
    ensures var f, p := Flow(tag, 20, key, 20, 0, [Seg(key, 19)], 41), Seg(key, 20);
      && Continues(f, p, 0, c.rto) && Emitted(c, f, p, 0) == [] && Occupied(c, [i], i, f, p, 0) == [i]
      && Added(c, f, p, 0) == Flow(tag, 21, key, 21, 0, [Seg(key, 19), p], 42)
  {
    var two := [Seg(key, 19), Seg(key, 20)];
    assert two == [Seg(key, 19)] + [Seg(key, 20)] && two[..1] == [Seg(key, 19)];
    assert ChainLength(two) == 42;
  }

  /** And the next one joins it. */
  lemma HoldTwo(c: Config, i: nat, tag: u32, key: FlowKey, chain: seq<Frame>)
    requires i < MAX_FLOW && c.rto >= 0
    ensures One(c, Holding(i, tag, key, 20, [Seg(key, 19)], 41, chain), Seg(key, 20), 0, i)
      == (Holding(i, tag, key, 21, [Seg(key, 19), Seg(key, 20)], 42, chain), i)
  {
    HoldingAt(i, tag, key, 20, [Seg(key, 19)], 41, chain);
    PairAdded(c, tag, key, i);
    var was := Flow(tag, 20, key, 20, 0, [Seg(key, 19)], 41);
    OneAdded(c, Holding(i, tag, key, 20, [Seg(key, 19)], 41, chain), i, was, Seg(key, 20));
    UpdateTwice(i, was, Flow(tag, 21, key, 21, 0, [Seg(key, 19), Seg(key, 20)], 42));
    hide One, Added, Emitted, Continues, Occupied, Seg;
    assert chain + [] == chain;
  }

  lemma FlushHolding(i: nat, tag: u32, key: FlowKey, k: u32, held: seq<Packet>, len: nat, chain: seq<Frame>)
    requires i < MAX_FLOW
    ensures var s := Holding(i, tag, key, k, held, len, chain);
      Flushed(s.(occupied := []), s.occupied).chain == chain + Completed(held)
  {
    HoldingAt(i, tag, key, k, held, len, chain);
    hide Holding, Completed;
    var s := Holding(i, tag, key, k, held, len, chain).(occupied := []);
    assert [i][1..] == [];
    FlushEnds(CompletedAt(s, i));
  }

  // ---------------------------------------------------------------- flags

  const FIN: TcpFlags -> bool := (t: TcpFlags) => t.fin
  const ACK: TcpFlags -> bool := (t: TcpFlags) => t.ack

  /** The first segment of a flow claims its entry. */
  lemma FirstOne(c: Config, key: FlowKey)
    requires c.rto >= 0 && TagFor(c.hash, key.tuple) != 0
    ensures var i, p := SlotFor(c.hash, key.tuple), Seg(key, 0);
      One(c, Start(), p, 0, -1) == (Counting(i, TagFor(c.hash, key.tuple), key, 1, [Frame([p], p.hdr)]), i)
  {
    var p := Seg(key, 0);
    var i := SlotFor(c.hash, key.tuple);
    var tag := TagFor(c.hash, key.tuple);
    CountAdded(c, tag, key, 0);
    UpdateTwice(i, Flow(tag, 0, key, 0, 0, [], 0), Flow(tag, 1, key, 1, 0, [], 0));
    assert NewFlow(c, ZERO_FLOW, p, 0) == Flow(tag, 0, key, 0, 0, [], 0);
    hide SlotFor, TagFor, Added, Emitted, Continues, NewFlow, Start;
    var none: seq<Frame> := [];
    assert none + [Frame([p], p.hdr)] == [Frame([p], p.hdr)] && none + [] == none;
  }

  /** The frame that loses the FIN and the ACK of its first segment. */
  function LosingPair(key: FlowKey): Frame {
    Frame([Seg(key, 19), Seg(key, 20)], Header(42, 0, 0, Seg(key, 20).hdr.flags))
  }

  lemma PairLoses(key: FlowKey)
    ensures Completed([Seg(key, 19), Seg(key, 20)]) == [LosingPair(key)]
    ensures Loses(LosingPair(key), FIN) && Loses(LosingPair(key), ACK)
  {
    var two := [Seg(key, 19), Seg(key, 20)];
    assert two[..1] == [Seg(key, 19)];
    assert ChainLength(two) == 42;
    assert two[0].hdr.flags.fin && two[0].hdr.flags.ack;
  }

  function FinRun(key: FlowKey): seq<Batch> {
    [Batch(Segs(key, 0, 21), 0, true)]
  }

  /** Slow start is over behind the first twenty segments. */
  lemma FinRunHolds(c: Config, key: FlowKey)
    requires c.rto >= 0 && TagFor(c.hash, key.tuple) != 0
    ensures var i := SlotFor(c.hash, key.tuple); exists chain ::
      Coalesced(c, Start(), Segs(key, 0, 20), 0) == (Holding(i, TagFor(c.hash, key.tuple), key, 20, [Seg(key, 19)], 41, chain), i)
  {
    hide One, Coalesced, Counting, Holding, Seg, Singles, SlotFor, TagFor, Start;
    var i, tag, p := SlotFor(c.hash, key.tuple), TagFor(c.hash, key.tuple), Seg(key, 0);
    var chain := [Frame([p], p.hdr)];
    StartLength();
    FirstOne(c, key);
    FirstIsOne(c, Start(), p);
    Ramp(c, [p], i, tag, key, 1, 19, chain);
    assert [p] + Segs(key, 1, 19) == Segs(key, 0, 19);
    hide Segs;
    CoalescedLast(c, Start(), Segs(key, 0, 19), Seg(key, 19), 0);
    HoldOne(c, i, tag, key, chain + Singles(Segs(key, 1, 19)));
    SegsLast(key, 0, 19);
  }

  lemma StartLength()
    ensures |Start().flows| == MAX_FLOW
  {
  }

  lemma FirstIsOne(c: Config, s: Lro, p: Packet)
    requires |s.flows| == MAX_FLOW
    ensures Coalesced(c, s, [p], 0) == One(c, s, p, 0, -1)
  {
    hide One;
    assert [p][..0] == [];
  }

  lemma FinRunEmits(c: Config, key: FlowKey)
    requires c.rto >= 0 && c.mode != Off && TagFor(c.hash, key.tuple) != 0
    ensures LosingPair(key) in Out(c, FinRun(key))
  {
    hide One, Coalesced, Holding, Seg, Segs, SlotFor, TagFor, Start, Flushed, Completed, LosingPair;
    var i, tag := SlotFor(c.hash, key.tuple), TagFor(c.hash, key.tuple);
    var pair := [Seg(key, 19), Seg(key, 20)];
    FinRunHolds(c, key);
    StartLength();
    var chain :| Coalesced(c, Start(), Segs(key, 0, 20), 0) == (Holding(i, tag, key, 20, [Seg(key, 19)], 41, chain), i);
    CoalescedLast(c, Start(), Segs(key, 0, 20), Seg(key, 20), 0);
    HoldTwo(c, i, tag, key, chain);
    SegsLast(key, 0, 20);
    FlushHolding(i, tag, key, 21, pair, 42, chain);
    PairLoses(key);
    OutOfOne(c, FinRun(key)[0]);
  }

  lemma OutOfOne(c: Config, b: Batch)
    ensures After(c, [b]) == AfterBatch(c, Start(), b).(chain := []) && Out(c, [b]) == AfterBatch(c, Start(), b).chain
  {
    var none: seq<Batch> := [];
    assert [b][..0] == none;
    var s := AfterBatch(c, Start(), b);
    assert [] + s.chain == s.chain;
  }

  /** Twenty-one segments of one flow in order.  From a new queue, the twentieth and last but one loses its FIN
      and its ACK, in either mode of coalescing. */
  method LosesFin(c: Config, key: FlowKey) returns (out: seq<Frame>, frame: Frame)
    requires c.rto >= 0 && c.mode != Off && TagFor(c.hash, key.tuple) != 0
    ensures out == Out(c, FinRun(key)) && frame in out
    ensures Loses(frame, FIN) && Loses(frame, ACK)
  {
    out := Receive(c, FinRun(key));
    FinRunEmits(c, key);
    PairLoses(key);
    frame := LosingPair(key);
  }

  // ---------------------------------------------------------------- order

  /** A packet with tag zero, then twenty segments of the flow with the all-zero key in one batch, and the next one
      in another. */
  function ZeroRun(t: Tuple): seq<Batch> {
    [Batch([Seg(FlowKey(t, 0), 0)] + Segs(ZERO_KEY, 0, 20), 0, false), Batch([Seg(ZERO_KEY, 20)], 0, true)]
  }

  /** A packet with tag zero makes the last entry the current flow, though the entry is not its own. */
  lemma ZeroTagOne(c: Config, t: Tuple)
    requires TagFor(c.hash, t) == 0 && TagFor(c.hash, ZERO_KEY.tuple) != 0
    ensures var p := Seg(FlowKey(t, 0), 0);
      One(c, Start(), p, 0, -1) == (Counting(LAST_SLOT, 0, ZERO_KEY, 0, [Frame([p], p.hdr)]), LAST_SLOT)
  {
    var p := Seg(FlowKey(t, 0), 0);
    ZeroTagSlot(c.hash, t);
    UpdateTwice(LAST_SLOT, ZERO_FLOW, ZERO_FLOW);
    assert Start().flows[LAST_SLOT := ZERO_FLOW] == Start().flows;
    hide SlotFor, TagFor, Start;
    var none: seq<Frame> := [];
    assert none + [Frame([p], p.hdr)] == [Frame([p], p.hdr)];
  }

  /** The table behind the first batch: the entry that nobody claimed holds segment 19. */
  lemma ZeroRunHolds(c: Config, t: Tuple)
    requires c.rto >= 0 && TagFor(c.hash, t) == 0 && TagFor(c.hash, ZERO_KEY.tuple) != 0
    ensures var p := Seg(FlowKey(t, 0), 0);
      Coalesced(c, Start(), ZeroRun(t)[0].packets, 0).0
      == Holding(LAST_SLOT, 0, ZERO_KEY, 20, [Seg(ZERO_KEY, 19)], 41, [Frame([p], p.hdr)] + Singles(Segs(ZERO_KEY, 0, 19)))
  {
    var p := Seg(FlowKey(t, 0), 0);
    var chain := [Frame([p], p.hdr)];
    ZeroTagOne(c, t);
    FirstIsOne(c, Start(), p);
    Ramp(c, [p], LAST_SLOT, 0, ZERO_KEY, 0, 19, chain);
    SegsLast(ZERO_KEY, 0, 19);
    LastBehind([p], Segs(ZERO_KEY, 0, 19), [Seg(ZERO_KEY, 19)]);
    CoalescedLast(c, Start(), [p] + Segs(ZERO_KEY, 0, 19), Seg(ZERO_KEY, 19), 0);
    HoldOne(c, LAST_SLOT, 0, ZERO_KEY, chain + Singles(Segs(ZERO_KEY, 0, 19)));
    hide One, Coalesced;
  }

  /** Without a current flow the next segment goes to its own slot, and is passed on there. */
  lemma NextIsPassed(c: Config, s: Lro, flow: Flow)
    requires c.rto >= 0 && TagFor(c.hash, ZERO_KEY.tuple) != 0 && flow.held != [] && flow.tag == 0
    requires s.flows == Start().flows[LAST_SLOT := flow]
    ensures var p := Seg(ZERO_KEY, 20); var r := One(c, s, p, 0, -1).0;
      && r.chain == s.chain + [Frame([p], p.hdr)] && r.occupied == s.occupied
      && |r.flows| == MAX_FLOW && r.flows[LAST_SLOT] == flow
  {
    var p := Seg(ZERO_KEY, 20);
    var i := SlotFor(c.hash, ZERO_KEY.tuple);
    var tag := TagFor(c.hash, ZERO_KEY.tuple);
    UpdateTwice(i, flow, flow);
    if i != LAST_SLOT {
      assert s.flows[i] == ZERO_FLOW;
      var f := NewFlow(c, ZERO_FLOW, p, 0);
      assert f == Flow(tag, 0, ZERO_KEY, 20, 0, [], 0);
      assert !Continues(f, p, 0, c.rto) && Emitted(c, f, p, 0) == [];
    }
    hide SlotFor, TagFor, Start, Continues, Emitted, Added;
    assert s.chain + [] == s.chain;
  }

  lemma OutOfTwo(c: Config, a: Batch, b: Batch)
    ensures After(c, [a]) == AfterBatch(c, Start(), a).(chain := []) && Shape(After(c, [a]))
    ensures Out(c, [a, b]) == AfterBatch(c, Start(), a).chain + AfterBatch(c, After(c, [a]), b).chain
  {
    OutOfOne(c, a);
    assert [a, b][..1] == [a];
    hide AfterBatch;
  }

  lemma AfterOpen(c: Config, s: Lro, packets: seq<Packet>)
    requires Shape(s) && c.mode != Off
    ensures AfterBatch(c, s, Batch(packets, 0, false)) == Coalesced(c, s, packets, 0).0
  {
    hide Coalesced;
  }

  /** A batch of one packet that ends a poll, with entry i the only one occupied. */
  lemma AfterLast(c: Config, s: Lro, p: Packet, i: nat, flow: Flow)
    requires Shape(s) && c.mode != Off && i < MAX_FLOW
    requires var r := One(c, s, p, 0, -1).0; r.occupied == [i] && r.flows[i] == flow
    ensures AfterBatch(c, s, Batch([p], 0, true)).chain == One(c, s, p, 0, -1).0.chain + Completed(flow.held)
  {
    FirstIsOne(c, s, p);
    hide One, Completed;
    var t := One(c, s, p, 0, -1).0;
    assert [i][1..] == [];
    FlushEnds(CompletedAt(t.(occupied := []), i));
  }

  lemma ZeroRunOut(c: Config, t: Tuple)
    requires c.rto >= 0 && c.mode != Off && TagFor(c.hash, t) == 0 && TagFor(c.hash, ZERO_KEY.tuple) != 0
    ensures Segments(Out(c, ZeroRun(t)))
      == [Seg(FlowKey(t, 0), 0)] + Segs(ZERO_KEY, 0, 19) + [Seg(ZERO_KEY, 20)] + [Seg(ZERO_KEY, 19)]
  {
    var p, x, y := Seg(FlowKey(t, 0), 0), Seg(ZERO_KEY, 20), Seg(ZERO_KEY, 19);
    var a, b := ZeroRun(t)[0], ZeroRun(t)[1];
    var first := [Frame([p], p.hdr)] + Singles(Segs(ZERO_KEY, 0, 19));
    var flow := Flow(0, 20, ZERO_KEY, 20, 0, [y], 41);
    ZeroRunHolds(c, t);
    HoldingAt(LAST_SLOT, 0, ZERO_KEY, 20, [y], 41, first);
    AfterOpen(c, Start(), a.packets);
    OutOfTwo(c, a, b);
    var s := After(c, [a]);
    NextIsPassed(c, s, flow);
    AfterLast(c, s, x, LAST_SLOT, flow);
    hide *;
    SegmentsOfRun(c, p, Segs(ZERO_KEY, 0, 19), x, y);
  }

  lemma SegmentsOfRun(c: Config, p: Packet, z: seq<Packet>, x: Packet, y: Packet)
    ensures Segments([Frame([p], p.hdr)] + Singles(z) + ([] + [Frame([x], x.hdr)] + Completed([y]))) == [p] + z + [x] + [y]
  {
    hide Segments, Singles, Completed;
    var first, next := [Frame([p], p.hdr)], [Frame([x], x.hdr)];
    SinglesAreGood(z, c.mode);
    SegmentsConcat(first, Singles(z));
    SegmentsConcat(first + Singles(z), next + Completed([y]));
    SegmentsConcat(next, Completed([y]));
    SegmentsOfOne([p], p.hdr);
    SegmentsOfOne([x], x.hdr);
    CompletedSegments([y]);
    assert [] + next == next;
    LastBehind([p] + z, [x], [y]);
  }

  lemma SegmentsOfOne(segs: seq<Packet>, hdr: Header)
    ensures Segments([Frame(segs, hdr)]) == segs
  {
    var none: seq<Frame> := [];
    assert none + [Frame(segs, hdr)] == [Frame(segs, hdr)];
    SegmentsAppend(none, Frame(segs, hdr));
    assert [] + segs == segs;
  }

  lemma StreamOfSegs(key: FlowKey, m: nat, k: nat)
    requires m <= k < WORD32
    ensures Stream(Segs(key, m, k), Some(key)) == Segs(key, m, k)
  {
    forall j | 0 <= j < k - m
      ensures StreamOf(Segs(key, m, k)[j]) == Some(key)
    {
      assert Segs(key, m, k)[j] == Seg(key, m + j);
    }
    StreamOfOneFlow(Segs(key, m, k), Some(key));
  }

  lemma StreamOfSeg(key: FlowKey, k: nat, other: FlowKey)
    requires k < WORD32
    ensures Stream([Seg(key, k)], Some(other)) == if key == other then [Seg(key, k)] else []
  {
    StreamOfPacket(Seg(key, k), Some(other));
  }

  lemma ArrivalsOfTwo(a: Batch, b: Batch)
    ensures Arrivals([a, b]) == a.packets + b.packets
  {
    var none: seq<Batch> := [];
    assert [a, b][..1] == [a] && [a][..0] == none;
    assert Arrivals([a]) == [] + a.packets == a.packets;
  }

  /** A stream that has the last two of some packets and those in the middle, but not the first. */
  lemma StreamOfFour(p: Packet, z: seq<Packet>, x: Packet, y: Packet, k: Option<FlowKey>)
    requires Stream([p], k) == [] && Stream(z, k) == z && Stream([x], k) == [x] && Stream([y], k) == [y]
    ensures Stream([p] + z + [x] + [y], k) == z + [x, y]
  {
    hide *;
    StreamConcat([p], z, k);
    StreamConcat([p] + z, [x], k);
    StreamConcat([p] + z + [x], [y], k);
    assert [] + z + [x] + [y] == z + [x, y];
  }

  /** In this run segment 20 of the zero-key flow overtakes segment 19. */
  lemma ZeroRunOvertakes(c: Config, t: Tuple)
    requires c.rto >= 0 && c.mode != Off && TagFor(c.hash, t) == 0 && TagFor(c.hash, ZERO_KEY.tuple) != 0
    ensures Stream(Arrivals(ZeroRun(t)), Some(ZERO_KEY)) == Segs(ZERO_KEY, 0, 19) + [Seg(ZERO_KEY, 19), Seg(ZERO_KEY, 20)]
    ensures Stream(Segments(Out(c, ZeroRun(t))), Some(ZERO_KEY))
      == Segs(ZERO_KEY, 0, 19) + [Seg(ZERO_KEY, 20), Seg(ZERO_KEY, 19)]
  {
    hide Stream, Out, Arrivals, Segs, Seg, TagFor, Segments;
    var p, x, y, k := Seg(FlowKey(t, 0), 0), Seg(ZERO_KEY, 20), Seg(ZERO_KEY, 19), Some(ZERO_KEY);
    var z := Segs(ZERO_KEY, 0, 19);
    ZeroRunOut(c, t);
    SegsLast(ZERO_KEY, 0, 19);
    ArrivalsOfTwo(ZeroRun(t)[0], ZeroRun(t)[1]);
    LastBehind([p], z, [y]);
    StreamOfSegs(ZERO_KEY, 0, 19);
    StreamOfSeg(FlowKey(t, 0), 0, ZERO_KEY);
    StreamOfSeg(ZERO_KEY, 19, ZERO_KEY);
    StreamOfSeg(ZERO_KEY, 20, ZERO_KEY);
    StreamOfFour(p, z, x, y, k);
    StreamOfFour(p, z, y, x, k);
  }

  lemma ZeroRunIsDisorderly(c: Config, t: Tuple)
    requires c.rto >= 0 && c.mode != Off && TagFor(c.hash, t) == 0 && TagFor(c.hash, ZERO_KEY.tuple) != 0
    ensures !(Stream(Segments(Out(c, ZeroRun(t))), Some(ZERO_KEY)) <= Stream(Arrivals(ZeroRun(t)), Some(ZERO_KEY)))
    ensures !Orderly(c, ZeroRun(t))
  {
    ZeroRunOvertakes(c, t);
    var z, x, y := Segs(ZERO_KEY, 0, 19), Seg(ZERO_KEY, 20), Seg(ZERO_KEY, 19);
    assert (z + [x, y])[19] == x && (z + [y, x])[19] == y && x.id != y.id;
    hide Out, Arrivals, Stream, Segs, Seg, TagFor;
    assert !(z + [x, y] <= z + [y, x]);
  }

  /** Every run gives each stream to the stack in order exactly when no tuple has the tag of an entry that was never
      claimed while the all-zero tuple has another. */
  lemma OrderlyIff(c: Config)
    requires c.rto >= 0
    ensures (forall batches :: Orderly(c, batches)) <==> c.mode == Off || TagsDiffer(c.hash)
  {
    hide TagFor, Orderly;
    if c.mode == Off || TagsDiffer(c.hash) {
      forall batches
        ensures Orderly(c, batches)
      {
        if c.mode != Off {
          TagsDifferIsClear(c, batches);
        }
        ClearIsOrderly(c, batches);
      }
    } else {
      var t :| TagFor(c.hash, t) == 0;
      ZeroRunIsDisorderly(c, t);
    }
  }

  /** The same on the driver's own table: a queue that gives segment 20 to the stack in front of segment 19. */
  method OvertakesHeld(c: Config, t: Tuple) returns (out: seq<Frame>)
    requires c.rto >= 0 && c.mode != Off && TagFor(c.hash, t) == 0 && TagFor(c.hash, ZERO_KEY.tuple) != 0
    ensures Stream(Segments(out), Some(ZERO_KEY)) == Segs(ZERO_KEY, 0, 19) + [Seg(ZERO_KEY, 20), Seg(ZERO_KEY, 19)]
    ensures !(Stream(Segments(out), Some(ZERO_KEY)) <= Stream(Arrivals(ZeroRun(t)), Some(ZERO_KEY)))
  {
    hide *;
    out := Receive(c, ZeroRun(t));
    ZeroRunOvertakes(c, t);
    ZeroRunIsDisorderly(c, t);
  }
}
