/** What receive coalescing does to the TCP streams: completeness in every run, order in every run in which no
    unclaimed table entry is mistaken for a flow, and which flags get lost (sfxge_rx.c:1322-1705). */
module RxOrder {
  import opened Options
  import opened Words
  import opened RxStreams
  import opened RxFlows

  // ---------------------------------------------------------------- nothing is lost or repeated

  /** All packets that the table holds. */
  function HeldAll(flows: seq<Flow>): multiset<Packet> {
    if flows == [] then multiset{}
    else HeldAll(flows[..|flows| - 1]) + multiset(flows[|flows| - 1].held)
  }

  lemma Regroup(o: multiset<Packet>, x: multiset<Packet>, h: multiset<Packet>, a: multiset<Packet>, m: multiset<Packet>)
    requires x + h == a + m
    ensures (o + x) + h == (o + a) + m && (x + o) + h == (a + o) + m
  {
    assert (o + x) + h == o + (x + h) && (x + o) + h == (x + h) + o;
  }

  lemma HeldAllLast(flows: seq<Flow>)
    requires flows != []
    ensures var n := |flows| - 1; HeldAll(flows) == HeldAll(flows[..n]) + multiset(flows[n].held)
  {
  }

  lemma {:induction false} HeldAllUpdate(flows: seq<Flow>, i: nat, f: Flow)
    requires i < |flows|
    ensures HeldAll(flows[i := f]) + multiset(flows[i].held) == HeldAll(flows) + multiset(f.held)
  {
    hide HeldAll;
    var n := |flows| - 1;
    var after := flows[i := f];
    HeldAllLast(flows);
    HeldAllLast(after);
    if i == n {
      assert after[..n] == flows[..n];
      Regroup(HeldAll(flows[..n]), multiset(f.held), multiset(flows[n].held), multiset(flows[n].held), multiset(f.held));
    } else {
      HeldAllUpdate(flows[..n], i, f);
      assert after[..n] == flows[..n][i := f] && after[n] == flows[n];
      Regroup(multiset(flows[n].held), HeldAll(flows[..n][i := f]), multiset(flows[i].held), HeldAll(flows[..n]),
              multiset(f.held));
    }
  }

  lemma {:induction false} HeldAllEmpty(flows: seq<Flow>)
    requires forall i :: 0 <= i < |flows| ==> flows[i].held == []
    ensures HeldAll(flows) == multiset{}
  {
    if flows != [] {
      HeldAllEmpty(flows[..|flows| - 1]);
      var nothing: seq<Packet> := [];
      assert multiset(nothing) == multiset{};
    }
  }

  /** All packets that have been put out or are still held. */
  function Kept(s: Lro): multiset<Packet> {
    multiset(Segments(s.chain)) + HeldAll(s.flows)
  }

  lemma PassedKeeps(s: Lro, p: Packet)
    ensures Kept(Passed(s, p)) == Kept(s) + multiset{p}
  {
    SegmentsAppend(s.chain, Frame([p], p.hdr));
  }

  /** Changing entry i and putting frames out keeps what the entry held, and more. */
  lemma MovedKeeps(s: Lro, t: Lro, i: nat, f: Flow, frames: seq<Frame>, more: seq<Packet>)
    requires i < |s.flows| && t.flows == s.flows[i := f] && t.chain == s.chain + frames
    requires Segments(frames) + f.held == s.flows[i].held + more
    ensures Kept(t) == Kept(s) + multiset(more)
  {
    hide Segments, HeldAll;
    HeldAllUpdate(s.flows, i, f);
    SegmentsConcat(s.chain, frames);
    var old', new', was, now := HeldAll(s.flows), HeldAll(t.flows), multiset(s.flows[i].held), multiset(f.held);
    var g := multiset(Segments(frames));
    assert multiset(Segments(frames) + f.held) == g + now && multiset(s.flows[i].held + more) == was + multiset(more);
    assert (new' + g) + was == (new' + was) + g == (old' + now) + g == old' + (g + now) == (old' + multiset(more)) + was;
    CancelPackets(new' + g, old' + multiset(more), was);
    var c := multiset(Segments(s.chain));
    assert Kept(t) == (c + g) + new' == c + (new' + g);
    assert Kept(s) + multiset(more) == c + (old' + multiset(more));
  }

  lemma CancelPackets(a: multiset<Packet>, b: multiset<Packet>, c: multiset<Packet>)
    requires a + c == b + c
    ensures a == b
  {
    forall x
      ensures a[x] == b[x]
    {
      assert (a + c)[x] == (b + c)[x];
    }
  }

  lemma AddedToKeeps(c: Config, s: Lro, i: nat, p: Packet, now: int)
    requires i < |s.flows|
    ensures Kept(AddedTo(c, s, i, p, now)) == Kept(s) + multiset{p}
  {
    hide Kept, Added, Emitted, Occupied, Continues;
    var f := s.flows[i];
    AddedSegments(c, f, p, now);
    var t := Lro(s.flows[i := Added(c, f, p, now)], s.chain + Emitted(c, f, p, now), Occupied(c, s.occupied, i, f, p, now));
    MovedKeeps(s, t, i, Added(c, f, p, now), Emitted(c, f, p, now), if Continues(f, p, now, c.rto) then [p] else []);
    PassedKeeps(t, p);
  }

  lemma NewFlowKeeps(c: Config, s: Lro, i: nat, p: Packet, now: int)
    requires i < |s.flows|
    ensures Kept(s.(flows := s.flows[i := NewFlow(c, s.flows[i], p, now)])) == Kept(s)
  {
    HeldAllUpdate(s.flows, i, NewFlow(c, s.flows[i], p, now));
    CancelPackets(HeldAll(s.flows[i := NewFlow(c, s.flows[i], p, now)]), HeldAll(s.flows), multiset(s.flows[i].held));
  }

  /** Every packet received is put out or held. */
  lemma OneKeeps(c: Config, s: Lro, p: Packet, now: int, current: int)
    requires |s.flows| == MAX_FLOW && -1 <= current < MAX_FLOW
    ensures Kept(One(c, s, p, now, current).0) == Kept(s) + multiset{p}
  {
    hide Kept, AddedTo, Passed, NewFlow, SlotFor, TakesOver, Eligible;
    var i := SlotFor(c.hash, p.key.tuple);
    PassedKeeps(s, p);
    if current != -1 {
      AddedToKeeps(c, s, current, p, now);
    }
    AddedToKeeps(c, s, i, p, now);
    NewFlowKeeps(c, s, i, p, now);
    AddedToKeeps(c, s.(flows := s.flows[i := NewFlow(c, s.flows[i], p, now)]), i, p, now);
  }

  lemma {:induction false} CoalescedKeeps(c: Config, s: Lro, packets: seq<Packet>, now: int)
    requires |s.flows| == MAX_FLOW
    ensures Kept(Coalesced(c, s, packets, now).0) == Kept(s) + multiset(packets)
  {
    hide Kept, One;
    if packets != [] {
      var n := |packets| - 1;
      CoalescedKeeps(c, s, packets[..n], now);
      var r := Coalesced(c, s, packets[..n], now);
      OneKeeps(c, r.0, packets[n], now, r.1);
      assert packets == packets[..n] + [packets[n]];
    } else {
      assert multiset(packets) == multiset{};
    }
  }

  lemma {:induction false} FlushedKeeps(s: Lro, list: seq<nat>)
    requires forall i :: i in list ==> i < |s.flows|
    ensures Kept(Flushed(s, list)) == Kept(s)
    decreases |list|
  {
    if list != [] {
      var i := list[0];
      assert i in list && forall j :: j in list[1..] ==> j in list;
      var f, t := s.flows[i], CompletedAt(s, i);
      hide Kept, Completed;
      CompletedSegments(f.held);
      assert Segments(Completed(f.held)) + [] == f.held + [];
      MovedKeeps(s, t, i, f.(held := [], len := 0), Completed(f.held), []);
      FlushedKeeps(t, list[1..]);
    }
  }

  lemma ReceivedKeeps(c: Config, s: Lro, b: Batch)
    requires |s.flows| == MAX_FLOW
    ensures Kept(Received(c, s, b)) == Kept(s) + multiset(b.packets)
  {
    if c.mode == Off {
      SinglesAreGood(b.packets, c.mode);
      SegmentsConcat(s.chain, Singles(b.packets));
      hide Segments, HeldAll, Singles;
    } else {
      hide Kept, Coalesced;
      CoalescedKeeps(c, s, b.packets, b.now);
    }
  }

  lemma BatchKeeps(c: Config, s: Lro, b: Batch)
    requires Shape(s)
    ensures Kept(AfterBatch(c, s, b)) == Kept(s) + multiset(b.packets)
  {
    ReceivedKeeps(c, s, b);
    CoalescedShape(c, s, b.packets, b.now);
    var t := Received(c, s, b);
    assert Kept(t.(occupied := [])) == Kept(t);
    hide Kept, Received, Flushed;
    if b.eop {
      FlushedKeeps(t.(occupied := []), t.occupied);
    }
  }

  /** In every run, whatever arrives, each packet received has been given to the stack once, or is held once. */
  lemma {:induction false} RunKeeps(c: Config, batches: seq<Batch>)
    ensures multiset(Segments(Out(c, batches))) + HeldAll(After(c, batches).flows) == multiset(Arrivals(batches))
  {
    if batches == [] {
      HeldAllEmpty(Start().flows);
    } else {
      var n := |batches| - 1;
      var s := After(c, batches[..n]);
      var t := AfterBatch(c, s, batches[n]);
      RunKeeps(c, batches[..n]);
      BatchKeeps(c, s, batches[n]);
      SegmentsConcat(Out(c, batches[..n]), t.chain);
      hide Segments, HeldAll, AfterBatch;
      NoSegments();
      Regroup(multiset(Segments(Out(c, batches[..n]))), multiset(Segments(t.chain)), HeldAll(t.flows),
              HeldAll(s.flows), multiset(batches[n].packets));
    }
  }

  /** At the end of a poll nothing is held. */
  lemma RunIsComplete(c: Config, batches: seq<Batch>)
    ensures multiset(Segments(Out(c, batches))) <= multiset(Arrivals(batches))
    ensures batches != [] && batches[|batches| - 1].eop ==>
      multiset(Segments(Out(c, batches))) == multiset(Arrivals(batches))
  {
    hide Out, After, Segments, Arrivals, Sane, Good, HeldAll;
    RunKeeps(c, batches);
    RunIsSane(c, batches);
    if batches != [] && batches[|batches| - 1].eop {
      HeldAllEmpty(After(c, batches).flows);
    }
  }

  // ---------------------------------------------------------------- order

  /** An entry that some packet has claimed: it is in the slot of its flow. */
  predicate Claimed(flow: Flow, i: nat, hash: Tuple -> u32) {
    flow.tag == TagFor(hash, flow.key.tuple) && SlotFor(hash, flow.key.tuple) == i
  }

  /** Every entry has been claimed, or is as the table was at the start. */
  ghost predicate Tagged(flows: seq<Flow>, hash: Tuple -> u32) {
    forall i :: 0 <= i < |flows| ==> flows[i] == ZERO_FLOW || Claimed(flows[i], i, hash)
  }

  /** The packets of stream k that the table still holds. */
  function Held(flows: seq<Flow>, hash: Tuple -> u32, k: Option<FlowKey>): seq<Packet>
    requires |flows| == MAX_FLOW
  {
    if k.None? then []
    else
      var flow := flows[SlotFor(hash, k.value.tuple)];
      if flow.key == k.value then flow.held else []
  }

  /** Nothing lost, repeated or reordered within a stream: output then held data is the input. */
  ghost predicate InOrder(arrived: seq<Packet>, out: seq<Frame>, flows: seq<Flow>, hash: Tuple -> u32)
    requires |flows| == MAX_FLOW
  {
    forall k :: Stream(arrived, k) == Stream(Segments(out), k) + Held(flows, hash, k)
  }

  /** The current flow is an entry that was never claimed, and is taken for the flow of p. */
  predicate Mistaken(c: Config, s: Lro, p: Packet, current: int)
    requires |s.flows| == MAX_FLOW && -1 <= current < MAX_FLOW
  {
    Eligible(p) && current != -1 && s.flows[current].key == p.key && !Claimed(s.flows[current], current, c.hash)
  }

  /** A packet that is passed on overtakes nothing of its own stream. */
  lemma PassKeepsOrder(arrived: seq<Packet>, out: seq<Frame>, flows: seq<Flow>, hash: Tuple -> u32, p: Packet)
    requires |flows| == MAX_FLOW && InOrder(arrived, out, flows, hash) && Held(flows, hash, StreamOf(p)) == []
    ensures InOrder(arrived + [p], out + [Frame([p], p.hdr)], flows, hash)
  {
    hide SlotFor, Stream, Segments, Held;
    SegmentsAppend(out, Frame([p], p.hdr));
    forall k
      ensures Stream(arrived + [p], k) == Stream(Segments(out + [Frame([p], p.hdr)]), k) + Held(flows, hash, k)
    {
      StreamConcat(arrived, [p], k);
      StreamConcat(Segments(out), [p], k);
      StreamOfPacket(p, k);
      assert Stream(arrived, k) == Stream(Segments(out), k) + Held(flows, hash, k);
      if k == StreamOf(p) {
        assert Stream(arrived, k) == Stream(Segments(out), k);
      }
    }
  }

  lemma StreamOfPacket(p: Packet, k: Option<FlowKey>)
    ensures Stream([p], k) == if StreamOf(p) == k then [p] else []
  {
    assert [p][..0] == [];
  }

  /** One stream, when frames of a flow are put out and its entry keeps the rest and perhaps a packet more. */
  lemma MoveInStream(arrived: seq<Packet>, out: seq<Packet>, flows: seq<Flow>, hash: Tuple -> u32, i: nat, f: Flow,
                     segs: seq<Packet>, more: seq<Packet>, k: Option<FlowKey>)
    requires |flows| == MAX_FLOW && i < MAX_FLOW && f.key == flows[i].key && SlotFor(hash, f.key.tuple) == i
    requires Stream(arrived, k) == Stream(out, k) + Held(flows, hash, k) && segs + f.held == flows[i].held + more
    requires if k == Some(f.key) then Stream(segs, k) == segs && Stream(more, k) == more
             else Stream(segs, k) == [] && Stream(more, k) == []
    ensures Stream(arrived + more, k) == Stream(out + segs, k) + Held(flows[i := f], hash, k)
  {
    hide *;
    StreamConcat(arrived, more, k);
    StreamConcat(out, segs, k);
    HeldAt(flows, hash, i, f, k);
    if k == Some(f.key) {
      Rejoin(Stream(out, k), flows[i].held, more, segs, f.held);
    } else {
      NoneBehind(Stream(out, k));
      NoneBehind(Stream(arrived, k));
    }
  }

  lemma HeldAt(flows: seq<Flow>, hash: Tuple -> u32, i: nat, f: Flow, k: Option<FlowKey>)
    requires |flows| == MAX_FLOW && i < MAX_FLOW && f.key == flows[i].key && SlotFor(hash, f.key.tuple) == i
    ensures |flows[i := f]| == MAX_FLOW
    ensures k == Some(f.key) ==> Held(flows, hash, k) == flows[i].held && Held(flows[i := f], hash, k) == f.held
    ensures k != Some(f.key) ==> Held(flows[i := f], hash, k) == Held(flows, hash, k)
  {
    hide SlotFor;
  }

  lemma Rejoin<T>(o: seq<T>, h: seq<T>, more: seq<T>, segs: seq<T>, rest: seq<T>)
    requires segs + rest == h + more
    ensures (o + h) + more == (o + segs) + rest
  {
    assert (o + h) + more == o + (h + more) && (o + segs) + rest == o + (segs + rest);
  }

  lemma NoneBehind<T>(s: seq<T>)
    ensures s + [] == s
  {
  }

  /** Then nothing of any stream is lost, repeated or reordered. */
  lemma MoveKeepsOrder(arrived: seq<Packet>, out: seq<Frame>, flows: seq<Flow>, hash: Tuple -> u32, i: nat, f: Flow,
                       frames: seq<Frame>, more: seq<Packet>)
    requires |flows| == MAX_FLOW && i < MAX_FLOW && InOrder(arrived, out, flows, hash)
    requires f.key == flows[i].key && SlotFor(hash, f.key.tuple) == i
    requires Segments(frames) + f.held == flows[i].held + more
    requires forall j :: 0 <= j < |flows[i].held + more| ==> StreamOf((flows[i].held + more)[j]) == Some(f.key)
    ensures InOrder(arrived + more, out + frames, flows[i := f], hash)
  {
    hide SlotFor, Stream, Segments, StreamOf, Held;
    var all := flows[i].held + more;
    SegmentsConcat(out, frames);
    SplitOneFlow(Segments(frames), f.held, all, Some(f.key));
    SplitOneFlow(flows[i].held, more, all, Some(f.key));
    forall k
      ensures Stream(arrived + more, k) == Stream(Segments(out + frames), k) + Held(flows[i := f], hash, k)
    {
      MoveInStream(arrived, Segments(out), flows, hash, i, f, Segments(frames), more, k);
    }
  }

  /** Both parts of a run of packets of one flow are of that flow. */
  lemma SplitOneFlow(a: seq<Packet>, b: seq<Packet>, all: seq<Packet>, k: Option<FlowKey>)
    requires all == a + b && forall j :: 0 <= j < |all| ==> StreamOf(all[j]) == k
    ensures Stream(a, k) == a && Stream(b, k) == b
    ensures forall d :: d != k ==> Stream(a, d) == [] && Stream(b, d) == []
  {
    hide StreamOf, Stream;
    forall j | 0 <= j < |a|
      ensures StreamOf(a[j]) == k
    {
      assert all[j] == a[j];
    }
    forall j | 0 <= j < |b|
      ensures StreamOf(b[j]) == k
    {
      assert all[|a| + j] == b[j];
    }
    StreamOfOneFlow(a, k);
    StreamOfOneFlow(b, k);
  }

  lemma HeldIsOneFlow(flow: Flow, mode: CoalesceMode, more: seq<Packet>)
    requires FlowOk(flow, mode) && forall p :: p in more ==> StreamOf(p) == Some(flow.key)
    ensures forall j :: 0 <= j < |flow.held + more| ==> StreamOf((flow.held + more)[j]) == Some(flow.key)
  {
  }

  lemma PacketStream(p: Packet)
    ensures Eligible(p) ==> StreamOf(p) == Some(p.key)
  {
  }

  lemma RefusedIsEmpty(c: Config, flows: seq<Flow>, i: nat, p: Packet, now: int)
    requires |flows| == MAX_FLOW && i < MAX_FLOW && SlotFor(c.hash, p.key.tuple) == i && Eligible(p)
    requires !Continues(flows[i], p, now, c.rto)
    ensures Held(flows[i := Added(c, flows[i], p, now)], c.hash, StreamOf(p)) == []
  {
    hide SlotFor;
  }

  /** Adding a packet to the entry of its flow keeps the order. */
  lemma AddedToKeepsOrder(c: Config, s: Lro, i: nat, p: Packet, now: int, arrived: seq<Packet>, posted: seq<Frame>)
    requires Sane(c, s) && i < MAX_FLOW && Eligible(p) && s.flows[i].key == p.key && Claimed(s.flows[i], i, c.hash)
    requires InOrder(arrived, posted + s.chain, s.flows, c.hash)
    ensures InOrder(arrived + [p], posted + AddedTo(c, s, i, p, now).chain, AddedTo(c, s, i, p, now).flows, c.hash)
  {
    hide SlotFor, InOrder, FlowOk, Settled, Emitted, Continues, Occupied, Fits, Joined, Held, StreamOf;
    var f := s.flows[i];
    var g, frames := Added(c, f, p, now), Emitted(c, f, p, now);
    var merged := Continues(f, p, now, c.rto);
    AddedSegments(c, f, p, now);
    PacketStream(p);
    HeldIsOneFlow(f, c.mode, if merged then [p] else []);
    MoveKeepsOrder(arrived, posted + s.chain, s.flows, c.hash, i, g, frames, if merged then [p] else []);
    LastBehind(posted, s.chain, frames);
    if !merged {
      NoneBehind(arrived);
      RefusedIsEmpty(c, s.flows, i, p, now);
      PassKeepsOrder(arrived, posted + (s.chain + frames), s.flows[i := g], c.hash, p);
      LastBehind(posted, s.chain + frames, [Frame([p], p.hdr)]);
    }
  }

  /** Taking an entry over changes nothing that is held. */
  lemma NewFlowKeepsOrder(c: Config, s: Lro, p: Packet, now: int, arrived: seq<Packet>, posted: seq<Frame>)
    requires Sane(c, s) && InOrder(arrived, posted + s.chain, s.flows, c.hash)
    requires var f := s.flows[SlotFor(c.hash, p.key.tuple)]; TakesOver(c, f, now)
    ensures var i := SlotFor(c.hash, p.key.tuple); var t := s.(flows := s.flows[i := NewFlow(c, s.flows[i], p, now)]);
      && Sane(c, t) && InOrder(arrived, posted + t.chain, t.flows, c.hash)
      && Claimed(t.flows[i], i, c.hash) && t.flows[i].key == p.key
  {
    hide Stream, Segments, SlotFor, Mergeable;
    var i := SlotFor(c.hash, p.key.tuple);
    var t := s.(flows := s.flows[i := NewFlow(c, s.flows[i], p, now)]);
    assert forall k :: Held(t.flows, c.hash, k) == Held(s.flows, c.hash, k);
  }

  lemma AddedIsTagged(c: Config, flow: Flow, p: Packet, now: int, i: nat)
    requires Claimed(flow, i, c.hash)
    ensures Claimed(Added(c, flow, p, now), i, c.hash)
  {
  }

  /** A packet is only refused by an entry that holds nothing of its flow. */
  lemma RefusedHoldsNothing(c: Config, flows: seq<Flow>, p: Packet)
    requires |flows| == MAX_FLOW && Tagged(flows, c.hash)
    requires var f := flows[SlotFor(c.hash, p.key.tuple)]; f.tag != TagFor(c.hash, p.key.tuple) || f.key != p.key
    ensures Held(flows, c.hash, Some(p.key)) == []
  {
    hide SlotFor;
  }

  /** Every packet whose flow is not mistaken keeps the order. */
  lemma OneKeepsOrder(c: Config, s: Lro, p: Packet, now: int, current: int, arrived: seq<Packet>, posted: seq<Frame>)
    requires Sane(c, s) && -1 <= current < MAX_FLOW && !Mistaken(c, s, p, current)
    requires Tagged(s.flows, c.hash) && InOrder(arrived, posted + s.chain, s.flows, c.hash)
    ensures var t := One(c, s, p, now, current).0;
      Tagged(t.flows, c.hash) && InOrder(arrived + [p], posted + t.chain, t.flows, c.hash)
  {
    var i := SlotFor(c.hash, p.key.tuple);
    assert (posted + s.chain) + [Frame([p], p.hdr)] == posted + (s.chain + [Frame([p], p.hdr)]);
    hide InOrder, SlotFor, Added, Emitted, Occupied, Continues;
    if !Eligible(p) {
      PassKeepsOrder(arrived, posted + s.chain, s.flows, c.hash, p);
    } else if current != -1 && s.flows[current].key == p.key {
      AddedToKeepsOrder(c, s, current, p, now, arrived, posted);
      AddedIsTagged(c, s.flows[current], p, now, current);
    } else if s.flows[i].tag == TagFor(c.hash, p.key.tuple) && s.flows[i].key == p.key {
      AddedToKeepsOrder(c, s, i, p, now, arrived, posted);
      AddedIsTagged(c, s.flows[i], p, now, i);
    } else if s.flows[i].tag != TagFor(c.hash, p.key.tuple) && TakesOver(c, s.flows[i], now) {
      NewFlowKeepsOrder(c, s, p, now, arrived, posted);
      var t := s.(flows := s.flows[i := NewFlow(c, s.flows[i], p, now)]);
      AddedToKeepsOrder(c, t, i, p, now, arrived, posted);
      AddedIsTagged(c, t.flows[i], p, now, i);
    } else {
      RefusedHoldsNothing(c, s.flows, p);
      PassKeepsOrder(arrived, posted + s.chain, s.flows, c.hash, p);
    }
  }

  /** A TCP packet whose hash plus one, the tag of its flow, is zero: the tag of entries never claimed. */
  predicate ZeroTagged(hash: Tuple -> u32, p: Packet) {
    Eligible(p) && TagFor(hash, p.key.tuple) == 0
  }

  /** No packet that matches an unclaimed entry comes behind one that makes such an entry the current flow. */
  ghost predicate Clear(hash: Tuple -> u32, packets: seq<Packet>) {
    || TagFor(hash, ZERO_KEY.tuple) == 0
    || forall i, j :: 0 <= i < j < |packets| && ZeroTagged(hash, packets[i]) && Eligible(packets[j]) ==>
         packets[j].key != ZERO_KEY
  }

  /** The slot of every hash whose tag is zero. */
  const LAST_SLOT := MAX_FLOW - 1

  lemma ZeroTagSlot(hash: Tuple -> u32, t: Tuple)
    ensures TagFor(hash, t) == 0 ==> SlotFor(hash, t) == LAST_SLOT
  {
    if TagFor(hash, t) == 0 {
      assert hash(t) == WORD32 - 1;
    }
  }

  /** An unclaimed current flow is the last entry, and a packet with tag zero has made it so. */
  ghost predicate Traced(c: Config, flows: seq<Flow>, current: int, packets: seq<Packet>)
    requires |flows| == MAX_FLOW && -1 <= current < MAX_FLOW
  {
    current != -1 && !Claimed(flows[current], current, c.hash) ==>
      current == LAST_SLOT && flows[current] == ZERO_FLOW && exists x :: x in packets && ZeroTagged(c.hash, x)
  }

  lemma OneIsTraced(c: Config, s: Lro, p: Packet, now: int, current: int, packets: seq<Packet>)
    requires |s.flows| == MAX_FLOW && -1 <= current < MAX_FLOW && Tagged(s.flows, c.hash)
    requires !Mistaken(c, s, p, current) && Traced(c, s.flows, current, packets)
    ensures var r := One(c, s, p, now, current); Traced(c, r.0.flows, r.1, packets + [p])
  {
    var i := SlotFor(c.hash, p.key.tuple);
    ZeroTagSlot(c.hash, p.key.tuple);
    hide SlotFor, Added, Emitted, Occupied, Continues;
    assert p in packets + [p] && forall x :: x in packets ==> x in packets + [p];
    if Eligible(p) {
      if current != -1 && s.flows[current].key == p.key {
        AddedIsTagged(c, s.flows[current], p, now, current);
      } else if s.flows[i].tag == TagFor(c.hash, p.key.tuple) {
        if s.flows[i].key == p.key {
          AddedIsTagged(c, s.flows[i], p, now, i);
        } else if !Claimed(s.flows[i], i, c.hash) {
          assert ZeroTagged(c.hash, p);
        }
      } else if TakesOver(c, s.flows[i], now) {
        AddedIsTagged(c, NewFlow(c, s.flows[i], p, now), p, now, i);
      }
    }
  }

  /** What is clear has no packet whose flow is mistaken. */
  lemma ClearIsNotMistaken(c: Config, s: Lro, packets: seq<Packet>, n: nat, current: int)
    requires |s.flows| == MAX_FLOW && -1 <= current < MAX_FLOW && n < |packets|
    requires Clear(c.hash, packets) && Traced(c, s.flows, current, packets[..n])
    ensures !Mistaken(c, s, packets[n], current)
  {
    ZeroTagSlot(c.hash, ZERO_KEY.tuple);
    hide SlotFor;
  }

  lemma ClearPrefix(hash: Tuple -> u32, packets: seq<Packet>, n: nat)
    requires n <= |packets| && Clear(hash, packets)
    ensures Clear(hash, packets[..n])
  {
    hide TagFor, ZeroTagged;
  }

  lemma {:induction false} CoalescedKeepsOrder(c: Config, s: Lro, packets: seq<Packet>, now: int, arrived: seq<Packet>,
                                               posted: seq<Frame>)
    requires Sane(c, s) && c.mode != Off && Clear(c.hash, packets)
    requires Tagged(s.flows, c.hash) && InOrder(arrived, posted + s.chain, s.flows, c.hash)
    ensures var r := Coalesced(c, s, packets, now);
      && Tagged(r.0.flows, c.hash) && Traced(c, r.0.flows, r.1, packets)
      && InOrder(arrived + packets, posted + r.0.chain, r.0.flows, c.hash)
  {
    SaneShape(c, s);
    hide Sane, InOrder, Tagged, One, Mistaken, Clear, Traced;
    if packets == [] {
      assert arrived + packets == arrived;
      NoneIsTraced(c, s.flows);
    } else {
      var n := |packets| - 1;
      var front := packets[..n];
      ClearPrefix(c.hash, packets, n);
      CoalescedIsSane(c, s, front, now);
      CoalescedKeepsOrder(c, s, front, now, arrived, posted);
      var r := Coalesced(c, s, front, now);
      ClearIsNotMistaken(c, r.0, packets, n, r.1);
      OneKeepsOrder(c, r.0, packets[n], now, r.1, arrived + front, posted);
      OneIsTraced(c, r.0, packets[n], now, r.1, front);
      assert front + [packets[n]] == packets && arrived + front + [packets[n]] == arrived + packets;
    }
  }

  lemma NoneIsTraced(c: Config, flows: seq<Flow>)
    requires |flows| == MAX_FLOW
    ensures Traced(c, flows, -1, [])
  {
  }

  // ---------------------------------------------------------------- batches

  /** What is put out of one entry goes, in order, behind what was put out before. */
  lemma CompletedAtKeepsOrder(c: Config, s: Lro, i: nat, arrived: seq<Packet>, posted: seq<Frame>)
    requires |s.flows| == MAX_FLOW && i < MAX_FLOW && FlowOk(s.flows[i], c.mode)
    requires Tagged(s.flows, c.hash) && InOrder(arrived, posted + s.chain, s.flows, c.hash)
    ensures var t := CompletedAt(s, i);
      Tagged(t.flows, c.hash) && InOrder(arrived, posted + t.chain, t.flows, c.hash)
  {
    hide InOrder, Completed, SlotFor, FlowOk, StreamOf, Segments, Held;
    var f := s.flows[i];
    var g := f.(held := [], len := 0);
    CompletedSegments(f.held);
    NoneBehind(f.held);
    NoneBehind(arrived);
    LastBehind(posted, s.chain, Completed(f.held));
    HeldIsOneFlow(f, c.mode, []);
    if Claimed(f, i, c.hash) {
      MoveKeepsOrder(arrived, posted + s.chain, s.flows, c.hash, i, g, Completed(f.held), []);
    } else {
      NothingCompleted(f);
      NoneBehind(s.chain);
      assert s.flows[i := g] == s.flows;
    }
  }

  lemma NothingCompleted(f: Flow)
    ensures f == ZERO_FLOW ==> Completed(f.held) == [] && f.(held := [], len := 0) == f
  {
  }

  lemma {:induction false} FlushedKeepsOrder(c: Config, s: Lro, list: seq<nat>, arrived: seq<Packet>, posted: seq<Frame>)
    requires Flushing(c, s, list) && Tagged(s.flows, c.hash) && InOrder(arrived, posted + s.chain, s.flows, c.hash)
    ensures var t := Flushed(s, list);
      Tagged(t.flows, c.hash) && InOrder(arrived, posted + t.chain, t.flows, c.hash)
    decreases |list|
  {
    if list != [] {
      FlushOne(c, s, list);
      FlushingAt(c, s, list);
      hide Flushing, Tagged, InOrder, CompletedAt;
      CompletedAtKeepsOrder(c, s, list[0], arrived, posted);
      FlushedKeepsOrder(c, CompletedAt(s, list[0]), list[1..], arrived, posted);
    }
  }

  lemma FlushingAt(c: Config, s: Lro, list: seq<nat>)
    requires Flushing(c, s, list) && list != []
    ensures |s.flows| == MAX_FLOW && list[0] < MAX_FLOW && FlowOk(s.flows[list[0]], c.mode)
  {
    assert list[0] in list;
  }

  lemma {:induction false} SinglesKeepOrder(c: Config, s: Lro, packets: seq<Packet>, arrived: seq<Packet>, posted: seq<Frame>)
    requires |s.flows| == MAX_FLOW && InOrder(arrived, posted + s.chain, s.flows, c.hash)
    requires forall i :: 0 <= i < MAX_FLOW ==> s.flows[i].held == []
    ensures InOrder(arrived + packets, posted + (s.chain + Singles(packets)), s.flows, c.hash)
  {
    hide InOrder;
    if packets == [] {
      assert arrived + packets == arrived && s.chain + [] == s.chain;
    } else {
      var n := |packets| - 1;
      var front := packets[..n];
      SinglesKeepOrder(c, s, front, arrived, posted);
      assert Held(s.flows, c.hash, StreamOf(packets[n])) == [];
      PassKeepsOrder(arrived + front, posted + (s.chain + Singles(front)), s.flows, c.hash, packets[n]);
      hide Held, Singles, StreamOf;
      SinglesLast(packets);
      LastBehind(arrived, front, [packets[n]]);
      assert front + [packets[n]] == packets;
      BehindAll(posted, s.chain, Singles(front), [Frame([packets[n]], packets[n].hdr)]);
    }
  }

  lemma SinglesLast(packets: seq<Packet>)
    requires packets != []
    ensures var n := |packets| - 1; Singles(packets) == Singles(packets[..n]) + [Frame([packets[n]], packets[n].hdr)]
  {
  }

  lemma LastBehind<T>(a: seq<T>, b: seq<T>, x: seq<T>)
    ensures a + b + x == a + (b + x)
  {
  }

  lemma BehindAll<T>(a: seq<T>, b: seq<T>, x: seq<T>, y: seq<T>)
    ensures a + (b + x) + y == a + (b + (x + y))
  {
  }

  lemma BatchKeepsOrder(c: Config, s: Lro, b: Batch, arrived: seq<Packet>, posted: seq<Frame>)
    requires Sane(c, s) && (c.mode == Off || Clear(c.hash, b.packets))
    requires Tagged(s.flows, c.hash) && InOrder(arrived, posted + s.chain, s.flows, c.hash)
    ensures var t := AfterBatch(c, s, b);
      Tagged(t.flows, c.hash) && InOrder(arrived + b.packets, posted + t.chain, t.flows, c.hash)
  {
    hide FlowOk, Settled, Coalesced, Flushed, InOrder, Tagged, Clear, Singles;
    if c.mode == Off {
      SinglesKeepOrder(c, s, b.packets, arrived, posted);
    } else {
      CoalescedKeepsOrder(c, s, b.packets, b.now, arrived, posted);
      CoalescedIsSane(c, s, b.packets, b.now);
    }
    var t := Received(c, s, b);
    if b.eop {
      FlushedKeepsOrder(c, t.(occupied := []), t.occupied, arrived + b.packets, posted);
    }
  }

  ghost predicate AllClear(c: Config, batches: seq<Batch>) {
    c.mode == Off || forall b :: b in batches ==> Clear(c.hash, b.packets)
  }

  lemma {:induction false} RunKeepsOrder(c: Config, batches: seq<Batch>)
    requires AllClear(c, batches)
    ensures Tagged(After(c, batches).flows, c.hash)
    ensures InOrder(Arrivals(batches), Out(c, batches), After(c, batches).flows, c.hash)
  {
    hide Clear, AfterBatch, InOrder, Tagged;
    if batches == [] {
      StartIsInOrder(c);
    } else {
      var n := |batches| - 1;
      var s := After(c, batches[..n]);
      RunKeepsOrder(c, batches[..n]);
      RunIsSane(c, batches[..n]);
      assert Out(c, batches[..n]) + s.chain == Out(c, batches[..n]);
      BatchKeepsOrder(c, s, batches[n], Arrivals(batches[..n]), Out(c, batches[..n]));
    }
  }

  lemma StartIsInOrder(c: Config)
    ensures Tagged(Start().flows, c.hash) && InOrder([], [], Start().flows, c.hash)
  {
  }

  /** A run in which every batch is clear gives each stream in order, and all of it at the end of a poll. */
  lemma RunIsInOrder(c: Config, batches: seq<Batch>)
    ensures AllClear(c, batches) ==> forall k ::
      && Stream(Segments(Out(c, batches)), k) <= Stream(Arrivals(batches), k)
      && (batches != [] && batches[|batches| - 1].eop ==>
            Stream(Segments(Out(c, batches)), k) == Stream(Arrivals(batches), k))
  {
    if AllClear(c, batches) {
      RunKeepsOrder(c, batches);
      RunIsSane(c, batches);
      hide Out, After, Segments, Arrivals, Sane, Good, Stream, AllClear, Tagged, SlotFor;
      forall k
        ensures var held := Held(After(c, batches).flows, c.hash, k);
          Stream(Arrivals(batches), k) == Stream(Segments(Out(c, batches)), k) + held
          && (batches != [] && batches[|batches| - 1].eop ==> held == [])
      {
      }
      assert forall s: seq<Packet> :: s + [] == s;
    }
  }

  /** Each stream goes to the stack in order. */
  ghost predicate Orderly(c: Config, batches: seq<Batch>) {
    forall k :: Stream(Segments(Out(c, batches)), k) <= Stream(Arrivals(batches), k)
  }

  lemma ClearIsOrderly(c: Config, batches: seq<Batch>)
    requires AllClear(c, batches)
    ensures Orderly(c, batches)
  {
    hide AllClear, Stream, Segments, Out, Arrivals;
    RunIsInOrder(c, batches);
  }

  /** No tuple has the tag of an entry that was never claimed, or that of the all-zero key is it. */
  ghost predicate TagsDiffer(hash: Tuple -> u32) {
    (forall t :: TagFor(hash, t) != 0) || TagFor(hash, ZERO_KEY.tuple) == 0
  }

  lemma TagsDifferIsClear(c: Config, batches: seq<Batch>)
    requires TagsDiffer(c.hash)
    ensures AllClear(c, batches)
  {
    hide TagFor;
  }

  // ---------------------------------------------------------------- flags

  /** A frame is its packets under the headers of the first of them, but with the last one's acknowledgement, window
      and flags, and with the length of all of it. */
  lemma HeaderShown(f: Frame, mode: CoalesceMode)
    requires GoodFrame(f, mode)
    ensures f.segs != []
    ensures var last := f.segs[|f.segs| - 1].hdr; f.hdr.ack == last.ack && f.hdr.win == last.win && f.hdr.flags == last.flags
    ensures f.hdr.ipLen == f.segs[0].hdr.ipLen - |f.segs[0].payload| + |PayloadBytes(f.segs)|
  {
    if |f.segs| == 1 {
      OnePayload(f.segs);
    } else {
      MergedRange(f.segs, mode);
    }
  }

  lemma OnePayload(segs: seq<Packet>)
    requires |segs| == 1
    ensures PayloadBytes(segs) == segs[0].payload
  {
    assert segs[..0] == [];
  }

  /** Only TCP packets of one connection are merged, fully checksummed and not fragments, with data, in sequence and
      without URG, SYN or RST; and in the mode that stops at pushes with none but a last PUSH. */
  lemma MergedAre(f: Frame, mode: CoalesceMode, k: nat)
    requires GoodFrame(f, mode) && |f.segs| > 1 && k < |f.segs|
    ensures var p := f.segs[k];
      && p.tcp && p.checksummed && !p.fragment && p.key == f.segs[0].key && p.payload != [] && p.urp == 0
      && !p.hdr.flags.urg && !p.hdr.flags.syn && !p.hdr.flags.rst
    ensures k > 0 ==> (var p := f.segs[k - 1];
      && f.segs[k].seqNo == (p.seqNo + |p.payload|) % 0x1_0000_0000 && (mode == AllowPush ==> !p.hdr.flags.push))
  {
    hide ChainLength;
  }

  lemma HeadersShown(out: seq<Frame>, mode: CoalesceMode)
    requires Good(out, mode)
    ensures forall f :: f in out ==> f.segs != [] && var last := f.segs[|f.segs| - 1].hdr;
      && f.hdr.ack == last.ack && f.hdr.win == last.win && f.hdr.flags == last.flags
      && f.hdr.ipLen == f.segs[0].hdr.ipLen - |f.segs[0].payload| + |PayloadBytes(f.segs)|
  {
    hide GoodFrame, PayloadBytes;
    forall f | f in out
      ensures f.segs != [] && var last := f.segs[|f.segs| - 1].hdr;
        && f.hdr.ack == last.ack && f.hdr.win == last.win && f.hdr.flags == last.flags
        && f.hdr.ipLen == f.segs[0].hdr.ipLen - |f.segs[0].payload| + |PayloadBytes(f.segs)|
    {
      HeaderShown(f, mode);
    }
  }

  /** So it is in the output of every run. */
  lemma OutputIsMerged(c: Config, batches: seq<Batch>, f: Frame, k: nat)
    requires f in Out(c, batches) && |f.segs| > 1 && k < |f.segs|
    ensures var p := f.segs[k];
      && p.tcp && p.checksummed && !p.fragment && p.key == f.segs[0].key && p.payload != [] && p.urp == 0
      && !p.hdr.flags.urg && !p.hdr.flags.syn && !p.hdr.flags.rst
    ensures k > 0 ==> (var p := f.segs[k - 1];
      && f.segs[k].seqNo == (p.seqNo + |p.payload|) % 0x1_0000_0000 && (c.mode == AllowPush ==> !p.hdr.flags.push))
  {
    hide *;
    RunIsSane(c, batches);
    var out := Out(c, batches);
    var i :| 0 <= i < |out| && out[i] == f;
    GoodAt(out, c.mode, i);
    MergedAre(f, c.mode, k);
  }

  /** A frame shows the flags of its last packet.  So of the packets in front of it URG, SYN and RST are never
      lost, and PUSH only when merging goes on across pushes. */
  lemma FlagsShown(f: Frame, mode: CoalesceMode)
    requires GoodFrame(f, mode)
    ensures f.hdr.flags == f.segs[|f.segs| - 1].hdr.flags
    ensures !Loses(f, (t: TcpFlags) => t.urg) && !Loses(f, (t: TcpFlags) => t.syn) && !Loses(f, (t: TcpFlags) => t.rst)
    ensures mode == AllowPush ==> !Loses(f, (t: TcpFlags) => t.push)
  {
  }

  /** A packet whose flag is lost is followed in its frame by one that starts where it ends. */
  lemma LostInFrame(f: Frame, mode: CoalesceMode, flag: TcpFlags -> bool) returns (j: nat)
    requires GoodFrame(f, mode) && Loses(f, flag)
    ensures j + 1 < |f.segs| && flag(f.segs[j].hdr.flags) && !flag(f.hdr.flags) && f.segs[j + 1].seqNo == EndSeq(f.segs[j])
    ensures forall i :: 0 <= i < |f.segs| ==> StreamOf(f.segs[i]) == Some(f.segs[0].key)
  {
    hide EndSeq, ChainLength;
    j :| 0 <= j < |f.segs| && flag(f.segs[j].hdr.flags) && !flag(f.hdr.flags);
    assert f.segs[j + 1].seqNo == EndSeq(f.segs[j + 1 - 1]);
  }

  /** Packet k of a stream has the flag, and the next one to arrive starts where it ends. */
  predicate FollowedAt(s: seq<Packet>, k: nat, flag: TcpFlags -> bool) {
    k + 1 < |s| && flag(s[k].hdr.flags) && s[k + 1].seqNo == EndSeq(s[k])
  }

  /** The packets of a frame stand together in their stream. */
  lemma FrameInStream(out: seq<Frame>, i: nat, key: FlowKey) returns (at: nat)
    requires i < |out| && forall j :: 0 <= j < |out[i].segs| ==> StreamOf(out[i].segs[j]) == Some(key)
    ensures var s := Stream(Segments(out), Some(key)); at + |out[i].segs| <= |s| && s[at..at + |out[i].segs|] == out[i].segs
  {
    hide StreamOf, Stream, Segments;
    var k := Some(key);
    var a, f, b := out[..i], out[i], out[i + 1..];
    assert out == (a + [f]) + b;
    SegmentsConcat(a + [f], b);
    SegmentsAppend(a, f);
    StreamConcat(Segments(a + [f]), Segments(b), k);
    StreamConcat(Segments(a), f.segs, k);
    StreamOfOneFlow(f.segs, k);
    at := |Stream(Segments(a), k)|;
  }

  lemma {:induction false} SegmentIn(frames: seq<Frame>, i: nat, p: Packet)
    requires i < |frames| && p in frames[i].segs
    ensures p in Segments(frames)
  {
    var n := |frames| - 1;
    if i < n {
      SegmentIn(frames[..n], i, p);
    }
  }

  /** Whatever arrives, a packet whose flag gets lost has one of its own flow among the arrivals that starts where
      it ends. */
  lemma LostHasNext(c: Config, batches: seq<Batch>, f: Frame, flag: TcpFlags -> bool) returns (p: Packet, q: Packet)
    requires f in Out(c, batches) && Loses(f, flag)
    ensures p in Arrivals(batches) && q in Arrivals(batches) && StreamOf(p) == StreamOf(q)
    ensures flag(p.hdr.flags) && !flag(f.hdr.flags) && q.seqNo == EndSeq(p)
  {
    hide *;
    RunIsSane(c, batches);
    RunIsComplete(c, batches);
    var out := Out(c, batches);
    var i :| 0 <= i < |out| && out[i] == f;
    GoodAt(out, c.mode, i);
    var j := LostInFrame(f, c.mode, flag);
    p, q := f.segs[j], f.segs[j + 1];
    SegmentIn(out, i, p);
    SegmentIn(out, i, q);
    assert p in multiset(Segments(out)) && q in multiset(Segments(out));
  }

  /** When a flag of a packet gets lost, the next packet of the flow to arrive started exactly where that one
      ended.  Behind a FIN it does not: a sender's next sequence number is one further. */
  lemma LostIsFollowed(c: Config, batches: seq<Batch>, f: Frame, flag: TcpFlags -> bool) returns (key: FlowKey, k: nat)
    requires AllClear(c, batches) && f in Out(c, batches) && Loses(f, flag)
    ensures FollowedAt(Stream(Arrivals(batches), Some(key)), k, flag)
  {
    hide *;
    RunIsSane(c, batches);
    ClearIsOrderly(c, batches);
    var out := Out(c, batches);
    var i :| 0 <= i < |out| && out[i] == f;
    GoodAt(out, c.mode, i);
    var j := LostInFrame(f, c.mode, flag);
    key := f.segs[0].key;
    var at := FrameInStream(out, i, key);
    k := at + j;
    OrderlyAt(c, batches, key);
    SliceOfPrefix(Stream(Segments(out), Some(key)), Stream(Arrivals(batches), Some(key)), at, f.segs, j);
    FollowedIs(Stream(Arrivals(batches), Some(key)), k, flag);
  }

  lemma GoodAt(frames: seq<Frame>, mode: CoalesceMode, i: nat)
    ensures Good(frames, mode) && i < |frames| ==> GoodFrame(frames[i], mode)
  {
  }

  lemma OrderlyAt(c: Config, batches: seq<Batch>, key: FlowKey)
    ensures Orderly(c, batches) ==> Stream(Segments(Out(c, batches)), Some(key)) <= Stream(Arrivals(batches), Some(key))
  {
  }

  lemma FollowedIs(s: seq<Packet>, k: nat, flag: TcpFlags -> bool)
    ensures FollowedAt(s, k, flag) <==> k + 1 < |s| && flag(s[k].hdr.flags) && s[k + 1].seqNo == EndSeq(s[k])
  {
  }

  lemma SliceOfPrefix<T>(s: seq<T>, t: seq<T>, at: nat, x: seq<T>, j: nat)
    requires s <= t && at + |x| <= |s| && s[at..at + |x|] == x && j + 1 < |x|
    ensures at + j + 1 < |t| && t[at + j] == x[j] && t[at + j + 1] == x[j + 1]
  {
    assert t[at + j] == s[at + j] == s[at..at + |x|][j] && t[at + j + 1] == s[at + j + 1] == s[at..at + |x|][j + 1];
  }

  /** So no frame loses the flag if no packet that has it is followed like that. */
  lemma NotFollowedIsKept(c: Config, batches: seq<Batch>, flag: TcpFlags -> bool)
    requires AllClear(c, batches)
    requires forall key, k: nat :: !FollowedAt(Stream(Arrivals(batches), Some(key)), k, flag)
    ensures forall f :: f in Out(c, batches) ==> !Loses(f, flag)
  {
    hide AllClear, Out, FollowedAt, Loses;
    forall f | f in Out(c, batches)
      ensures !Loses(f, flag)
    {
      if Loses(f, flag) {
        var key, k := LostIsFollowed(c, batches, f, flag);
        assert false;
      }
    }
  }

  /** A chain whose frame loses the flag. */
  predicate Losing(segs: seq<Packet>, flag: TcpFlags -> bool) {
    segs != [] && !flag(segs[|segs| - 1].hdr.flags) && exists j :: 0 <= j < |segs| && flag(segs[j].hdr.flags)
  }

  lemma LosingFrame(segs: seq<Packet>, flag: TcpFlags -> bool)
    requires segs != []
    ensures Loses(Completed(segs)[0], flag) <==> Losing(segs, flag)
  {
  }

  /** Adding p makes the held chain one that loses the flag exactly when a held packet has it, p does not, and p
      joins it: p is in time and in sequence, has data and no other of the flags that stop merging, enough
      segments have come in order, and the result is not too long. */
  lemma JoiningLosesIff(c: Config, flow: Flow, p: Packet, now: int, flag: TcpFlags -> bool)
    requires flow.held != []
    ensures Continues(flow, p, now, c.rto) && Losing(Joined(flow, p, now, c.rto), flag) <==>
      && (exists j :: 0 <= j < |flow.held| && flag(flow.held[j].hdr.flags)) && !flag(p.hdr.flags)
      && now - flow.lbolt <= c.rto && p.seqNo == flow.nextSeq && Plain(p) && Add32(flow.count, 1) >= SLOW_START
      && flow.len + |p.payload| < LengthLimit(Add32(flow.count, 1))
  {
    hide LengthLimit, Plain;
    var h, joined := flow.held, Joined(flow, p, now, c.rto);
    if Fits(flow, p, now, c.rto) {
      assert forall j :: 0 <= j < |h| ==> joined[j] == h[j];
      assert joined[|h|] == p;
    }
  }
}
