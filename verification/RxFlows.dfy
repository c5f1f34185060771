/** The flow table of receive coalescing as functions of what arrives: sfxge_rx_qflow_complete,
    sfxge_rx_qflow_add, sfxge_rx_qpacket_coalesce and the tail of sfxge_rx_qcomplete (sfxge_rx.c:1322-1705,
    1848-1874).  RxLro computes them in place; what they mean for the TCP streams is in RxOrder. */
module RxFlows {
  import opened Options
  import opened Words
  import opened RxStreams

  const MAX_FLOW := 1024
  const SLOW_START := 20

  /** The key of a table entry that was never claimed: the table starts as all zeroes. */
  const ZERO_KEY := FlowKey(Tuple(0, 0, 0, 0), 0)

  /** One flow-table entry; held is the chain srf_mp, len its IP length srf_len. */
  datatype Flow = Flow(tag: u32, count: u32, key: FlowKey, nextSeq: u32, lbolt: int,
                       held: seq<Packet>, len: nat)

  const ZERO_FLOW := Flow(0, 0, ZERO_KEY, 0, 0, [], 0)

  datatype Batch = Batch(packets: seq<Packet>, now: int, eop: bool)

  /** The hash function, the retransmission timeout sr_rto and the coalescing mode. */
  datatype Config = Config(hash: Tuple -> u32, rto: int, mode: CoalesceMode)

  /** The flow table, the output chain sr_mp, and the list of occupied flows sr_srfp. */
  datatype Lro = Lro(flows: seq<Flow>, chain: seq<Frame>, occupied: seq<nat>)

  function SlotFor(hash: Tuple -> u32, t: Tuple): (i: nat)
    ensures i < MAX_FLOW
  {
    (hash(t) / 64) % MAX_FLOW
  }

  function TagFor(hash: Tuple -> u32, t: Tuple): u32 {
    Add32(hash(t), 1)
  }

  // ---------------------------------------------------------------- one segment

  /** The in-order segment count after p: restarted after a silence, halved after a gap. */
  function CountAfter(flow: Flow, p: Packet, now: int, rto: int): u32 {
    if now - flow.lbolt > rto then 1
    else if p.seqNo != flow.nextSeq then Min(flow.count, SLOW_START) / 2 + 1
    else Add32(flow.count, 1)
  }

  predicate Continues(flow: Flow, p: Packet, now: int, rto: int) {
    now - flow.lbolt <= rto && p.seqNo == flow.nextSeq && Plain(p) && CountAfter(flow, p, now, rto) >= SLOW_START
  }

  /** Largest merged length for a flow with this many in-order segments: 4k growing to 64k. */
  function LengthLimit(count: u32): (r: nat)
    requires count >= SLOW_START
    ensures 0x1000 <= r <= WORD16
  {
    var shift := Min(count - SLOW_START + 12, 16);
    if shift == 12 then 0x1000
    else if shift == 13 then 0x2000
    else if shift == 14 then 0x4000
    else if shift == 15 then 0x8000
    else 0x1_0000
  }

  /** It starts at 4096 and doubles with every further segment, up to 65536. */
  lemma LimitDoubles(count: u32)
    requires SLOW_START <= count < WORD32 - 1
    ensures LengthLimit(20) == 4096 && LengthLimit(count + 1) == Min(2 * LengthLimit(count), 65536)
  {
  }

  /** p joins the packets that are held. */
  predicate Fits(flow: Flow, p: Packet, now: int, rto: int) {
    && Continues(flow, p, now, rto) && flow.held != []
    && flow.len + |p.payload| < LengthLimit(CountAfter(flow, p, now, rto))
  }

  function Joined(flow: Flow, p: Packet, now: int, rto: int): seq<Packet> {
    if Fits(flow, p, now, rto) then flow.held + [p] else [p]
  }

  /** The frames that completing a chain adds to the output. */
  function Completed(segs: seq<Packet>): seq<Frame> {
    if segs == [] then []
    else
      var last := segs[|segs| - 1].hdr;
      [Frame(segs, Header(ChainLength(segs) % WORD16, last.ack, last.win, last.flags))]
  }

  /** The chain with p is complete at once. */
  predicate Finishes(p: Packet, mode: CoalesceMode) {
    mode == AllowPush && p.hdr.flags.push
  }

  /** The entry after sfxge_rx_qflow_add, whether p was merged or refused. */
  function Added(c: Config, flow: Flow, p: Packet, now: int): Flow {
    var f := flow.(count := CountAfter(flow, p, now, c.rto), nextSeq := EndSeq(p), lbolt := now);
    var joined := Joined(flow, p, now, c.rto);
    if !Continues(flow, p, now, c.rto) || Finishes(p, c.mode) then f.(held := [], len := 0)
    else f.(held := joined, len := ChainLength(joined))
  }

  /** What sfxge_rx_qflow_add puts out. */
  function Emitted(c: Config, flow: Flow, p: Packet, now: int): seq<Frame> {
    if !Continues(flow, p, now, c.rto) then Completed(flow.held)
    else (if Fits(flow, p, now, c.rto) then [] else Completed(flow.held))
         + if Finishes(p, c.mode) then Completed(Joined(flow, p, now, c.rto)) else []
  }

  function Occupy(list: seq<nat>, i: nat): seq<nat> {
    if i in list then list else list + [i]
  }

  /** A flow goes on the list when its first packet is held. */
  function Occupied(c: Config, list: seq<nat>, i: nat, flow: Flow, p: Packet, now: int): seq<nat> {
    if Continues(flow, p, now, c.rto) && !Fits(flow, p, now, c.rto) then Occupy(list, i) else list
  }

  // ---------------------------------------------------------------- one packet

  function Passed(s: Lro, p: Packet): Lro {
    s.(chain := s.chain + [Frame([p], p.hdr)])
  }

  /** p is added to entry i, or passed on if it is refused there. */
  function AddedTo(c: Config, s: Lro, i: nat, p: Packet, now: int): Lro
    requires i < |s.flows|
  {
    var f := s.flows[i];
    var t := Lro(s.flows[i := Added(c, f, p, now)], s.chain + Emitted(c, f, p, now), Occupied(c, s.occupied, i, f, p, now));
    if Continues(f, p, now, c.rto) then t else Passed(t, p)
  }

  /** An entry with another tag is taken over when it is unused or stale, and holds no data. */
  predicate TakesOver(c: Config, flow: Flow, now: int) {
    flow.held == [] && (flow.count == 0 || now - flow.lbolt > c.rto)
  }

  function NewFlow(c: Config, flow: Flow, p: Packet, now: int): Flow {
    Flow(TagFor(c.hash, p.key.tuple), 0, p.key, p.seqNo, now, flow.held, flow.len)
  }

  /** One packet of sfxge_rx_qpacket_coalesce; current is the last flow looked at, or -1. */
  function One(c: Config, s: Lro, p: Packet, now: int, current: int): (r: (Lro, int))
    requires |s.flows| == MAX_FLOW && -1 <= current < MAX_FLOW
    ensures |r.0.flows| == MAX_FLOW && -1 <= r.1 < MAX_FLOW
  {
    if !Eligible(p) then (Passed(s, p), current)
    else if current != -1 && s.flows[current].key == p.key then (AddedTo(c, s, current, p, now), current)
    else
      var i := SlotFor(c.hash, p.key.tuple);
      var f := s.flows[i];
      if f.tag == TagFor(c.hash, p.key.tuple) then (if f.key == p.key then AddedTo(c, s, i, p, now) else Passed(s, p), i)
      else if TakesOver(c, f, now) then (AddedTo(c, s.(flows := s.flows[i := NewFlow(c, f, p, now)]), i, p, now), i)
      else (Passed(s, p), i)
  }

  // ---------------------------------------------------------------- batches

  /** sfxge_rx_qpacket_coalesce, which starts without a current flow. */
  function Coalesced(c: Config, s: Lro, packets: seq<Packet>, now: int): (r: (Lro, int))
    requires |s.flows| == MAX_FLOW
    ensures |r.0.flows| == MAX_FLOW && -1 <= r.1 < MAX_FLOW
  {
    if packets == [] then (s, -1)
    else
      var n := |packets| - 1;
      var r := Coalesced(c, s, packets[..n], now);
      One(c, r.0, packets[n], now, r.1)
  }

  function CompletedAt(s: Lro, i: nat): Lro
    requires i < |s.flows|
  {
    s.(flows := s.flows[i := s.flows[i].(held := [], len := 0)], chain := s.chain + Completed(s.flows[i].held))
  }

  /** Completing the flows of a list. */
  function Flushed(s: Lro, list: seq<nat>): (t: Lro)
    requires forall i :: i in list ==> i < |s.flows|
    ensures |t.flows| == |s.flows| && t.occupied == s.occupied
    decreases |list|
  {
    if list == [] then s
    else
      assert list[0] in list && forall i :: i in list[1..] ==> i in list;
      Flushed(CompletedAt(s, list[0]), list[1..])
  }

  function Singles(packets: seq<Packet>): seq<Frame> {
    if packets == [] then []
    else Singles(packets[..|packets| - 1]) + [Frame([packets[|packets| - 1]], packets[|packets| - 1].hdr)]
  }

  predicate Shape(s: Lro) {
    |s.flows| == MAX_FLOW && forall i :: i in s.occupied ==> i < MAX_FLOW
  }

  function Received(c: Config, s: Lro, b: Batch): (t: Lro)
    requires |s.flows| == MAX_FLOW
    ensures |t.flows| == MAX_FLOW
  {
    if c.mode == Off then s.(chain := s.chain + Singles(b.packets)) else Coalesced(c, s, b.packets, b.now).0
  }

  lemma OneShape(c: Config, s: Lro, p: Packet, now: int, current: int)
    requires Shape(s) && -1 <= current < MAX_FLOW
    ensures Shape(One(c, s, p, now, current).0)
  {
    hide Added, Emitted, Continues, Fits, SlotFor, TagFor, NewFlow, TakesOver, Eligible;
  }

  lemma {:induction false} CoalescedShape(c: Config, s: Lro, packets: seq<Packet>, now: int)
    requires Shape(s)
    ensures Shape(Coalesced(c, s, packets, now).0)
  {
    hide One;
    if packets != [] {
      var n := |packets| - 1;
      CoalescedShape(c, s, packets[..n], now);
      var r := Coalesced(c, s, packets[..n], now);
      OneShape(c, r.0, packets[n], now, r.1);
    }
  }

  /** One batch: coalesce, then complete every occupied flow at the end of a poll. */
  function AfterBatch(c: Config, s: Lro, b: Batch): (t: Lro)
    requires Shape(s)
    ensures Shape(t)
  {
    CoalescedShape(c, s, b.packets, b.now);
    var t := Received(c, s, b);
    if b.eop then Flushed(t.(occupied := []), t.occupied) else t
  }

  function Start(): Lro {
    Lro(seq(MAX_FLOW, _ => ZERO_FLOW), [], [])
  }

  /** The table after a run of batches; what each batch put out has been given to the stack. */
  function After(c: Config, batches: seq<Batch>): (s: Lro)
    ensures Shape(s) && s.chain == []
  {
    if batches == [] then Start()
    else AfterBatch(c, After(c, batches[..|batches| - 1]), batches[|batches| - 1]).(chain := [])
  }

  /** All frames given to the stack in a run. */
  function Out(c: Config, batches: seq<Batch>): seq<Frame> {
    if batches == [] then []
    else
      var n := |batches| - 1;
      Out(c, batches[..n]) + AfterBatch(c, After(c, batches[..n]), batches[n]).chain
  }

  function Arrivals(batches: seq<Batch>): seq<Packet> {
    if batches == [] then [] else Arrivals(batches[..|batches| - 1]) + batches[|batches| - 1].packets
  }

  // ---------------------------------------------------------------- what every entry satisfies

  ghost predicate FlowOk(flow: Flow, mode: CoalesceMode) {
    && (flow.held == [] ==> flow.len == 0)
    && (flow.held != [] ==>
          && Mergeable(flow.held, mode)
          && flow.held[0].key == flow.key
          && flow.len == ChainLength(flow.held))
  }

  /** Between packets, held data ends where the entry expects the next segment to start, and a
      push has not been left waiting. */
  ghost predicate Settled(flow: Flow, mode: CoalesceMode) {
    flow.held != [] ==>
      && flow.nextSeq == EndSeq(flow.held[|flow.held| - 1])
      && (mode == AllowPush ==> !flow.held[|flow.held| - 1].hdr.flags.push)
  }

  /** Every entry is in order, and the occupied ones are on the list. */
  ghost predicate Sane(c: Config, s: Lro) {
    && Shape(s)
    && (forall i :: 0 <= i < MAX_FLOW ==> FlowOk(s.flows[i], c.mode) && Settled(s.flows[i], c.mode))
    && (forall i :: 0 <= i < MAX_FLOW && s.flows[i].held != [] ==> i in s.occupied && c.mode != Off)
  }

  lemma LengthGrows(segs: seq<Packet>, p: Packet)
    requires segs != []
    ensures ChainLength(segs + [p]) == ChainLength(segs) + |p.payload|
  {
    assert (segs + [p])[..|segs|] == segs;
  }

  /** One more in-sequence packet keeps a chain mergeable. */
  lemma ExtendMergeable(segs: seq<Packet>, p: Packet, mode: CoalesceMode)
    requires Mergeable(segs, mode) && Plain(p) && StreamOf(p) == Some(segs[0].key)
    requires p.seqNo == EndSeq(segs[|segs| - 1])
    requires ChainLength(segs) + |p.payload| < WORD16
    requires mode == AllowPush ==> !segs[|segs| - 1].hdr.flags.push
    ensures Mergeable(segs + [p], mode)
    ensures ChainLength(segs + [p]) == ChainLength(segs) + |p.payload|
  {
    hide Plain, EndSeq, StreamOf, ChainLength;
    var n := |segs|;
    var all := segs + [p];
    assert all[..n] == segs && all[n] == p && all[0] == segs[0];
    LengthGrows(segs, p);
    forall j | 0 <= j < |all|
      ensures Plain(all[j]) && StreamOf(all[j]) == Some(all[0].key)
    {
      assert j < n ==> all[j] == segs[j];
    }
    forall j | 0 < j < |all|
      ensures all[j].seqNo == EndSeq(all[j - 1])
    {
      assert all[j - 1] == segs[j - 1] && (j < n ==> all[j] == segs[j]);
    }
    forall j | 0 <= j < |all| - 1
      ensures mode == AllowPush ==> !all[j].hdr.flags.push
    {
      assert all[j] == segs[j];
    }
  }

  /** The chain that p joins is mergeable, and ends with p. */
  lemma JoinedIsMergeable(c: Config, flow: Flow, p: Packet, now: int)
    requires FlowOk(flow, c.mode) && Settled(flow, c.mode) && Eligible(p) && flow.key == p.key
    requires Continues(flow, p, now, c.rto)
    ensures var joined := Joined(flow, p, now, c.rto);
      && Mergeable(joined, c.mode) && joined[0].key == p.key && joined[|joined| - 1] == p
      && ChainLength(joined) == (if Fits(flow, p, now, c.rto) then flow.len + |p.payload| else p.hdr.ipLen)
  {
    hide EndSeq, ChainLength, CountAfter;
    if Fits(flow, p, now, c.rto) {
      hide LengthLimit;
      assert flow.len + |p.payload| < WORD16;
      ExtendMergeable(flow.held, p, c.mode);
    } else {
      OneIsMergeable(p, c.mode);
    }
  }

  lemma OneIsMergeable(p: Packet, mode: CoalesceMode)
    requires Plain(p) && Eligible(p)
    ensures Mergeable([p], mode) && ChainLength([p]) == p.hdr.ipLen
  {
  }

  ghost predicate Good(frames: seq<Frame>, mode: CoalesceMode) {
    forall f :: f in frames ==> GoodFrame(f, mode)
  }

  lemma CompletedIsGood(segs: seq<Packet>, mode: CoalesceMode)
    requires segs == [] || Mergeable(segs, mode)
    ensures Good(Completed(segs), mode)
  {
  }

  /** What is emitted is good, and so is the entry left behind. */
  lemma AddedIsOk(c: Config, flow: Flow, p: Packet, now: int)
    requires FlowOk(flow, c.mode) && Settled(flow, c.mode) && Eligible(p) && flow.key == p.key
    ensures FlowOk(Added(c, flow, p, now), c.mode) && Settled(Added(c, flow, p, now), c.mode)
    ensures Good(Emitted(c, flow, p, now), c.mode)
  {
    hide Mergeable, GoodFrame, EndSeq, ChainLength, CountAfter, Completed, Fits;
    CompletedIsGood(flow.held, c.mode);
    if Continues(flow, p, now, c.rto) {
      JoinedIsMergeable(c, flow, p, now);
      CompletedIsGood(Joined(flow, p, now, c.rto), c.mode);
    }
  }

  /** The packets emitted and still held are those that were held, and p if it was merged. */
  lemma AddedSegments(c: Config, flow: Flow, p: Packet, now: int)
    ensures Segments(Emitted(c, flow, p, now)) + Added(c, flow, p, now).held
      == flow.held + if Continues(flow, p, now, c.rto) then [p] else []
  {
    hide Continues, Finishes, ChainLength, CountAfter, EndSeq, Completed, Segments, LengthLimit;
    CompletedSegments(flow.held);
    var joined := Joined(flow, p, now, c.rto);
    CompletedSegments(joined);
    var before := if Fits(flow, p, now, c.rto) then [] else Completed(flow.held);
    var behind := if Finishes(p, c.mode) then Completed(joined) else [];
    SegmentsConcat(before, behind);
    NoSegments();
    if Continues(flow, p, now, c.rto) {
      assert Segments(before) + joined == flow.held + [p];
      assert Segments(before) + (joined + []) == (Segments(before) + joined) + [];
    }
  }

  lemma CompletedSegments(segs: seq<Packet>)
    ensures Segments(Completed(segs)) == segs
  {
    if segs != [] {
      assert Completed(segs)[..0] == [];
    }
  }

  // ---------------------------------------------------------------- slow start

  /** The entry after some packets of its flow, each with its time of arrival. */
  function AddedAll(c: Config, flow: Flow, ps: seq<Packet>, at: seq<int>): Flow
    requires |ps| == |at|
  {
    if ps == [] then flow
    else
      var n := |ps| - 1;
      Added(c, AddedAll(c, flow, ps[..n], at[..n]), ps[n], at[n])
  }

  /** Each packet begins where the one before it ends, and comes in time. */
  ghost predicate InSequence(c: Config, ps: seq<Packet>, at: seq<int>) {
    && |ps| == |at|
    && forall j, k :: 0 <= j && k == j + 1 && k < |ps| ==>
         ps[k].seqNo == (ps[j].seqNo + |ps[j].payload|) % 0x1_0000_0000 && at[k] - at[j] <= c.rto
  }

  lemma AddedKeepsTime(c: Config, flow: Flow, p: Packet, now: int)
    ensures var f := Added(c, flow, p, now);
      f.lbolt == now && f.nextSeq == (p.seqNo + |p.payload|) % 0x1_0000_0000 && f.count == CountAfter(flow, p, now, c.rto)
  {
    hide LengthLimit, ChainLength;
  }

  lemma {:induction false} SequenceCounts(c: Config, flow: Flow, ps: seq<Packet>, at: seq<int>, n: nat)
    requires InSequence(c, ps, at) && 0 < n <= |ps| && n <= 20 && CountAfter(flow, ps[0], at[0], c.rto) <= 20
    ensures var f := AddedAll(c, flow, ps[..n], at[..n]); var last := ps[n - 1];
      && f.count == CountAfter(flow, ps[0], at[0], c.rto) + n - 1
      && f.nextSeq == (last.seqNo + |last.payload|) % 0x1_0000_0000 && f.lbolt == at[n - 1]
  {
    hide Added, AddedAll, CountAfter;
    var m := n - 1;
    AllButLast(c, flow, ps, at, n);
    var f := AddedAll(c, flow, ps[..m], at[..m]);
    AddedKeepsTime(c, f, ps[m], at[m]);
    if m > 0 {
      SequenceCounts(c, flow, ps, at, m);
      NextCounts(f, ps[m], at[m], c.rto);
      assert ps[m].seqNo == (ps[m - 1].seqNo + |ps[m - 1].payload|) % 0x1_0000_0000 && at[m] - at[m - 1] <= c.rto;
    }
  }

  lemma AllButLast(c: Config, flow: Flow, ps: seq<Packet>, at: seq<int>, n: nat)
    requires |ps| == |at| && 0 < n <= |ps|
    ensures var m := n - 1;
      && AddedAll(c, flow, ps[..n], at[..n]) == Added(c, AddedAll(c, flow, ps[..m], at[..m]), ps[m], at[m])
      && (m == 0 ==> AddedAll(c, flow, ps[..m], at[..m]) == flow)
  {
    hide Added;
    var m := n - 1;
    assert ps[..n][..m] == ps[..m] && at[..n][..m] == at[..m];
  }

  lemma NextCounts(f: Flow, p: Packet, now: int, rto: int)
    requires now - f.lbolt <= rto && p.seqNo == f.nextSeq && f.count < 100
    ensures CountAfter(f, p, now, rto) == f.count + 1
  {
  }

  /** How long an entry does not merge after a gap, or after a silence longer than the timeout: packet k behind the
      one that came late or out of sequence is merged exactly when it has data and no flag against it, and k has
      reached 19, or 19 less half of what the count was before a gap, of which at most 20 count. */
  lemma SlowStart(c: Config, flow: Flow, ps: seq<Packet>, at: seq<int>, k: nat)
    requires InSequence(c, ps, at) && 0 < k < |ps| && k <= 19
    requires at[0] - flow.lbolt > c.rto || ps[0].seqNo != flow.nextSeq
    ensures var f, q := AddedAll(c, flow, ps[..k], at[..k]), ps[k];
      Continues(f, q, at[k], c.rto) <==>
        && q.payload != [] && q.urp == 0 && !q.hdr.flags.urg && !q.hdr.flags.syn && !q.hdr.flags.rst
        && k >= if at[0] - flow.lbolt > c.rto then 19 else if flow.count >= 20 then 9 else 19 - flow.count / 2
  {
    hide AddedAll, Continues;
    SequenceCounts(c, flow, ps, at, k);
    ContinuesIs(AddedAll(c, flow, ps[..k], at[..k]), ps[k], at[k], c.rto);
  }

  lemma ContinuesIs(f: Flow, q: Packet, now: int, rto: int)
    ensures Continues(f, q, now, rto) <==>
      && now - f.lbolt <= rto && q.seqNo == f.nextSeq && Add32(f.count, 1) >= 20
      && q.payload != [] && q.urp == 0 && !q.hdr.flags.urg && !q.hdr.flags.syn && !q.hdr.flags.rst
  {
  }

  lemma AddedToIsSane(c: Config, s: Lro, i: nat, p: Packet, now: int)
    requires Sane(c, s) && c.mode != Off && i < MAX_FLOW && Eligible(p) && s.flows[i].key == p.key
    ensures Sane(c, AddedTo(c, s, i, p, now))
    ensures Good(s.chain, c.mode) ==> Good(AddedTo(c, s, i, p, now).chain, c.mode)
  {
    hide FlowOk, Settled, GoodFrame, Fits, Continues;
    AddedIsOk(c, s.flows[i], p, now);
    PassedIsGood(p, c.mode);
    HeldIsListed(c, s.flows[i], p, now);
  }

  lemma PassedIsGood(p: Packet, mode: CoalesceMode)
    ensures GoodFrame(Frame([p], p.hdr), mode)
  {
  }

  /** An entry that comes to hold data has had some before, or goes on the list. */
  lemma HeldIsListed(c: Config, flow: Flow, p: Packet, now: int)
    ensures Added(c, flow, p, now).held != [] ==>
      Continues(flow, p, now, c.rto) && (Fits(flow, p, now, c.rto) ==> flow.held != [])
  {
  }

  lemma OneIsSane(c: Config, s: Lro, p: Packet, now: int, current: int)
    requires Sane(c, s) && c.mode != Off && -1 <= current < MAX_FLOW
    ensures Sane(c, One(c, s, p, now, current).0)
    ensures Good(s.chain, c.mode) ==> Good(One(c, s, p, now, current).0.chain, c.mode)
  {
    PassedIsGood(p, c.mode);
    hide GoodFrame, AddedTo, SlotFor;
    if Eligible(p) {
      var i := SlotFor(c.hash, p.key.tuple);
      if current != -1 && s.flows[current].key == p.key {
        AddedToIsSane(c, s, current, p, now);
      } else if s.flows[i].tag == TagFor(c.hash, p.key.tuple) {
        if s.flows[i].key == p.key {
          AddedToIsSane(c, s, i, p, now);
        }
      } else if TakesOver(c, s.flows[i], now) {
        AddedToIsSane(c, s.(flows := s.flows[i := NewFlow(c, s.flows[i], p, now)]), i, p, now);
      }
    }
  }

  lemma SaneShape(c: Config, s: Lro)
    ensures Sane(c, s) ==> Shape(s) && |s.flows| == MAX_FLOW
  {
  }

  lemma {:induction false} CoalescedIsSane(c: Config, s: Lro, packets: seq<Packet>, now: int)
    requires Sane(c, s) && c.mode != Off
    ensures Sane(c, Coalesced(c, s, packets, now).0)
    ensures Good(s.chain, c.mode) ==> Good(Coalesced(c, s, packets, now).0.chain, c.mode)
  {
    SaneShape(c, s);
    hide Sane, Good, One;
    if packets != [] {
      var n := |packets| - 1;
      CoalescedIsSane(c, s, packets[..n], now);
      var r := Coalesced(c, s, packets[..n], now);
      OneIsSane(c, r.0, packets[n], now, r.1);
    }
  }

  lemma {:induction false} SinglesAreGood(packets: seq<Packet>, mode: CoalesceMode)
    ensures Good(Singles(packets), mode) && Segments(Singles(packets)) == packets
  {
    hide GoodFrame, Segments;
    NoSegments();
    if packets != [] {
      var n := |packets| - 1;
      SinglesAreGood(packets[..n], mode);
      PassedIsGood(packets[n], mode);
      SegmentsAppend(Singles(packets[..n]), Frame([packets[n]], packets[n].hdr));
      assert packets[..n] + [packets[n]] == packets;
    }
  }

  /** While the list is worked off, the entries that hold data are on the rest of it. */
  ghost predicate Flushing(c: Config, s: Lro, list: seq<nat>) {
    && |s.flows| == MAX_FLOW && (forall i :: i in list ==> i < MAX_FLOW) && s.occupied == []
    && (forall i :: 0 <= i < MAX_FLOW ==> FlowOk(s.flows[i], c.mode) && Settled(s.flows[i], c.mode))
    && (forall i :: 0 <= i < MAX_FLOW && s.flows[i].held != [] ==> i in list && c.mode != Off)
  }

  lemma FlushOne(c: Config, s: Lro, list: seq<nat>)
    requires Flushing(c, s, list) && list != []
    ensures list[0] < MAX_FLOW && Flushing(c, CompletedAt(s, list[0]), list[1..])
    ensures Good(s.chain, c.mode) ==> Good(CompletedAt(s, list[0]).chain, c.mode)
  {
    assert list[0] in list && list == [list[0]] + list[1..];
    assert forall i :: i in list <==> i == list[0] || i in list[1..];
    CompletedIsGood(s.flows[list[0]].held, c.mode);
    hide Mergeable, GoodFrame, ChainLength, Completed;
  }

  /** A flush leaves no entry with data. */
  lemma {:induction false} FlushedIsSane(c: Config, s: Lro, list: seq<nat>)
    requires Flushing(c, s, list)
    ensures var t := Flushed(s, list);
      Sane(c, t) && (forall i :: 0 <= i < MAX_FLOW ==> t.flows[i].held == []) && (Good(s.chain, c.mode) ==> Good(t.chain, c.mode))
    decreases |list|
  {
    if list != [] {
      FlushOne(c, s, list);
      hide Flushing, CompletedAt, Good;
      FlushedIsSane(c, CompletedAt(s, list[0]), list[1..]);
    }
  }

  lemma BatchIsSane(c: Config, s: Lro, b: Batch)
    requires Sane(c, s) && Good(s.chain, c.mode)
    ensures var t := AfterBatch(c, s, b);
      Sane(c, t) && Good(t.chain, c.mode) && (b.eop ==> forall i :: 0 <= i < MAX_FLOW ==> t.flows[i].held == [])
  {
    hide FlowOk, Settled, GoodFrame, Coalesced, Flushed;
    if c.mode == Off {
      SinglesAreGood(b.packets, c.mode);
    } else {
      CoalescedIsSane(c, s, b.packets, b.now);
    }
    var t := Received(c, s, b);
    if b.eop {
      FlushedIsSane(c, t.(occupied := []), t.occupied);
    }
  }

  lemma StartIsSane(c: Config)
    ensures Sane(c, Start())
  {
  }

  /** In any run every entry stays in order, every frame is one untouched packet or a mergeable chain, and the end
      of a poll leaves no entry with data. */
  lemma {:induction false} RunIsSane(c: Config, batches: seq<Batch>)
    ensures Sane(c, After(c, batches)) && Good(Out(c, batches), c.mode)
    ensures batches != [] && batches[|batches| - 1].eop ==>
      forall i :: 0 <= i < MAX_FLOW ==> After(c, batches).flows[i].held == []
  {
    hide FlowOk, Settled, GoodFrame, AfterBatch;
    if batches == [] {
      StartIsSane(c);
    } else {
      var n := |batches| - 1;
      RunIsSane(c, batches[..n]);
      BatchIsSane(c, After(c, batches[..n]), batches[n]);
    }
  }
}
