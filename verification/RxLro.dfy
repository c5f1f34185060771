/** Receive coalescing as the driver runs it, on the flow table in place: sfxge_rx_qflow_complete,
    sfxge_rx_qflow_add, sfxge_rx_qpacket_coalesce and the tail of sfxge_rx_qcomplete. */
module RxLro {
  import opened Options
  import opened Words
  import opened RxStreams
  import opened RxFlows
  import opened RxOrder

  class RxQueue {
    const hash: Tuple -> u32
    const rto: int
    const mode: CoalesceMode
    const flow: array<Flow>

    var chain: seq<Frame>       // the output chain sr_mp
    var occupied: seq<nat>      // the list of occupied flows sr_srfp

    function Conf(): Config {
      Config(hash, rto, mode)
    }

    ghost function Now(): Lro
      reads this, flow
    {
      Lro(flow[..], chain, occupied)
    }

    ghost predicate Valid()
      reads this, flow
    {
      Sane(Conf(), Now())
    }

    constructor (hash: Tuple -> u32, rto: int, mode: CoalesceMode)
      ensures Valid() && Now() == Start() && fresh(flow) && Conf() == Config(hash, rto, mode)
    {
      this.hash, this.rto, this.mode := hash, rto, mode;
      flow := new Flow[MAX_FLOW](_ => ZERO_FLOW);
      chain, occupied := [], [];
      new;
      assert flow[..] == Start().flows;
      StartIsSane(Conf());
    }

    /** sfxge_rx_qflow_complete: emit the held chain under its merged header. */
    method FlowComplete(i: nat)
      requires i < flow.Length && FlowOk(flow[i], mode)
      modifies this`chain, flow
      ensures var f := old(flow[i]); f.held == [] ==> chain == old(chain)
      ensures var f := old(flow[i]); f.held != [] ==> (var last := f.held[|f.held| - 1].hdr;
        chain == old(chain) + [Frame(f.held, Header(f.len, last.ack, last.win, last.flags))])
      ensures flow[..] == old(flow[..])[i := old(flow[i]).(held := [], len := 0)]
      ensures chain == old(chain) + Completed(old(flow[i]).held)
    {
      var f := flow[i];
      if f.held == [] {
        assert flow[..] == old(flow[..])[i := f.(held := [], len := 0)];
        return;
      }
      var last := f.held[|f.held| - 1];
      var frame := Frame(f.held, Header(f.len, last.hdr.ack, last.hdr.win, last.hdr.flags));
      flow[i] := f.(held := [], len := 0);
      chain := chain + [frame];
      assert flow[..] == old(flow[..])[i := f.(held := [], len := 0)];
    }

    /** Append p to the held chain of entry i, starting one if there is none. */
    method Hold(i: nat, p: Packet)
      requires i < flow.Length
      modifies flow, this`occupied
      ensures flow[..] == old(flow[..])[i := flow[i]]
      ensures var f := old(flow[i]);
        flow[i] == f.(held := f.held + [p], len := if f.held == [] then p.hdr.ipLen else f.len + |p.payload|)
      ensures occupied == if old(flow[i]).held == [] then Occupy(old(occupied), i) else old(occupied)
    {
      var f := flow[i];
      if f.held == [] {
        if i !in occupied {
          occupied := occupied + [i];
        }
        f := f.(held := [p], len := p.hdr.ipLen);
      } else {
        f := f.(held := f.held + [p], len := f.len + |p.payload|);
      }
      flow[i] := f;
      assert flow[..] == old(flow[..])[i := f];
    }

    /** The common failure exit of sfxge_rx_qflow_add: flush the flow, stamp it, refuse the packet. */
    method Refuse(i: nat, now: int)
      requires i < flow.Length && FlowOk(flow[i], mode)
      modifies flow, this`chain
      ensures flow[..] == old(flow[..])[i := old(flow[i]).(held := [], len := 0, lbolt := now)]
      ensures chain == old(chain) + Completed(old(flow[i]).held)
    {
      FlowComplete(i);
      flow[i] := flow[i].(lbolt := now);
      assert flow[..] == old(flow[..])[i := flow[i]];
    }

    /** Flush the held chain if p would make it too long, then append p; was is the entry as it
        stood before its counters were updated. */
    method Join(i: nat, p: Packet, now: int, ghost was: Flow)
      requires i < flow.Length && FlowOk(was, mode) && Settled(was, mode) && Eligible(p) && was.key == p.key
      requires Continues(was, p, now, rto)
      requires flow[i] == was.(count := CountAfter(was, p, now, rto), nextSeq := EndSeq(p))
      modifies flow, this`chain, this`occupied
      ensures var joined := Joined(was, p, now, rto);
        flow[..] == old(flow[..])[i := old(flow[i]).(held := joined, len := ChainLength(joined))] && FlowOk(flow[i], mode)
      ensures chain == old(chain) + if Fits(was, p, now, rto) then [] else Completed(was.held)
      ensures occupied == Occupied(Conf(), old(occupied), i, was, p, now)
    {
      hide Mergeable, LengthLimit, ChainLength, EndSeq, CountAfter;
      JoinedIsMergeable(Conf(), was, p, now);
      if flow[i].len + |p.payload| >= LengthLimit(flow[i].count) {
        FlowComplete(i);
      }
      assert flow[i].held == if Fits(was, p, now, rto) then was.held else [];
      Hold(i, p);
      assert flow[i].held == Joined(was, p, now, rto);
    }

    /** The success path of sfxge_rx_qflow_add, once p is known to continue the flow. */
    method Merge(i: nat, p: Packet, now: int, ghost was: Flow)
      requires i < flow.Length && FlowOk(was, mode) && Settled(was, mode) && Eligible(p) && was.key == p.key
      requires Continues(was, p, now, rto)
      requires flow[i] == was.(count := CountAfter(was, p, now, rto), nextSeq := EndSeq(p))
      modifies flow, this`chain, this`occupied
      ensures flow[..] == old(flow[..])[i := Added(Conf(), was, p, now)]
      ensures chain == old(chain) + Emitted(Conf(), was, p, now)
      ensures occupied == Occupied(Conf(), old(occupied), i, was, p, now)
    {
      hide Mergeable, LengthLimit, ChainLength, EndSeq, CountAfter, Completed, Fits, Joined, FlowOk, Continues, Settled;
      Join(i, p, now, was);
      ghost var joined := Joined(was, p, now, rto);
      ghost var before := if Fits(was, p, now, rto) then [] else Completed(was.held);
      assert chain + [] == chain && before + [] == before;
      if mode == AllowPush && p.hdr.flags.push {
        FlowComplete(i);
        assert old(chain) + before + Completed(joined) == old(chain) + (before + Completed(joined));
      }
      flow[i] := flow[i].(lbolt := now);
      assert flow[..] == old(flow[..])[i := flow[i]];
    }

    /** sfxge_rx_qflow_add: merge p into its flow, or flush the flow and leave p to the caller. */
    method FlowAdd(i: nat, p: Packet, now: int) returns (merged: bool)
      requires i < flow.Length && FlowOk(flow[i], mode) && Settled(flow[i], mode) && Eligible(p) && flow[i].key == p.key
      modifies flow, this`chain, this`occupied
      ensures var f := old(flow[i]); merged <==>
        && now - f.lbolt <= rto && p.seqNo == f.nextSeq && (f.count + 1) % 0x1_0000_0000 >= 20
        && p.payload != [] && p.urp == 0 && !p.hdr.flags.urg && !p.hdr.flags.syn && !p.hdr.flags.rst
      ensures var f := old(flow[i]);
        && (now - f.lbolt > rto ==> flow[i].count == 1)
        && (now - f.lbolt <= rto && p.seqNo != f.nextSeq ==> flow[i].count == if f.count > 20 then 11 else f.count / 2 + 1)
        && (now - f.lbolt <= rto && p.seqNo == f.nextSeq ==> flow[i].count == (f.count + 1) % 0x1_0000_0000)
      ensures merged <==> Continues(old(flow[i]), p, now, rto)
      ensures flow[i].nextSeq == (p.seqNo + |p.payload|) % 0x1_0000_0000 && flow[i].lbolt == now
      ensures flow[i].held == [] <==> !merged || (mode == AllowPush && p.hdr.flags.push)
      ensures var f, g := old(flow[i]), flow[i]; g.held != [] ==>
        g.held == if f.held != [] && f.len + |p.payload| < LengthLimit(g.count) then f.held + [p] else [p]
      ensures Segments(chain) + flow[i].held == Segments(old(chain)) + (old(flow[i]).held + if merged then [p] else [])
      ensures flow[..] == old(flow[..])[i := Added(Conf(), old(flow[i]), p, now)]
      ensures chain == old(chain) + Emitted(Conf(), old(flow[i]), p, now)
      ensures occupied == Occupied(Conf(), old(occupied), i, old(flow[i]), p, now)
    {
      hide Mergeable, LengthLimit, ChainLength, EndSeq, Completed, Fits, Joined, Segments;
      AddedMeans(Conf(), flow[i], p, now);
      AddedChain(Conf(), flow[i], p, now, chain);
      var size := |p.payload|;
      var f := flow[i];
      if now - f.lbolt > rto {
        flow[i] := f.(count := 1, nextSeq := EndSeq(p));
        Refuse(i, now);
        return false;
      }
      if p.seqNo != f.nextSeq {
        var count := f.count;
        if count > SLOW_START {
          count := SLOW_START;
        }
        flow[i] := f.(count := count / 2 + 1, nextSeq := EndSeq(p));
        Refuse(i, now);
        return false;
      }
      flow[i] := f.(count := Add32(f.count, 1), nextSeq := EndSeq(p));
      if size == 0 || p.hdr.flags.urg || p.hdr.flags.syn || p.hdr.flags.rst || p.urp != 0 {
        Refuse(i, now);
        return false;
      }
      if flow[i].count < SLOW_START {
        Refuse(i, now);
        return false;
      }
      Merge(i, p, now, f);
      return true;
    }

    /** The table lookup of sfxge_rx_qpacket_coalesce: an entry is taken over only when it is
        unused or stale, and only when it holds no data. */
    method Lookup(p: Packet, now: int) returns (ok: bool, i: nat)
      requires flow.Length == MAX_FLOW
      modifies flow
      ensures i == hash(p.key.tuple) / 64 % 1024
      ensures var f, tag := old(flow[i]), (hash(p.key.tuple) + 1) % 0x1_0000_0000;
        && (ok <==> if f.tag == tag then f.key == p.key else f.held == [] && (f.count == 0 || now - f.lbolt > rto))
        && (f.tag != tag && ok ==> var g := flow[i];
              g.tag == tag && g.key == p.key && g.count == 0 && g.nextSeq == p.seqNo && g.lbolt == now && g.held == [])
      ensures i == SlotFor(hash, p.key.tuple)
      ensures var f, tag := old(flow[i]), TagFor(hash, p.key.tuple);
        && (ok <==> if f.tag == tag then f.key == p.key else TakesOver(Conf(), f, now))
        && flow[..] == old(flow[..])[i := if f.tag != tag && ok then NewFlow(Conf(), f, p, now) else f]
    {
      i := SlotFor(hash, p.key.tuple);
      var tag := TagFor(hash, p.key.tuple);
      var f := flow[i];
      if tag != f.tag {
        if f.count != 0 && now - f.lbolt <= rto {
          return false, i;
        }
        if f.held != [] {
          return false, i;
        }
        flow[i] := Flow(tag, 0, p.key, p.seqNo, now, f.held, f.len);
        return true, i;
      }
      return f.key == p.key, i;
    }

    /** Pass p on unmerged. */
    method Reject(p: Packet)
      modifies this`chain
      ensures chain == old(chain) + [Frame([p], p.hdr)]
    {
      chain := chain + [Frame([p], p.hdr)];
    }

    /** The label add: p goes to entry i, or on to the stack. */
    method AddOrPass(i: nat, p: Packet, now: int)
      requires i < flow.Length && FlowOk(flow[i], mode) && Settled(flow[i], mode) && Eligible(p) && flow[i].key == p.key
      modifies flow, this`chain, this`occupied
      ensures Now() == AddedTo(Conf(), old(Now()), i, p, now)
    {
      hide FlowOk, Settled, Continues, Added, Emitted, Occupied, Segments, LengthLimit;
      var merged := FlowAdd(i, p, now);
      if !merged {
        Reject(p);
      }
    }

    /** One packet of sfxge_rx_qpacket_coalesce; current is the last flow looked at, or -1. */
    method CoalesceOne(p: Packet, now: int, current: int) returns (next: int)
      requires Valid() && mode != Off && -1 <= current < MAX_FLOW
      modifies flow, this`chain, this`occupied
      ensures Valid() && (Now(), next) == One(Conf(), old(Now()), p, now, current)
    {
      OneIsSane(Conf(), Now(), p, now, current);
      hide SlotFor, TagFor, AddedTo, FlowOk, Settled, Eligible, TakesOver, NewFlow;
      next := current;
      if !Eligible(p) {
        Reject(p);
      } else if current != -1 && flow[current].key == p.key {
        AddOrPass(current, p, now);
      } else {
        next := LookupAndAdd(p, now);
      }
    }

    /** The label lookup: p goes to the entry of its hash if that is its own or can be taken over. */
    method LookupAndAdd(p: Packet, now: int) returns (i: nat)
      requires Valid() && Eligible(p)
      modifies flow, this`chain, this`occupied
      ensures i == SlotFor(hash, p.key.tuple)
      ensures var c, s := Conf(), old(Now()); var f := s.flows[i];
        Now() == if f.tag == TagFor(hash, p.key.tuple) then (if f.key == p.key then AddedTo(c, s, i, p, now) else Passed(s, p))
                 else if TakesOver(c, f, now) then AddedTo(c, s.(flows := s.flows[i := NewFlow(c, f, p, now)]), i, p, now)
                 else Passed(s, p)
    {
      hide SlotFor, TagFor, AddedTo, FlowOk, Settled, Eligible, TakesOver, NewFlow;
      ghost var s := Now();
      var ok;
      ok, i := Lookup(p, now);
      assert s.flows[i := s.flows[i]] == s.flows;
      if ok {
        NewFlowIsOk(Conf(), s.flows[i], p, now);
        AddOrPass(i, p, now);
      } else {
        Reject(p);
      }
    }

    /** sfxge_rx_qpacket_coalesce.  It is to start with the flow last appended to, but the link it reads is the
        null end of the list. */
    method Coalesce(packets: seq<Packet>, now: int)
      requires Valid() && mode != Off
      modifies flow, this`chain, this`occupied
      ensures Valid() && Now() == Coalesced(Conf(), old(Now()), packets, now).0
    {
      hide One, Sane;
      SaneShape(Conf(), Now());
      var current := -1;
      var n := 0;
      assert packets[..0] == [];
      while n < |packets|
        invariant 0 <= n <= |packets| && -1 <= current < MAX_FLOW && Valid()
        invariant (Now(), current) == Coalesced(Conf(), old(Now()), packets[..n], now)
      {
        assert packets[..n + 1][..n] == packets[..n];
        current := CoalesceOne(packets[n], now, current);
        n := n + 1;
      }
      assert packets[..n] == packets;
    }

    /** Complete every occupied flow, as sfxge_rx_qcomplete does at the end of a poll. */
    method Flush()
      requires Valid()
      modifies flow, this`chain, this`occupied
      ensures Valid() && forall i :: 0 <= i < MAX_FLOW ==> flow[i].held == []
      ensures Now() == Flushed(old(Now()).(occupied := []), old(occupied))
    {
      hide Mergeable, ChainLength, EndSeq, Completed;
      var list := occupied;
      occupied := [];
      FlushedIsSane(Conf(), Now(), list);
      hide Flushed, CompletedAt, FlowOk, Settled;
      while list != []
        invariant flow.Length == MAX_FLOW && Flushing(Conf(), Now(), list)
        invariant Flushed(Now(), list) == Flushed(old(Now()).(occupied := []), old(occupied))
        decreases |list|
      {
        FlushUnfolds(Conf(), Now(), list);
        FlushOne(Conf(), Now(), list);
        FlowComplete(list[0]);
        list := list[1..];
      }
      FlushEnds(Now());
    }

    /** The batch part of sfxge_rx_qcomplete: coalesce, flush at the end of a poll, pass up. */
    method Complete(batch: Batch) returns (out: seq<Frame>)
      requires Valid() && chain == []
      modifies this, flow
      ensures Valid() && chain == []
      ensures var t := AfterBatch(Conf(), old(Now()), batch); out == t.chain && Now() == t.(chain := [])
    {
      hide One, Sane, Coalesced, Flushed;
      SaneShape(Conf(), Now());
      if mode != Off {
        Coalesce(batch.packets, batch.now);
      } else {
        var n := 0;
        assert batch.packets[..0] == [] && chain + [] == chain;
        while n < |batch.packets|
          invariant 0 <= n <= |batch.packets| && flow[..] == old(flow[..]) && occupied == old(occupied)
          invariant chain == old(chain) + Singles(batch.packets[..n])
        {
          assert batch.packets[..n + 1][..n] == batch.packets[..n];
          Reject(batch.packets[n]);
          n := n + 1;
        }
        assert batch.packets[..n] == batch.packets;
        SameTable(Conf(), old(Now()), Now());
      }
      if batch.eop {
        Flush();
      }
      out := chain;
      chain := [];
      SameTable(Conf(), Now().(chain := out), Now());
    }
  }

  /** What adding a packet means for its entry. */
  lemma AddedMeans(c: Config, f: Flow, p: Packet, now: int)
    requires FlowOk(f, c.mode)
    ensures var g := Added(c, f, p, now); var merged := Continues(f, p, now, c.rto);
      && (merged <==>
            && now - f.lbolt <= c.rto && p.seqNo == f.nextSeq && (f.count + 1) % 0x1_0000_0000 >= 20
            && p.payload != [] && p.urp == 0 && !p.hdr.flags.urg && !p.hdr.flags.syn && !p.hdr.flags.rst)
      && g.count == (if now - f.lbolt > c.rto then 1
                     else if p.seqNo != f.nextSeq then (if f.count > 20 then 11 else f.count / 2 + 1)
                     else (f.count + 1) % 0x1_0000_0000)
      && g.nextSeq == (p.seqNo + |p.payload|) % 0x1_0000_0000 && g.lbolt == now
      && g.count == CountAfter(f, p, now, c.rto) && g.nextSeq == EndSeq(p)
      && (g.held == [] <==> !merged || (c.mode == AllowPush && p.hdr.flags.push))
      && (g.held != [] ==>
            g.held == if f.held != [] && f.len + |p.payload| < LengthLimit(g.count) then f.held + [p] else [p])
  {
    hide LengthLimit, ChainLength, Mergeable;
  }

  lemma AddedChain(c: Config, f: Flow, p: Packet, now: int, chain: seq<Frame>)
    ensures Segments(chain + Emitted(c, f, p, now)) + Added(c, f, p, now).held
      == Segments(chain) + (f.held + if Continues(f, p, now, c.rto) then [p] else [])
  {
    hide *;
    AddedSegments(c, f, p, now);
    SegmentsConcat(chain, Emitted(c, f, p, now));
    LastBehind(Segments(chain), Segments(Emitted(c, f, p, now)), Added(c, f, p, now).held);
  }

  lemma NewFlowIsOk(c: Config, flow: Flow, p: Packet, now: int)
    ensures TakesOver(c, flow, now) ==> flow.held == []
    ensures FlowOk(flow, c.mode) && flow.held == [] ==>
      FlowOk(NewFlow(c, flow, p, now), c.mode) && Settled(NewFlow(c, flow, p, now), c.mode)
    ensures NewFlow(c, flow, p, now).key == p.key
  {
  }

  lemma SameTable(c: Config, s: Lro, t: Lro)
    ensures Sane(c, s) && t.flows == s.flows && t.occupied == s.occupied ==> Sane(c, t)
  {
  }

  lemma FlushUnfolds(c: Config, s: Lro, list: seq<nat>)
    requires Flushing(c, s, list) && list != []
    ensures list[0] in list && list[0] < MAX_FLOW && FlowOk(s.flows[list[0]], c.mode)
    ensures forall i :: i in list[1..] ==> i < MAX_FLOW
    ensures CompletedAt(s, list[0])
      == s.(flows := s.flows[list[0] := s.flows[list[0]].(held := [], len := 0)], chain := s.chain + Completed(s.flows[list[0]].held))
    ensures Flushed(s, list) == Flushed(CompletedAt(s, list[0]), list[1..])
  {
    assert list[0] in list && forall i :: i in list[1..] ==> i in list;
  }

  lemma FlushEnds(s: Lro)
    ensures Flushed(s, []) == s
  {
  }

  /** A receive queue over a run of batches.  Whatever arrives, each frame is one untouched packet or a mergeable
      chain, each packet goes out once at most, and all have gone out at the end of a poll.  Each stream goes out in
      order if no packet is behind one that makes an unclaimed entry its flow. */
  method Receive(c: Config, batches: seq<Batch>) returns (out: seq<Frame>)
    ensures out == Out(c, batches)
    ensures forall f :: f in out ==> f.segs != [] && var last := f.segs[|f.segs| - 1].hdr;
      && f.hdr.ack == last.ack && f.hdr.win == last.win && f.hdr.flags == last.flags
      && f.hdr.ipLen == f.segs[0].hdr.ipLen - |f.segs[0].payload| + |PayloadBytes(f.segs)|
    ensures forall f :: f in out ==> GoodFrame(f, c.mode)
    ensures multiset(Segments(out)) <= multiset(Arrivals(batches))
    ensures batches != [] && batches[|batches| - 1].eop ==> multiset(Segments(out)) == multiset(Arrivals(batches))
    ensures AllClear(c, batches) ==> forall k ::
      && Stream(Segments(out), k) <= Stream(Arrivals(batches), k)
      && (batches != [] && batches[|batches| - 1].eop ==> Stream(Segments(out), k) == Stream(Arrivals(batches), k))
  {
    hide Sane, GoodFrame, AllClear, Orderly, Stream, Segments, AfterBatch, HeldAll, PayloadBytes;
    var q := new RxQueue(c.hash, c.rto, c.mode);
    out := [];
    var n := 0;
    while n < |batches|
      invariant 0 <= n <= |batches| && fresh(q) && fresh(q.flow)
      invariant q.Conf() == c && q.Valid()
      invariant q.Now() == After(c, batches[..n]) && out == Out(c, batches[..n])
    {
      var more := q.Complete(batches[n]);
      out := out + more;
      assert batches[..n + 1][..n] == batches[..n];
      n := n + 1;
    }
    assert batches[..n] == batches;
    RunIsSane(c, batches);
    RunIsComplete(c, batches);
    RunIsInOrder(c, batches);
    HeadersShown(out, c.mode);
  }
}
