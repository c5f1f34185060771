/** What receive coalescing (LRO) must keep: packets, the TCP byte streams they carry, and the
    frames handed to the network stack (sfxge_rx.c). */
module RxStreams {
  import opened Options
  import opened Words

  datatype CoalesceMode = Off | DisallowPush | AllowPush

  datatype TcpFlags = TcpFlags(fin: bool, syn: bool, rst: bool, push: bool, ack: bool, urg: bool)

  datatype Tuple = Tuple(saddr: u32, daddr: u32, sport: u16, dport: u16)

  /** A TCP flow: the 4-tuple and the VLAN tag control information (0 if untagged). */
  datatype FlowKey = FlowKey(tuple: Tuple, tci: u16)

  /** The header fields that merging rewrites. */
  datatype Header = Header(ipLen: u16, ack: u32, win: u16, flags: TcpFlags)

  /** A received packet.  The flags are those of its receive event; payload is the TCP payload
      without link-layer padding. */
  datatype RawPacket = RawPacket(id: nat, tcp: bool, checksummed: bool, fragment: bool, key: FlowKey,
                                 seqNo: u32, urp: u16, hdr: Header, payload: seq<u8>)

  type Packet = p: RawPacket | |p.payload| <= p.hdr.ipLen
    witness RawPacket(0, false, false, false, FlowKey(Tuple(0, 0, 0, 0), 0), 0, 0,
                      Header(0, 0, 0, TcpFlags(false, false, false, false, false, false)), [])

  /** A message block chain given to the stack: whole first packet, then payloads only. */
  datatype Frame = Frame(segs: seq<Packet>, hdr: Header)

  /** Only fully checksummed, unfragmented TCP packets may be coalesced. */
  predicate Eligible(p: Packet) {
    p.tcp && p.checksummed && !p.fragment
  }

  function StreamOf(p: Packet): Option<FlowKey> {
    if Eligible(p) then Some(p.key) else None
  }

  /** The packets of s that belong to stream c, in order. */
  function Stream(s: seq<Packet>, c: Option<FlowKey>): (r: seq<Packet>)
    ensures |r| <= |s|
  {
    if s == [] then []
    else Stream(s[..|s| - 1], c) + if StreamOf(s[|s| - 1]) == c then [s[|s| - 1]] else []
  }

  /** All packets of a chain of frames, in order. */
  function Segments(frames: seq<Frame>): seq<Packet> {
    if frames == [] then [] else Segments(frames[..|frames| - 1]) + frames[|frames| - 1].segs
  }

  /** The sequence number that follows p, modulo 2^32. */
  function EndSeq(p: Packet): u32 {
    Add32(p.seqNo, |p.payload|)
  }

  /** IP length of a merged chain: all of the first packet, the payload of each later one. */
  function ChainLength(segs: seq<Packet>): nat
    requires segs != []
  {
    if |segs| == 1 then segs[0].hdr.ipLen
    else ChainLength(segs[..|segs| - 1]) + |segs[|segs| - 1].payload|
  }

  predicate Plain(p: Packet) {
    p.payload != [] && !p.hdr.flags.urg && !p.hdr.flags.syn && !p.hdr.flags.rst && p.urp == 0
  }

  /** A chain that may stand for one large segment: one flow, in sequence, nothing urgent, length
      within 16 bits and, when merging stops at pushes, a push on the last packet at most. */
  ghost predicate Mergeable(segs: seq<Packet>, mode: CoalesceMode) {
    && segs != []
    && (forall j :: 0 <= j < |segs| ==> Plain(segs[j]) && StreamOf(segs[j]) == Some(segs[0].key))
    && (forall j :: 0 < j < |segs| ==> segs[j].seqNo == EndSeq(segs[j - 1]))
    && ChainLength(segs) < WORD16
    && (mode == AllowPush ==> forall j :: 0 <= j < |segs| - 1 ==> !segs[j].hdr.flags.push)
  }

  function MergedHeader(segs: seq<Packet>): Header
    requires segs != [] && ChainLength(segs) < WORD16
  {
    var last := segs[|segs| - 1].hdr;
    Header(ChainLength(segs), last.ack, last.win, last.flags)
  }

  /** A frame is one untouched packet, or a mergeable chain under one rewritten header. */
  ghost predicate GoodFrame(f: Frame, mode: CoalesceMode) {
    || (|f.segs| == 1 && f.hdr == f.segs[0].hdr)
    || (Mergeable(f.segs, mode) && f.hdr == MergedHeader(f.segs))
  }

  function PayloadBytes(s: seq<Packet>): seq<u8> {
    if s == [] then [] else PayloadBytes(s[..|s| - 1]) + s[|s| - 1].payload
  }

  // ---------------------------------------------------------------- laws

  lemma {:induction false} StreamConcat(s: seq<Packet>, t: seq<Packet>, c: Option<FlowKey>)
    ensures Stream(s + t, c) == Stream(s, c) + Stream(t, c)
  {
    hide Stream, StreamOf;
    if t == [] {
      assert s + t == s;
      NoStream(c);
    } else {
      var n := |t| - 1;
      StreamConcat(s, t[..n], c);
      StreamLast(t, c);
      StreamLast(s + t, c);
      assert (s + t)[..|s| + n] == s + t[..n];
      var last := if StreamOf(t[n]) == c then [t[n]] else [];
      assert (Stream(s, c) + Stream(t[..n], c)) + last == Stream(s, c) + (Stream(t[..n], c) + last);
    }
  }

  lemma NoStream(c: Option<FlowKey>)
    ensures Stream([], c) == []
  {
  }

  lemma StreamLast(s: seq<Packet>, c: Option<FlowKey>)
    requires s != []
    ensures var n := |s| - 1; Stream(s, c) == Stream(s[..n], c) + if StreamOf(s[n]) == c then [s[n]] else []
  {
    hide StreamOf;
  }

  lemma {:induction false} SegmentsConcat(s: seq<Frame>, t: seq<Frame>)
    ensures Segments(s + t) == Segments(s) + Segments(t)
  {
    hide Segments;
    if t == [] {
      assert s + t == s;
      NoSegments();
    } else {
      var n := |t| - 1;
      SegmentsConcat(s, t[..n]);
      SegmentsLast(t);
      SegmentsLast(s + t);
      assert (s + t)[..|s| + n] == s + t[..n];
      assert (Segments(s) + Segments(t[..n])) + t[n].segs == Segments(s) + (Segments(t[..n]) + t[n].segs);
    }
  }

  lemma NoSegments()
    ensures Segments([]) == []
  {
  }

  lemma SegmentsLast(frames: seq<Frame>)
    requires frames != []
    ensures var n := |frames| - 1; Segments(frames) == Segments(frames[..n]) + frames[n].segs
  {
  }

  lemma SegmentsAppend(s: seq<Frame>, f: Frame)
    ensures Segments(s + [f]) == Segments(s) + f.segs
  {
    assert (s + [f])[..|s|] == s;
  }

  lemma {:induction false} StreamOfOneFlow(s: seq<Packet>, c: Option<FlowKey>)
    requires forall j :: 0 <= j < |s| ==> StreamOf(s[j]) == c
    ensures Stream(s, c) == s
    ensures forall d :: d != c ==> Stream(s, d) == []
  {
    if s != [] {
      StreamOfOneFlow(s[..|s| - 1], c);
      forall d | d != c
        ensures Stream(s, d) == []
      {
      }
    }
  }

  lemma {:induction false} StreamKeepsCount(s: seq<Packet>, p: Packet)
    ensures multiset(Stream(s, StreamOf(p)))[p] == multiset(s)[p]
  {
    hide Stream, StreamOf;
    NoStream(StreamOf(p));
    if s != [] {
      var n := |s| - 1;
      StreamKeepsCount(s[..n], p);
      StreamLast(s, StreamOf(p));
      assert s == s[..n] + [s[n]];
    }
  }

  /** Equal streams for every flow means the same packets, each as often. */
  lemma SameStreamsSamePackets(s: seq<Packet>, t: seq<Packet>)
    requires forall c :: Stream(s, c) == Stream(t, c)
    ensures multiset(s) == multiset(t)
  {
    forall p: Packet
      ensures multiset(s)[p] == multiset(t)[p]
    {
      StreamKeepsCount(s, p);
      StreamKeepsCount(t, p);
    }
  }

  /** A merged chain covers one contiguous range of sequence space: its bytes start at the first
      packet's sequence number and end, modulo 2^32, where the last packet ends. */
  lemma {:induction false} MergedRange(segs: seq<Packet>, mode: CoalesceMode)
    requires Mergeable(segs, mode)
    ensures EndSeq(segs[|segs| - 1]) == Add32(segs[0].seqNo, |PayloadBytes(segs)|)
    ensures ChainLength(segs) == segs[0].hdr.ipLen - |segs[0].payload| + |PayloadBytes(segs)|
  {
    hide ChainLength, PayloadBytes, EndSeq, Plain, StreamOf;
    var n := |segs| - 1;
    ChainParts(segs);
    if n > 0 {
      MergeableFront(segs, mode);
      MergedRange(segs[..n], mode);
      var sofar := segs[0].seqNo + |PayloadBytes(segs[..n])|;
      assert segs[n].seqNo == Wrap32(sofar);
      EndSeqIs(segs[n]);
      WrapAdd(sofar, |segs[n].payload|);
    } else {
      assert segs[..n] == [];
      NoPayload();
      EndSeqIs(segs[n]);
    }
  }

  lemma ChainParts(segs: seq<Packet>)
    requires segs != []
    ensures var n := |segs| - 1;
      && PayloadBytes(segs) == PayloadBytes(segs[..n]) + segs[n].payload
      && ChainLength(segs) == if n == 0 then segs[0].hdr.ipLen else ChainLength(segs[..n]) + |segs[n].payload|
  {
  }

  lemma MergeableFront(segs: seq<Packet>, mode: CoalesceMode)
    requires Mergeable(segs, mode) && |segs| > 1
    ensures var n := |segs| - 1;
      Mergeable(segs[..n], mode) && segs[..n][0] == segs[0] && segs[n].seqNo == EndSeq(segs[..n][|segs[..n]| - 1])
  {
    hide EndSeq, Plain, StreamOf;
    ChainParts(segs);
    hide ChainLength;
    var n := |segs| - 1;
    assert segs[n].seqNo == EndSeq(segs[n - 1]);
  }

  lemma NoPayload()
    ensures PayloadBytes([]) == []
  {
  }

  lemma EndSeqIs(p: Packet)
    ensures EndSeq(p) == Add32(p.seqNo, |p.payload|)
  {
  }

  /** A flag of a packet that a merged frame does not show. */
  predicate Loses(f: Frame, flag: TcpFlags -> bool) {
    exists j :: 0 <= j < |f.segs| && flag(f.segs[j].hdr.flags) && !flag(f.hdr.flags)
  }
}
