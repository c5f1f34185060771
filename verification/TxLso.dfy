/** TCP segmentation of a large send: header templates and payload slices become frames
    (sfxge_tx.c:1566-1778).

    Field positions are byte offsets into the message's first block; multi-byte fields are in network
    order (section 3.1 of RFC 791, section 3.1 of RFC 793). */
module TxLso {
  import opened Words
  import opened TxSizes
  import opened TxDescs
  import opened TxFragment
  import opened TxFragmenter

  const FIN := 0x01
  const SYN := 0x02
  const PUSH := 0x08
  const URG := 0x20
  const VLAN := 0x8100                // ETHERTYPE_VLAN
  const DF := 0x4000                  // IP_DF

  function Get16(h: Bytes, o: nat): u16
    requires o + 2 <= |h|
  {
    var hi: int := h[o];
    0x100 * hi + h[o + 1]
  }

  function Get32(h: Bytes, o: nat): u32
    requires o + 4 <= |h|
  {
    var hi: int := Get16(h, o);
    0x1_0000 * hi + Get16(h, o + 2)
  }

  function Put16(h: Bytes, o: nat, v: u16): (r: Bytes)
    requires o + 2 <= |h|
    ensures |r| == |h|
  {
    h[o := v / 0x100][o + 1 := v % 0x100]
  }

  function Put32(h: Bytes, o: nat, v: u32): (r: Bytes)
    requires o + 4 <= |h|
    ensures |r| == |h|
  {
    Put16(Put16(h, o, v / 0x1_0000), o + 2, v % 0x1_0000)
  }

  lemma PutGet16(h: Bytes, o: nat, v: u16)
    ensures o + 2 <= |h| ==> Get16(Put16(h, o, v), o) == v && Put16(h, o, Get16(h, o)) == h
  {
  }

  lemma PutGet32(h: Bytes, o: nat, v: u32)
    requires o + 4 <= |h|
    ensures Get32(Put32(h, o, v), o) == v && Put32(h, o, Get32(h, o)) == h
  {
    assert Get32(h, o) / 0x1_0000 == Get16(h, o) && Get32(h, o) % 0x1_0000 == Get16(h, o + 2);
  }

  predicate HasBit(x: u8, bit: nat)
    requires bit > 0
  {
    x / bit % 2 == 1
  }

  function ClearBit(x: u8, bit: nat): u8
    requires bit > 0
  {
    if HasBit(x, bit) && x >= bit then x - bit else x
  }

  /** Interim segments carry neither PUSH nor FIN. */
  function Interim(flags: u8): u8 {
    ClearBit(ClearBit(flags, PUSH), FIN)
  }

  /** Where the headers are: the pointers and sizes of the packet structure. */
  datatype Layout = Layout(ip: nat, tcp: nat, hs: nat, size: nat, mss: nat)

  predicate LayoutOk(l: Layout, len: nat) {
    14 <= l.ip && l.ip + 20 <= l.tcp && l.tcp + 20 <= l.hs <= 0x100 && l.tcp + 20 <= len && l.mss > 0 && l.size > 0
  }

  function IpLen(h: Bytes, l: Layout): u16 requires LayoutOk(l, |h|) { Get16(h, l.ip + 2) }
  function IpId(h: Bytes, l: Layout): u16 requires LayoutOk(l, |h|) { Get16(h, l.ip + 4) }
  function Seq(h: Bytes, l: Layout): u32 requires LayoutOk(l, |h|) { Get32(h, l.tcp + 4) }
  function Flags(h: Bytes, l: Layout): u8 requires LayoutOk(l, |h|) { h[l.tcp + 13] }

  /** Bytes of the IP and TCP headers, from ip_hl and th_off. */
  function HeaderLen(h: Bytes, l: Layout): nat
    requires LayoutOk(l, |h|)
  {
    4 * (h[l.ip] % 0x10) + 4 * (h[l.tcp + 12] / 0x10)
  }

  /** The header with new length, identification, sequence number and flags; all else stays. */
  function WithFields(h: Bytes, l: Layout, len: u16, id: u16, s: u32, flags: u8): (r: Bytes)
    requires LayoutOk(l, |h|)
    ensures |r| == |h|
  {
    Put32(Put16(Put16(h, l.ip + 2, len), l.ip + 4, id), l.tcp + 4, s)[l.tcp + 13 := flags]
  }

  /** Each field reads back as it was set, and setting a field again overwrites it. */
  lemma FieldsReadBack(h: Bytes, l: Layout, len: u16, id: u16, s: u32, flags: u8)
    requires LayoutOk(l, |h|)
    ensures var r := WithFields(h, l, len, id, s, flags);
      IpLen(r, l) == len && IpId(r, l) == id && Seq(r, l) == s && Flags(r, l) == flags && HeaderLen(r, l) == HeaderLen(h, l)
  {
    PutGet32(Put16(Put16(h, l.ip + 2, len), l.ip + 4, id), l.tcp + 4, s);
  }

  /** Putting the fields' own values changes nothing. */
  lemma FieldsSame(h: Bytes, l: Layout)
    requires LayoutOk(l, |h|)
    ensures WithFields(h, l, IpLen(h, l), IpId(h, l), Seq(h, l), Flags(h, l)) == h
  {
    PutGet32(h, l.tcp + 4, 0);
    PutGet16(h, l.ip + 2, 0);
    PutGet16(h, l.ip + 4, 0);
  }

  /** Setting one field of a header whose fields have been set. */
  lemma SetOneField(h: Bytes, l: Layout, len: u16, id: u16, s: u32, flags: u8, len': u16, id': u16, s': u32, flags': u8)
    requires LayoutOk(l, |h|)
    ensures var r := WithFields(h, l, len, id, s, flags);
      && Put16(r, l.ip + 2, len') == WithFields(h, l, len', id, s, flags)
      && Put16(r, l.ip + 4, id') == WithFields(h, l, len, id', s, flags)
      && Put32(r, l.tcp + 4, s') == WithFields(h, l, len, id, s', flags)
      && r[l.tcp + 13 := flags'] == WithFields(h, l, len, id, s, flags')
  {
  }

  // ---------------------------------------------------------------- what the frames are to be

  /** Payload bytes in front of frame k. */
  function Upto(l: Layout, k: nat): nat {
    k * l.mss
  }

  /** Payload bytes of frame k. */
  function SliceLen(l: Layout, k: nat): (n: nat)
    requires Upto(l, k) <= l.size
    ensures n <= l.mss && Upto(l, k) + n <= l.size
  {
    Min(l.mss, l.size - Upto(l, k))
  }

  /** The number of frames: size / mss, rounded up. */
  function FrameCount(l: Layout): nat
    requires l.mss > 0
  {
    (l.size + l.mss - 1) / l.mss
  }

  /** Frame k: the headers with exact length, the sequence number k * mss further on, the identification
      k further on, and PUSH and FIN only on the last frame; then its slice of the payload. */
  function FrameOf(h: Bytes, l: Layout, payload: Bytes, k: nat): Bytes
    requires LayoutOk(l, |h|) && l.hs <= |h| && Upto(l, k) <= l.size == |payload|
    requires HeaderLen(h, l) + SliceLen(l, k) < WORD16
  {
    var n := SliceLen(l, k);
    var last := Upto(l, k) + n == l.size;
    WithFields(h, l, HeaderLen(h, l) + n, (IpId(h, l) + k) % WORD16, Add32(Seq(h, l), Upto(l, k)),
               if last then Flags(h, l) else Interim(Flags(h, l)))[..l.hs]
      + payload[Upto(l, k)..Upto(l, k) + n]
  }

  predicate FramesFit(h: Bytes, l: Layout)
    requires LayoutOk(l, |h|)
  {
    HeaderLen(h, l) + l.size < WORD16
  }

  /** The bits of a sum of powers of two. */
  lemma BitsOf(b0: nat, b1: nat, b2: nat, b3: nat, hi: nat)
    requires b0 < 2 && b1 < 2 && b2 < 2 && b3 < 2 && hi < 0x10
    ensures var x := b0 + 2 * b1 + 4 * b2 + 8 * b3 + 0x10 * hi;
      && (HasBit(x, FIN) <==> b0 == 1) && (HasBit(x, SYN) <==> b1 == 1) && (HasBit(x, 0x04) <==> b2 == 1)
      && (HasBit(x, PUSH) <==> b3 == 1) && x / 0x10 == hi
  {
    var x := b0 + 2 * b1 + 4 * b2 + 8 * b3 + 0x10 * hi;
    assert x / 2 == b1 + 2 * b2 + 4 * b3 + 8 * hi;
    assert x / 4 == b2 + 2 * b3 + 4 * hi;
    assert x / 8 == b3 + 2 * hi;
  }

  lemma Digits(x: u8) returns (b0: nat, b1: nat, b2: nat, b3: nat, hi: nat)
    ensures b0 < 2 && b1 < 2 && b2 < 2 && b3 < 2 && hi < 0x10 && x == b0 + 2 * b1 + 4 * b2 + 8 * b3 + 0x10 * hi
  {
    var x1, x2, x3 := x / 2, x / 2 / 2, x / 2 / 2 / 2;
    b0, b1, b2, b3, hi := x % 2, x1 % 2, x2 % 2, x3 % 2, x3 / 2;
  }

  /** Interim flags lose PUSH and FIN, and no other bit. */
  lemma InterimBits(x: u8)
    ensures !HasBit(Interim(x), PUSH) && !HasBit(Interim(x), FIN)
    ensures (HasBit(Interim(x), SYN) <==> HasBit(x, SYN)) && (HasBit(Interim(x), 0x04) <==> HasBit(x, 0x04))
    ensures Interim(x) / 0x10 == x / 0x10
  {
    var b0, b1, b2, b3, hi := Digits(x);
    BitsOf(b0, b1, b2, b3, hi);
    BitsOf(b0, b1, b2, 0, hi);
    BitsOf(0, b1, b2, 0, hi);
    hide HasBit;
    assert ClearBit(x, PUSH) == b0 + 2 * b1 + 4 * b2 + 0x10 * hi;
    assert Interim(x) == 2 * b1 + 4 * b2 + 0x10 * hi;
  }

  /** What a receiver reads in frame k. */
  lemma FrameMeaning(h: Bytes, l: Layout, payload: Bytes, k: nat)
    requires LayoutOk(l, |h|) && l.hs <= |h| && FramesFit(h, l) && |payload| == l.size && k < FrameCount(l)
    ensures Upto(l, k) < l.size && HeaderLen(h, l) + SliceLen(l, k) < WORD16
    ensures Upto(l, k) == k * l.mss && SliceLen(l, k) == if k + 1 < FrameCount(l) then l.mss else l.size - k * l.mss
    ensures var f, n := FrameOf(h, l, payload, k), SliceLen(l, k);
      && |f| == l.hs + n && 0 < n && f[l.hs..] == payload[Upto(l, k)..Upto(l, k) + n]
      && IpLen(f, l) == HeaderLen(h, l) + n && IpId(f, l) == (IpId(h, l) + k) % WORD16
      && Seq(f, l) == Add32(Seq(h, l), Upto(l, k))
      && Flags(f, l) == (if k + 1 == FrameCount(l) then Flags(h, l) else Interim(Flags(h, l)))
  {
    hide WithFields, Upto, FrameCount, IpLen, IpId, Seq, Flags, Interim, Get16, Get32, Put16, Put32;
    FrameBounds(l, k);
    SliceIs(l, k);
    var n := SliceLen(l, k);
    var last := Upto(l, k) + n == l.size;
    var len, id, s: u32, flags: u8 := HeaderLen(h, l) + n, (IpId(h, l) + k) % WORD16, Add32(Seq(h, l), Upto(l, k)),
      if last then Flags(h, l) else Interim(Flags(h, l));
    var r := WithFields(h, l, len, id, s, flags);
    FieldsReadBack(h, l, len, id, s, flags);
    var f := FrameOf(h, l, payload, k);
    SamePrefixFields(r, f, l);
  }

  /** The frames in order, as many as slices. */
  lemma {:induction false} FramesAre(h: Bytes, l: Layout, payload: Bytes, c: nat)
    requires LayoutOk(l, |h|) && l.hs <= |h| && |payload| == l.size && FramesFit(h, l) && c <= FrameCount(l)
    ensures |FirstFrames(h, l, payload, c)| == c
  {
    hide FrameCount, Upto, FrameOf;
    if c > 0 {
      FrameBounds(l, c - 1);
      FramesAre(h, l, payload, c - 1);
    }
  }

  lemma {:induction false} FrameIn(h: Bytes, l: Layout, payload: Bytes, c: nat, k: nat)
    requires LayoutOk(l, |h|) && l.hs <= |h| && |payload| == l.size && FramesFit(h, l) && k < c <= FrameCount(l)
    ensures Upto(l, k) < l.size && HeaderLen(h, l) + SliceLen(l, k) < WORD16 && |FirstFrames(h, l, payload, c)| == c
    ensures FirstFrames(h, l, payload, c)[k] == FrameOf(h, l, payload, k)
  {
    hide FrameCount, Upto, FrameOf;
    FrameBounds(l, c - 1);
    FramesAre(h, l, payload, c - 1);
    if k < c - 1 {
      FrameIn(h, l, payload, c - 1, k);
    }
  }

  /** Every slice but the last has mss bytes. */
  lemma SliceIs(l: Layout, k: nat)
    requires l.mss > 0 && l.size > 0 && k < FrameCount(l) && Upto(l, k) <= l.size
    ensures Upto(l, k) == k * l.mss && SliceLen(l, k) == if k + 1 < FrameCount(l) then l.mss else l.size - k * l.mss
  {
    hide FrameCount, Upto, SliceLen;
    FrameBounds(l, k);
    UptoIs(l, k);
  }

  lemma UptoIs(l: Layout, k: nat)
    ensures Upto(l, k) == k * l.mss && (l.mss > 0 ==> FrameCount(l) == (l.size + l.mss - 1) / l.mss)
  {
  }

  lemma SamePrefixFields(r: Bytes, f: Bytes, l: Layout)
    requires LayoutOk(l, |r|) && l.hs <= |r| && l.hs <= |f| && f[..l.hs] == r[..l.hs]
    ensures IpLen(f, l) == IpLen(r, l) && IpId(f, l) == IpId(r, l) && Seq(f, l) == Seq(r, l) && Flags(f, l) == Flags(r, l)
  {
    assert forall o :: 0 <= o < l.hs ==> f[o] == f[..l.hs][o] == r[..l.hs][o] == r[o];
  }

  lemma FrameBounds(l: Layout, k: nat)
    requires l.mss > 0 && l.size > 0 && k < FrameCount(l)
    ensures Upto(l, k) < l.size && (k + 1 < FrameCount(l) ==> Upto(l, k + 1) < l.size)
    ensures k + 1 < FrameCount(l) ==> SliceLen(l, k) == l.mss && Upto(l, k) + l.mss == Upto(l, k + 1) < l.size
    ensures k + 1 == FrameCount(l) ==> Upto(l, k) + SliceLen(l, k) == l.size
    ensures Upto(l, 0) == 0
  {
    var c := FrameCount(l);
    DivBounds(l.size + l.mss - 1, l.mss);
    MulLess(k, c, l.mss);
    if k + 1 < c {
      MulLess(k + 1, c, l.mss);
    }
  }

  lemma DivBounds(x: nat, m: nat)
    requires m > 0
    ensures x / m * m <= x < x / m * m + m
  {
    assert x == m * (x / m) + x % m;
  }

  lemma MulLess(k: nat, c: nat, m: nat)
    requires k < c
    ensures k * m + m == (k + 1) * m <= c * m
  {
    assert c * m == (k + 1) * m + (c - k - 1) * m;
  }

  ghost function FirstFrames(h: Bytes, l: Layout, payload: Bytes, c: nat): (r: seq<Bytes>)
    requires LayoutOk(l, |h|) && l.hs <= |h| && |payload| == l.size && FramesFit(h, l) && c <= FrameCount(l)
    ensures |r| == c
  {
    if c == 0 then []
    else
      FrameBounds(l, c - 1);
      FirstFrames(h, l, payload, c - 1) + [FrameOf(h, l, payload, c - 1)]
  }

  /** The frames' payloads, one behind the other, are the payload. */
  lemma {:induction false} PayloadsJoin(l: Layout, payload: Bytes, c: nat)
    requires l.mss > 0 && l.size > 0 && |payload| == l.size && c <= FrameCount(l)
    ensures c < FrameCount(l) ==> Upto(l, c) < l.size && Slices(l, payload, c) == payload[..Upto(l, c)]
    ensures c == FrameCount(l) ==> Slices(l, payload, c) == payload
  {
    hide FrameCount, SliceLen, Upto;
    if c < FrameCount(l) {
      FrameBounds(l, c);
    }
    if c > 0 {
      var k := c - 1;
      FrameBounds(l, k);
      PayloadsJoin(l, payload, k);
      var lo, n := Upto(l, k), SliceLen(l, k);
      assert Slices(l, payload, c) == payload[..lo] + payload[lo..lo + n];
      JoinUp(payload, lo, lo + n);
    } else {
      SomeFrames(l);
    }
  }

  lemma SomeFrames(l: Layout)
    requires l.mss > 0 && l.size > 0
    ensures FrameCount(l) > 0 && Upto(l, 0) == 0
  {
    DivBounds(l.size + l.mss - 1, l.mss);
  }

  lemma JoinUp(s: Bytes, lo: nat, hi: nat)
    ensures lo <= hi <= |s| ==> s[..lo] + s[lo..hi] == s[..hi] && (hi == |s| ==> s[..hi] == s)
  {
  }

  function Slices(l: Layout, payload: Bytes, c: nat): Bytes
    requires l.mss > 0 && l.size > 0 && |payload| == l.size && c <= FrameCount(l)
  {
    if c == 0 then []
    else
      FrameBounds(l, c - 1);
      Slices(l, payload, c - 1) + payload[Upto(l, c - 1)..Upto(l, c - 1) + SliceLen(l, c - 1)]
  }

  // ---------------------------------------------------------------- segmenting

  /** A packet to be segmented: its first block, with b_rptr as an index, the cookies for the payload in
      it, and the other blocks. */
  class Packet {
    const first: array<u8>
    const tail: seq<Cookie>
    const rest: seq<Block>
    const lso: bool                   // HW_LSO
    const l: Layout
    var rptr: nat                     // b_rptr of the first block

    constructor (first: array<u8>, tail: seq<Cookie>, rest: seq<Block>, lso: bool, l: Layout)
      ensures this.first == first && this.tail == tail && this.rest == rest && this.lso == lso && this.l == l && rptr == 0
    {
      this.first, this.tail, this.rest, this.lso, this.l, rptr := first, tail, rest, lso, l, 0;
    }

    /** The payload blocks: what is left of the first block behind the headers, and the others. */
    function Blocks(): seq<Block>
      reads first
    {
      (if l.hs < first.Length then [Block(first[l.hs..], tail)] else []) + rest
    }

    /** sfxge_pkthdr_parse found the headers; the packet structure says where. */
    ghost predicate Parsed()
      reads this, first
    {
      && rptr == 0 && LayoutOk(l, first.Length) && l.hs == EtherLen(first[..]) + HeaderLen(first[..], l)
    }
  }

  function EtherLen(h: Bytes): nat
    requires |h| >= 14
  {
    if Get16(h, 12) == VLAN then 18 else 14
  }

  /** The checks made before any header is changed. */
  predicate Checked(h: Bytes, p: Packet)
    requires LayoutOk(p.l, |h|)
  {
    var l := p.l;
    && p.lso && |h| + |Concat(p.rest)| == EtherLen(h) + IpLen(h, l) && l.hs <= |h|
    && (Get16(h, l.ip + 6) == 0 || Get16(h, l.ip + 6) == DF)
    && !HasBit(Flags(h, l), URG) && !HasBit(Flags(h, l), SYN) && Get16(h, l.tcp + 18) == 0
    && l.size + HeaderLen(h, l) == IpLen(h, l)
  }

  /** They on the bytes of the headers: the IP length is that of the message, the fragment offset is zero and no
      fragment follows, neither URG nor SYN is set nor is there an urgent pointer, and the lengths agree. */
  lemma CheckedIs(h: Bytes, p: Packet)
    requires LayoutOk(p.l, |h|)
    ensures var l := p.l; var ipLen := 0x100 * h[l.ip + 2] as int + h[l.ip + 3];
      !Checked(h, p) <==>
        || !p.lso || l.hs > |h| || |h| + |Concat(p.rest)| != (if h[12] == 0x81 && h[13] == 0 then 18 else 14) + ipLen
        || (h[l.ip + 6] != 0 && h[l.ip + 6] != 0x40) || h[l.ip + 7] != 0
        || h[l.tcp + 13] / 0x20 % 2 == 1 || h[l.tcp + 13] / 2 % 2 == 1 || h[l.tcp + 18] != 0 || h[l.tcp + 19] != 0
        || l.size + 4 * (h[l.ip] % 0x10) + 4 * (h[l.tcp + 12] / 0x10) != ipLen
  {
    hide Concat;
    Zero16(h, p.l.ip + 6);
    Zero16(h, p.l.tcp + 18);
    Zero16(h, 12);
  }

  lemma SuitableIs(h: Bytes, p: Packet)
    requires LayoutOk(p.l, |h|)
    ensures Suitable(h, p) <==> Checked(h, p) && p.l.size / p.l.mss < 504
  {
    hide Checked;
  }

  /** Which bytes make the values that the checks look for. */
  lemma Zero16(h: Bytes, o: nat)
    requires o + 2 <= |h|
    ensures (Get16(h, o) == 0 <==> h[o] == 0 && h[o + 1] == 0) && (Get16(h, o) == 0x4000 <==> h[o] == 0x40 && h[o + 1] == 0)
    ensures Get16(h, o) == 0x8100 <==> h[o] == 0x81 && h[o + 1] == 0
  {
  }

  /** Whether a packet is suitable does not depend on the bit that forbids fragments. */
  lemma DontFragmentIsIgnored(h: Bytes, p: Packet)
    requires LayoutOk(p.l, |h|) && h[p.l.ip + 6] / 0x40 % 2 == 0
    ensures Suitable(h[p.l.ip + 6 := h[p.l.ip + 6] + 0x40], p) <==> Suitable(h, p)
  {
    hide Checked, Suitable, Concat;
    var h' := h[p.l.ip + 6 := h[p.l.ip + 6] + 0x40];
    SuitableIs(h, p);
    SuitableIs(h', p);
    CheckedIs(h, p);
    CheckedIs(h', p);
  }

  /** All checks that a packet must pass to be segmented. */
  predicate Suitable(h: Bytes, p: Packet)
    requires LayoutOk(p.l, |h|)
  {
    Checked(h, p) && p.l.size / p.l.mss < LIMIT / 2
  }

  /** Storing a 16-bit or 32-bit field in network order. */
  method Store16(a: array<u8>, o: nat, v: u16)
    requires o + 2 <= a.Length
    modifies a
    ensures a[..] == Put16(old(a[..]), o, v)
  {
    a[o] := v / 0x100;
    a[o + 1] := v % 0x100;
  }

  method Store32(a: array<u8>, o: nat, v: u32)
    requires o + 4 <= a.Length
    modifies a
    ensures a[..] == Put32(old(a[..]), o, v)
  {
    Store16(a, o, v / 0x1_0000);
    Store16(a, o + 2, v % 0x1_0000);
  }

  /** The checks of sfxge_tx_qlso_fragment, and b_rptr moved behind the headers. */
  method CheckLso(p: Packet) returns (rc: Rc)
    requires p.Parsed()
    modifies p
    ensures rc == Ok || rc == EINVAL
    ensures rc == EINVAL <==> old(var h, l := p.first[..], p.l; var ipLen := 0x100 * h[l.ip + 2] as int + h[l.ip + 3];
      || !p.lso || l.hs > |h| || |h| + |Concat(p.rest)| != (if h[12] == 0x81 && h[13] == 0 then 18 else 14) + ipLen
      || (h[l.ip + 6] != 0 && h[l.ip + 6] != 0x40) || h[l.ip + 7] != 0
      || h[l.tcp + 13] / 0x20 % 2 == 1 || h[l.tcp + 13] / 2 % 2 == 1 || h[l.tcp + 18] != 0 || h[l.tcp + 19] != 0
      || l.size + 4 * (h[l.ip] % 0x10) + 4 * (h[l.tcp + 12] / 0x10) != ipLen)
    ensures rc == (if Checked(old(p.first[..]), p) then Ok else EINVAL)
    ensures p.rptr == if rc == Ok then p.l.hs else 0
  {
    CheckedIs(p.first[..], p);
    hide Concat;
    var l, h := p.l, p.first;
    if !p.lso {
      return EINVAL;
    }
    if h.Length + |Concat(p.rest)| != EtherLen(h[..]) + IpLen(h[..], l) {
      return EINVAL;
    }
    if l.hs > h.Length {
      return EINVAL;
    }
    p.rptr := p.rptr + l.hs;
    if (Get16(h[..], l.ip + 6) != 0 && Get16(h[..], l.ip + 6) != DF)
       || HasBit(Flags(h[..], l), URG) || HasBit(Flags(h[..], l), SYN) || Get16(h[..], l.tcp + 18) != 0 {
      p.rptr := p.rptr - l.hs;
      return EINVAL;
    }
    if l.size + HeaderLen(h[..], l) != IpLen(h[..], l) {
      p.rptr := p.rptr - l.hs;
      return EINVAL;
    }
    return Ok;
  }

  /** Headers and their payload make one more frame. */
  lemma OneMoreFrame(f: Frag, g: Frag, k: Frag, arena: set<nat>, h: Bytes, pay: Bytes)
    requires Good(f, arena) && Partial(f, arena) == [] && Sent(f, g, arena, h, false) && Sent(g, k, arena, pay, true)
    ensures Good(k, arena) && Done(k, arena) == Done(f, arena) + [h + pay] && Partial(k, arena) == []
    ensures k.cur < 0 || k.boff == k.used
  {
    assert Partial(g, arena) == h;
    assert |Waiting(k)| == 0;
  }

  /** c is the header h with other lengths, identifications, sequence numbers and flags. */
  ghost predicate Edited(h: Bytes, c: Bytes, l: Layout) {
    && |c| == |h| && LayoutOk(l, |h|)
    && c == WithFields(h, l, IpLen(c, l), IpId(c, l), Seq(c, l), Flags(c, l))
  }

  /** The template of an interim frame. */
  ghost predicate Template(h: Bytes, c: Bytes, l: Layout) {
    Edited(h, c, l) && IpLen(c, l) == (HeaderLen(h, l) + l.mss) % WORD16 && Flags(c, l) == Interim(Flags(h, l))
  }

  lemma EditedIs(h: Bytes, l: Layout, len: u16, id: u16, s: u32, flags: u8)
    requires LayoutOk(l, |h|)
    ensures var c := WithFields(h, l, len, id, s, flags);
      && Edited(h, c, l) && HeaderLen(c, l) == HeaderLen(h, l)
      && IpLen(c, l) == len && IpId(c, l) == id && Seq(c, l) == s && Flags(c, l) == flags
  {
    FieldsReadBack(h, l, len, id, s, flags);
  }

  method StoreByte(a: array<u8>, o: nat, v: u8)
    requires o < a.Length
    modifies a
    ensures a[..] == old(a[..])[o := v]
  {
    a[o] := v;
  }

  /** Setting identification and sequence number. */
  method SetCounters(p: Packet, id: u16, thSeq: u32, ghost h: Bytes)
    requires Edited(h, p.first[..], p.l)
    modifies p.first
    ensures var c := old(p.first[..]); p.first[..] == WithFields(h, p.l, IpLen(c, p.l), id, thSeq, Flags(c, p.l))
  {
    ghost var c := p.first[..];
    hide WithFields, Get16, Get32, Put16, Put32;
    SetOneField(h, p.l, IpLen(c, p.l), IpId(c, p.l), Seq(c, p.l), Flags(c, p.l), 0, id, 0, 0);
    Store16(p.first, p.l.ip + 4, id);
    SetOneField(h, p.l, IpLen(c, p.l), id, Seq(c, p.l), Flags(c, p.l), 0, 0, thSeq, 0);
    Store32(p.first, p.l.tcp + 4, thSeq);
  }

  /** Setting length and flags. */
  method SetLengthFlags(p: Packet, len: u16, flags: u8, ghost h: Bytes)
    requires Edited(h, p.first[..], p.l)
    modifies p.first
    ensures var c := old(p.first[..]); p.first[..] == WithFields(h, p.l, len, IpId(c, p.l), Seq(c, p.l), flags)
  {
    ghost var c := p.first[..];
    hide WithFields, Get16, Get32, Put16, Put32;
    SetOneField(h, p.l, IpLen(c, p.l), IpId(c, p.l), Seq(c, p.l), Flags(c, p.l), len, 0, 0, 0);
    Store16(p.first, p.l.ip + 2, len);
    SetOneField(h, p.l, len, IpId(c, p.l), Seq(c, p.l), Flags(c, p.l), 0, 0, 0, flags);
    StoreByte(p.first, p.l.tcp + 13, flags);
  }

  /** The header edits for one frame. */
  method AdjustHeader(p: Packet, ss: nat, eol: bool, id: u16, thSeq: u32, flags: u8, ghost h: Bytes)
    requires Template(h, p.first[..], p.l) && HeaderLen(h, p.l) + ss < WORD16 && flags == Flags(h, p.l)
    modifies p.first
    ensures p.first[..] ==
      if eol then WithFields(h, p.l, HeaderLen(h, p.l) + ss, id, thSeq, flags)
      else WithFields(h, p.l, (HeaderLen(h, p.l) + p.l.mss) % WORD16, id, thSeq, Interim(flags))
  {
    ghost var c := p.first[..];
    hide WithFields, Get16, Get32, Put16, Put32;
    SetCounters(p, id, thSeq, h);
    EditedIs(h, p.l, IpLen(c, p.l), id, thSeq, Flags(c, p.l));
    if eol {
      SetLengthFlags(p, HeaderLen(p.first[..], p.l) + ss, flags, h);
    }
  }

  /** The buffer that took the last headers, or -1 before the first. */
  ghost predicate HeaderBuffer(q: Queue, stbp: int)
    reads q
  {
    if stbp < 0 then q.cur < 0 else q.TakesHeaders(stbp)
  }

  lemma HeaderBufferIs(q: Queue, stbp: int)
    ensures HeaderBuffer(q, stbp) <==> if stbp < 0 then q.cur < 0 else q.TakesHeaders(stbp)
  {
  }

  /** Headers and ss payload bytes become one frame. */
  method SendPart(q: Queue, hdr: Bytes, blocks: seq<Block>, i: nat, off: nat, ss: nat, copy: bool, stbp: int)
    returns (rc: Rc, i': nat, off': nat, stbp': int)
    requires HeaderBuffer(q, stbp)
    requires q.Valid() && q.Idle() && Partial(q.Now(), q.arena) == [] && q.MappingOk(blocks) && 0 < |hdr| <= BUFFER
    requires i < |blocks| && off < |blocks[i].data| && 0 < ss && Position(blocks, i, off) + ss <= |Concat(blocks)|
    modifies q, q.eb, q.mem
    ensures (rc == Ok || (rc == ENOSPC && q.n == LIMIT) || (rc == ENOMEM && q.pool == [])) && i' <= |blocks|
    ensures copy && 1 + Pieces(ss) <= |old(q.pool)| && old(q.n) + 2 + Pieces(ss) <= LIMIT ==> rc == Ok
    ensures copy && rc == Ok ==> |old(q.pool)| <= |q.pool| + 1 + Pieces(ss) && q.n <= old(q.n) + 2 + Pieces(ss)
    ensures rc == Ok ==> HeaderBuffer(q, stbp')
    ensures rc == Ok ==> q.Valid() && q.Idle() && q.MappingOk(blocks) && Partial(q.Now(), q.arena) == []
    ensures rc == Ok ==> var at := Position(blocks, i, off);
      Done(q.Now(), q.arena) == old(Done(q.Now(), q.arena)) + [hdr + Concat(blocks)[at..at + ss]]
    ensures rc == Ok ==> (if i' < |blocks| then off' < |blocks[i'].data| else off' == 0)
    ensures rc == Ok ==> Position(blocks, i', off') == Position(blocks, i, off) + ss
  {
    hide *;
    i', off' := i, off;
    q.ValidIs();
    ghost var f := q.Now();
    HeaderBufferIs(q, stbp);
    rc, stbp' := q.PutHeader(hdr, stbp, blocks);
    if rc != Ok {
      return;
    }
    q.ValidIs();
    ghost var g := q.Now();
    rc, i', off' := q.PayloadFragment(blocks, i, off, ss, copy);
    if rc != Ok {
      return;
    }
    q.ValidIs();
    q.IdleIs();
    HeaderBufferIs(q, stbp');
    OneMoreFrame(f, g, q.Now(), q.arena, hdr, Concat(blocks)[Position(blocks, i, off)..Position(blocks, i, off) + ss]);
  }

  /** One round of the segmentation loop, for frame k: the header template is adjusted and copied, and the
      payload follows. */
  method SendFrame(q: Queue, p: Packet, blocks: seq<Block>, i: nat, off: nat, ss: nat, eol: bool, id: u16, thSeq: u32,
                   flags: u8, copy: bool, stbp: int, ghost h: Bytes, ghost k: nat)
    returns (rc: Rc, i': nat, off': nat, stbp': int)
    requires HeaderBuffer(q, stbp)
    requires p.first != q.mem && Template(h, p.first[..], p.l) && p.l.hs <= |h| && FramesFit(h, p.l)
    requires |Concat(blocks)| == p.l.size && k < FrameCount(p.l) && Upto(p.l, k) < p.l.size
    requires ss == SliceLen(p.l, k) && (eol <==> Upto(p.l, k) + ss == p.l.size) && HeaderLen(h, p.l) + ss < WORD16
    requires id == (IpId(h, p.l) + k) % WORD16 && thSeq == Add32(Seq(h, p.l), Upto(p.l, k)) && flags == Flags(h, p.l)
    requires q.Valid() && q.Idle() && Partial(q.Now(), q.arena) == [] && q.MappingOk(blocks)
    requires i < |blocks| && off < |blocks[i].data| && Position(blocks, i, off) == Upto(p.l, k)
    modifies p.first, q, q.eb, q.mem
    ensures (rc == Ok || (rc == ENOSPC && q.n == LIMIT) || (rc == ENOMEM && q.pool == [])) && i' <= |blocks|
    ensures copy && 1 + Pieces(ss) <= |old(q.pool)| && old(q.n) + 2 + Pieces(ss) <= LIMIT ==> rc == Ok
    ensures copy && rc == Ok ==> |old(q.pool)| <= |q.pool| + 1 + Pieces(ss) && q.n <= old(q.n) + 2 + Pieces(ss)
    ensures Edited(h, p.first[..], p.l) && (!eol ==> Template(h, p.first[..], p.l))
    ensures rc == Ok ==> HeaderBuffer(q, stbp')
    ensures rc == Ok ==> q.Valid() && q.Idle() && q.MappingOk(blocks) && Partial(q.Now(), q.arena) == []
    ensures rc == Ok ==> Done(q.Now(), q.arena) == old(Done(q.Now(), q.arena)) + [FrameOf(h, p.l, Concat(blocks), k)]
    ensures rc == Ok ==> (if i' < |blocks| then off' < |blocks[i'].data| else off' == 0)
    ensures rc == Ok ==> Position(blocks, i', off') == Upto(p.l, k) + ss
  {
    hide *;
    var hdr := PrepareHeader(p, ss, eol, id, thSeq, flags, Concat(blocks), h, k);
    rc, i', off', stbp' := SendPart(q, hdr, blocks, i, off, ss, copy, stbp);
  }

  /** The header edits for frame k, and the bytes to copy. */
  method PrepareHeader(p: Packet, ss: nat, eol: bool, id: u16, thSeq: u32, flags: u8, ghost payload: Bytes, ghost h: Bytes,
                       ghost k: nat)
    returns (hdr: Bytes)
    requires Template(h, p.first[..], p.l) && p.l.hs <= |h| && FramesFit(h, p.l)
    requires |payload| == p.l.size && Upto(p.l, k) < p.l.size
    requires ss == SliceLen(p.l, k) && (eol <==> Upto(p.l, k) + ss == p.l.size) && HeaderLen(h, p.l) + ss < WORD16
    requires id == (IpId(h, p.l) + k) % WORD16 && thSeq == Add32(Seq(h, p.l), Upto(p.l, k)) && flags == Flags(h, p.l)
    modifies p.first
    ensures 0 < ss && Upto(p.l, k) + ss <= p.l.size && 0 < |hdr| <= BUFFER
    ensures FrameOf(h, p.l, payload, k) == hdr + payload[Upto(p.l, k)..Upto(p.l, k) + ss]
    ensures Edited(h, p.first[..], p.l) && (!eol ==> Template(h, p.first[..], p.l))
  {
    hide *;
    TemplateLayout(h, p.first[..], p.l);
    AdjustHeader(p, ss, eol, id, thSeq, flags, h);
    FrameIs(h, p.l, payload, k, ss, eol, id, thSeq, p.first[..]);
    hdr := p.first[..p.l.hs];
    assert p.first[..p.l.hs] == p.first[..][..p.l.hs];
  }

  lemma TemplateLayout(h: Bytes, c: Bytes, l: Layout)
    ensures Template(h, c, l) ==> LayoutOk(l, |h|) && |c| == |h| && 0 < l.hs <= BUFFER
  {
  }

  /** The adjusted header, and what it is for: its frame, and the template of the next one. */
  lemma FrameIs(h: Bytes, l: Layout, payload: Bytes, k: nat, ss: nat, eol: bool, id: u16, thSeq: u32, c: Bytes)
    requires LayoutOk(l, |h|) && l.hs <= |h| && FramesFit(h, l) && |payload| == l.size && Upto(l, k) < l.size
    requires ss == SliceLen(l, k) && (eol <==> Upto(l, k) + ss == l.size)
    requires id == (IpId(h, l) + k) % WORD16 && thSeq == Add32(Seq(h, l), Upto(l, k)) && HeaderLen(h, l) + ss < WORD16
    requires c == if eol then WithFields(h, l, HeaderLen(h, l) + ss, id, thSeq, Flags(h, l))
                  else WithFields(h, l, (HeaderLen(h, l) + l.mss) % WORD16, id, thSeq, Interim(Flags(h, l)))
    ensures 0 < ss && Upto(l, k) + ss <= l.size && HeaderLen(h, l) + SliceLen(l, k) < WORD16
    ensures FrameOf(h, l, payload, k) == c[..l.hs] + payload[Upto(l, k)..Upto(l, k) + ss]
    ensures Edited(h, c, l) && (!eol ==> Template(h, c, l))
  {
    hide WithFields, Get16, Get32, Put16, Put32, Interim, Upto, IpLen, IpId, Seq, Flags, HeaderLen, Add32, Edited;
    EditedIs(h, l, if eol then HeaderLen(h, l) + ss else (HeaderLen(h, l) + l.mss) % WORD16, id, thSeq,
             if eol then Flags(h, l) else Interim(Flags(h, l)));
  }

  /** Undoing every header edit. */
  method RestoreHeader(p: Packet, len: u16, id: u16, thSeq: u32, flags: u8, ghost h: Bytes)
    requires Edited(h, p.first[..], p.l) && p.rptr == p.l.hs
    requires len == IpLen(h, p.l) && id == IpId(h, p.l) && thSeq == Seq(h, p.l) && flags == Flags(h, p.l)
    modifies p, p.first
    ensures p.first[..] == h && p.rptr == 0
  {
    ghost var c := p.first[..];
    hide WithFields, Get16, Get32, Put16, Put32;
    SetCounters(p, id, thSeq, h);
    EditedIs(h, p.l, IpLen(c, p.l), id, thSeq, Flags(c, p.l));
    SetLengthFlags(p, len, flags, h);
    FieldsSame(h, p.l);
    p.rptr := p.rptr - p.l.hs;
  }

  /** sfxge_tx_qlso_fragment.  A packet that is suitable becomes ceil(size / mss) frames, unless descriptors
      or memory run out; a packet that fails is as it was. */
  method LsoFragment(q: Queue, p: Packet, copy: bool) returns (rc: Rc, keep: bool)
    requires q.AtStart() && p.Parsed() && p.first != q.mem
    requires p.l.hs <= p.first.Length ==> q.MappingOk(p.Blocks())
    modifies p, p.first, q, q.eb, q.mem
    ensures rc == EINVAL <==> old(var h, l := p.first[..], p.l; var ipLen := 0x100 * h[l.ip + 2] as int + h[l.ip + 3];
      || !p.lso || l.hs > |h| || |h| + |Concat(p.rest)| != (if h[12] == 0x81 && h[13] == 0 then 18 else 14) + ipLen
      || (h[l.ip + 6] != 0 && h[l.ip + 6] != 0x40) || h[l.ip + 7] != 0
      || h[l.tcp + 13] / 0x20 % 2 == 1 || h[l.tcp + 13] / 2 % 2 == 1 || h[l.tcp + 18] != 0 || h[l.tcp + 19] != 0
      || l.size + 4 * (h[l.ip] % 0x10) + 4 * (h[l.tcp + 12] / 0x10) != ipLen || l.size / l.mss >= 504)
    ensures rc == Ok || rc == EINVAL || (rc == ENOSPC && q.n == LIMIT) || (rc == ENOMEM && q.pool == [])
    ensures rc != EINVAL && copy && Enough(p.l, |old(q.pool)|) ==> rc == Ok
    ensures rc == Ok ==> old(|Concat(p.Blocks())| == p.l.size && FramesFit(p.first[..], p.l) && p.l.hs <= p.first.Length)
    ensures rc == Ok ==> q.Valid() && Partial(q.Now(), q.arena) == []
    ensures rc == Ok ==>
      Done(q.Now(), q.arena) == FirstFrames(old(p.first[..]), p.l, old(Concat(p.Blocks())), FrameCount(p.l))
    ensures rc == Ok ==> |Done(q.Now(), q.arena)| == (p.l.size + p.l.mss - 1) / p.l.mss
    ensures rc == Ok ==> (keep <==> q.mapped >= 0)
    ensures rc != Ok ==> p.first[..] == old(p.first[..]) && p.rptr == 0
  {
    hide WithFields, Get16, Get32, Put16, Put32, Good, Sent, InMemory, MapsBlock, Concat, Frames, Open, BuffersOk, Safe,
         AllInMemory, Interim, FirstFrames, FrameOf, FrameCount, Done, Partial, HasBit, Enough, Checked, Upto, EtherLen,
         HeaderLen, InOnePage;
    keep := false;
    ghost var h := p.first[..];
    rc := CheckLso(p);
    if rc != Ok {
      return;
    }
    var l, first, blocks := p.l, p.first, p.Blocks();
    PayloadSize(p, h);
    FieldsSame(h, l);
    assert Sendable(p, blocks, h);
    var startLen, startId, startSeq, startFlags := IpLen(first[..], l), IpId(first[..], l), Seq(first[..], l), Flags(first[..], l);
    SetLengthFlags(p, (HeaderLen(first[..], l) + l.mss) % WORD16, Interim(startFlags), h);
    EditedIs(h, l, (HeaderLen(h, l) + l.mss) % WORD16, startId, startSeq, Interim(startFlags));
    if l.size / l.mss >= LIMIT / 2 {
      rc := EINVAL;
    } else {
      rc := SendFrames(q, p, blocks, startId, startSeq, startFlags, copy, h);
    }
    if rc != Ok {
      RestoreHeader(p, startLen, startId, startSeq, startFlags, h);
      return;
    }
    keep := q.mapped >= 0;
    FramesAre(h, l, Concat(blocks), FrameCount(l));
    UptoIs(l, 0);
  }

  /** A packet that passes the checks has exactly size payload bytes. */
  lemma PayloadSize(p: Packet, h: Bytes)
    requires LayoutOk(p.l, |h|) && h == p.first[..] && p.l.hs == EtherLen(h) + HeaderLen(h, p.l) && Checked(h, p)
    ensures |Concat(p.Blocks())| == p.l.size && p.Blocks() != [] && FramesFit(h, p.l)
  {
    var l := p.l;
    if l.hs < |h| {
      var b := Block(p.first[l.hs..], p.tail);
      assert p.Blocks() == [b] + p.rest && ([b] + p.rest)[1..] == p.rest;
    } else {
      assert p.Blocks() == p.rest;
    }
  }

  /** The header template, the payload and the counters belong together. */
  ghost predicate Sendable(p: Packet, blocks: seq<Block>, h: Bytes)
  {
    && LayoutOk(p.l, |h|) && p.l.hs <= |h| && FramesFit(h, p.l) && |Concat(blocks)| == p.l.size && blocks != []
  }

  /** The state of the segmentation loop with k frames out and lss bytes left. */
  ghost predicate Running(q: Queue, p: Packet, blocks: seq<Block>, h: Bytes, k: nat, lss: nat, i: nat, off: nat, id: u16, thSeq: u32,
                          stbp: int)
    requires Sendable(p, blocks, h)
    reads p, p.first, q, q.eb, q.mem
  {
    && Left(p.l, k, lss) && i <= |blocks| && Position(blocks, i, off) == p.l.size - lss
    && (if i < |blocks| then off < |blocks[i].data| else off == 0)
    && id == (IpId(h, p.l) + k) % WORD16 && thSeq == Add32(Seq(h, p.l), p.l.size - lss)
    && Edited(h, p.first[..], p.l) && (lss != 0 ==> Template(h, p.first[..], p.l))
    && q.Valid() && q.Idle() && q.MappingOk(blocks) && Partial(q.Now(), q.arena) == [] && k <= FrameCount(p.l)
    && HeaderBuffer(q, stbp)
    && Done(q.Now(), q.arena) == FirstFrames(h, p.l, Concat(blocks), k)
  }

  /** One more round. */
  method SendNext(q: Queue, p: Packet, blocks: seq<Block>, i: nat, off: nat, lss: nat, id: u16, thSeq: u32, flags: u8,
                  copy: bool, stbp: int, ghost h: Bytes, ghost k: nat)
    returns (rc: Rc, i': nat, off': nat, lss': nat, id': u16, thSeq': u32, stbp': int)
    requires p.first != q.mem && Sendable(p, blocks, h) && flags == Flags(h, p.l) && lss != 0
    requires Running(q, p, blocks, h, k, lss, i, off, id, thSeq, stbp)
    modifies p.first, q, q.eb, q.mem
    ensures Edited(h, p.first[..], p.l) && lss' < lss
    ensures rc == Ok || (rc == ENOSPC && q.n == LIMIT) || (rc == ENOMEM && q.pool == [])
    ensures var cost := Pieces(p.l.mss); copy && 1 + cost <= |old(q.pool)| && old(q.n) + 2 + cost <= LIMIT ==> rc == Ok
    ensures var cost := Pieces(p.l.mss);
      copy && rc == Ok ==> |old(q.pool)| <= |q.pool| + 1 + cost && q.n <= old(q.n) + 2 + cost
    ensures rc == Ok ==> Running(q, p, blocks, h, k + 1, lss', i', off', id', thSeq', stbp')
  {
    hide WithFields, Get16, Get32, Put16, Put32, Good, Sent, InMemory, MapsBlock, Concat, Frames, Open, BuffersOk, Safe,
         AllInMemory, Interim, FirstFrames, FrameOf, Left, FrameCount, SliceLen, Template, Edited, FramesFit, Position, Done,
         Partial, Pieces;
    var l := p.l;
    var ss := Min(lss, l.mss);
    var eol := ss == lss;
    EndsAtTotal(blocks);
    LeftAfter(l, k, lss);
    NextFrame(h, l, Concat(blocks), k);
    NextCounters(IpId(h, l), Seq(h, l), k, l.size - lss, ss);
    id', thSeq', lss' := (id + 1) % WORD16, Add32(thSeq, ss), lss - ss;
    PiecesGrow(ss, l.mss);
    rc, i', off', stbp' := SendFrame(q, p, blocks, i, off, ss, eol, id, thSeq, flags, copy, stbp, h, k);
  }

  /** The segmentation loop. */
  method SendFrames(q: Queue, p: Packet, blocks: seq<Block>, startId: u16, startSeq: u32, flags: u8, copy: bool, ghost h: Bytes)
    returns (rc: Rc)
    requires q.AtStart() && p.first != q.mem && q.MappingOk(blocks)
    requires Sendable(p, blocks, h) && Template(h, p.first[..], p.l)
    requires startId == IpId(h, p.l) && startSeq == Seq(h, p.l) && flags == Flags(h, p.l)
    modifies p.first, q, q.eb, q.mem
    ensures Edited(h, p.first[..], p.l)
    ensures rc == Ok || (rc == ENOSPC && q.n == LIMIT) || (rc == ENOMEM && q.pool == [])
    ensures copy && Enough(p.l, |old(q.pool)|) ==> rc == Ok
    ensures rc == Ok ==> q.Valid() && Partial(q.Now(), q.arena) == []
    ensures rc == Ok ==> Done(q.Now(), q.arena) == FirstFrames(h, p.l, Concat(blocks), FrameCount(p.l))
  {
    hide *;
    RunningStarts(q, p, blocks, h);
    StartIsFree(q);
    SpentNothing(p.l, |q.pool|);
    var lss: nat, id, thSeq, i: nat, off: nat, stbp: int := p.l.size, startId, startSeq, 0, 0, -1;
    ghost var k: nat := 0;
    rc := Ok;
    while lss != 0
      invariant rc == Ok && Running(q, p, blocks, h, k, lss, i, off, id, thSeq, stbp)
      invariant copy ==> Spent(p.l, |old(q.pool)|, k, |q.pool|, q.n)
      decreases lss
    {
      RunningLeft(q, p, blocks, h, k, lss, i, off, id, thSeq, stbp);
      SpendOne(p.l, |old(q.pool)|, k, |q.pool|, q.n);
      ghost var pool0, n0 := |q.pool|, q.n;
      rc, i, off, lss, id, thSeq, stbp := SendNext(q, p, blocks, i, off, lss, id, thSeq, flags, copy, stbp, h, k);
      if rc != Ok {
        return;
      }
      if copy {
        SpentMore(p.l, |old(q.pool)|, k, pool0, n0, |q.pool|, q.n);
      }
      k := k + 1;
    }
    RunningEnds(q, p, blocks, h, k, i, off, id, thSeq, stbp);
  }

  /** Enough room for all frames when they are copied: for each, a buffer and two descriptors, and one more of both for
      every 1K of its payload. */
  predicate Enough(l: Layout, room: nat)
    requires l.mss > 0
  {
    var cost := (l.mss + 1023) / 1024;
    FrameCount(l) * (cost + 1) <= room && FrameCount(l) * (cost + 2) <= 1008
  }

  /** What k frames have taken of it. */
  predicate Spent(l: Layout, room: nat, k: nat, pool: nat, n: nat) {
    room <= pool + k * (Pieces(l.mss) + 1) && n <= k * (Pieces(l.mss) + 2)
  }

  lemma SpentNothing(l: Layout, room: nat)
    ensures Spent(l, room, 0, room, 0)
  {
  }

  lemma SpendOne(l: Layout, room: nat, k: nat, pool: nat, n: nat)
    requires l.mss > 0 && k < FrameCount(l)
    ensures Spent(l, room, k, pool, n) && Enough(l, room) ==>
      1 + Pieces(l.mss) <= pool && n + 2 + Pieces(l.mss) <= LIMIT
  {
    hide FrameCount;
    var cost := Pieces(l.mss);
    AtMost(k + 1, FrameCount(l), cost + 1);
    AtMost(k + 1, FrameCount(l), cost + 2);
    assert (k + 1) * (cost + 1) == k * (cost + 1) + (cost + 1) && (k + 1) * (cost + 2) == k * (cost + 2) + (cost + 2);
  }

  lemma SpentMore(l: Layout, room: nat, k: nat, pool: nat, n: nat, pool': nat, n': nat)
    requires l.mss > 0 && Spent(l, room, k, pool, n) && pool <= pool' + 1 + Pieces(l.mss) && n' <= n + 2 + Pieces(l.mss)
    ensures Spent(l, room, k + 1, pool', n')
  {
    var cost := Pieces(l.mss);
    assert (k + 1) * (cost + 1) == k * (cost + 1) + (cost + 1) && (k + 1) * (cost + 2) == k * (cost + 2) + (cost + 2);
  }

  lemma AtMost(x: nat, y: nat, m: nat)
    ensures x <= y ==> x * m <= y * m
  {
  }

  lemma StartIsFree(q: Queue)
    ensures q.AtStart() ==> q.n == 0
  {
  }

  lemma RunningLeft(q: Queue, p: Packet, blocks: seq<Block>, h: Bytes, k: nat, lss: nat, i: nat, off: nat, id: u16, thSeq: u32,
                    stbp: int)
    requires Sendable(p, blocks, h) && Running(q, p, blocks, h, k, lss, i, off, id, thSeq, stbp) && lss != 0
    ensures k < FrameCount(p.l) && p.l.mss > 0
  {
    hide FrameCount, Upto, Template, Edited, FirstFrames, Done, Partial, Position;
  }

  lemma RunningStarts(q: Queue, p: Packet, blocks: seq<Block>, h: Bytes)
    requires q.AtStart() && q.MappingOk(blocks) && Sendable(p, blocks, h) && Template(h, p.first[..], p.l)
    ensures Running(q, p, blocks, h, 0, p.l.size, 0, 0, IpId(h, p.l), Seq(h, p.l), -1)
  {
    hide *;
    SendableIs(p, blocks, h);
    StartLoop(h, p.l, blocks, Seq(h, p.l));
    q.StartIsEmpty();
    q.BlocksNonEmpty(blocks);
    StartCounter(IpId(h, p.l));
    TemplateIsEdited(h, p.first[..], p.l);
    HeaderBufferIs(q, -1);
    RunningHolds(q, p, blocks, h, p.l.size, IpId(h, p.l), Seq(h, p.l));
  }

  lemma SendableIs(p: Packet, blocks: seq<Block>, h: Bytes)
    ensures Sendable(p, blocks, h) ==>
      LayoutOk(p.l, |h|) && p.l.hs <= |h| && FramesFit(h, p.l) && |Concat(blocks)| == p.l.size && blocks != [] && p.l.mss > 0
  {
    hide Concat, FramesFit;
  }

  lemma StartCounter(id: u16)
    ensures (id + 0) % WORD16 == id
  {
  }

  lemma TemplateIsEdited(h: Bytes, c: Bytes, l: Layout)
    ensures Template(h, c, l) ==> Edited(h, c, l)
  {
  }

  lemma RunningHolds(q: Queue, p: Packet, blocks: seq<Block>, h: Bytes, lss: nat, id: u16, thSeq: u32)
    requires Sendable(p, blocks, h) && blocks[0].data != []
    requires Left(p.l, 0, lss) && lss == p.l.size && Position(blocks, 0, 0) == 0
    requires id == (IpId(h, p.l) + 0) % WORD16 && thSeq == Add32(Seq(h, p.l), 0)
    requires Edited(h, p.first[..], p.l) && Template(h, p.first[..], p.l)
    requires q.Valid() && q.Idle() && q.MappingOk(blocks) && Partial(q.Now(), q.arena) == [] && HeaderBuffer(q, -1)
    requires Done(q.Now(), q.arena) == FirstFrames(h, p.l, Concat(blocks), 0)
    ensures Running(q, p, blocks, h, 0, lss, 0, 0, id, thSeq, -1)
  {
    hide WithFields, Get16, Get32, Put16, Put32, Good, Concat, FirstFrames, FrameCount, Position, Done, Partial, Template, Left,
         InMemory, MapsBlock, AllInMemory, BuffersOk, Safe, Edited, Add32, FramesFit;
  }

  lemma RunningEnds(q: Queue, p: Packet, blocks: seq<Block>, h: Bytes, k: nat, i: nat, off: nat, id: u16, thSeq: u32,
                    stbp: int)
    requires Sendable(p, blocks, h) && Running(q, p, blocks, h, k, 0, i, off, id, thSeq, stbp)
    ensures q.Valid() && Edited(h, p.first[..], p.l) && Partial(q.Now(), q.arena) == []
    ensures Done(q.Now(), q.arena) == FirstFrames(h, p.l, Concat(blocks), FrameCount(p.l))
  {
    hide WithFields, Get16, Get32, Put16, Put32, Good, Concat, FirstFrames, FrameCount, Position, Done, Partial, Template;
  }

  lemma StartLoop(h: Bytes, l: Layout, blocks: seq<Block>, startSeq: u32)
    requires LayoutOk(l, |h|) && l.hs <= |h| && FramesFit(h, l) && |Concat(blocks)| == l.size
    ensures Position(blocks, 0, 0) == 0 && Left(l, 0, l.size) && FirstFrames(h, l, Concat(blocks), 0) == []
    ensures Add32(startSeq, 0) == startSeq
  {
    StartsAtZero(blocks);
    DivBounds(l.size + l.mss - 1, l.mss);
  }

  /** With k frames out, lss bytes are left to send. */
  ghost predicate Left(l: Layout, k: nat, lss: nat)
    requires l.mss > 0
  {
    lss <= l.size && if lss == 0 then k == FrameCount(l) else k < FrameCount(l) && Upto(l, k) == l.size - lss
  }

  lemma LeftAfter(l: Layout, k: nat, lss: nat)
    requires l.mss > 0 && Left(l, k, lss) && lss > 0
    ensures k < FrameCount(l) && Upto(l, k) == l.size - lss < l.size
    ensures var ss := Min(lss, l.mss);
      ss == SliceLen(l, k) > 0 && (ss == lss <==> Upto(l, k) + ss == l.size) && Left(l, k + 1, lss - ss)
  {
    hide FrameCount, Upto;
    FrameBounds(l, k);
  }

  lemma NextFrame(h: Bytes, l: Layout, payload: Bytes, k: nat)
    requires LayoutOk(l, |h|) && l.hs <= |h| && |payload| == l.size && FramesFit(h, l) && k < FrameCount(l)
    ensures Upto(l, k) < l.size && HeaderLen(h, l) + SliceLen(l, k) < WORD16
    ensures FirstFrames(h, l, payload, k + 1) == FirstFrames(h, l, payload, k) + [FrameOf(h, l, payload, k)]
  {
    hide FrameCount, Upto;
    FrameBounds(l, k);
  }

  lemma NextCounters(id: u16, s: u32, k: nat, sent: nat, ss: nat)
    ensures ((id + k) % WORD16 + 1) % WORD16 == (id + (k + 1)) % WORD16
    ensures Add32(Add32(s, sent), ss) == Add32(s, sent + ss)
  {
    WrapAdd(s + sent, ss);
  }

  // ---------------------------------------------------------------- a packet that must not be fragmented

  /** Headers of 54 bytes in front of 100 bytes of payload, with the DF bit set. */
  function DfHeaders(): Bytes {
    [0, 0, 0, 0, 0, 0, 0, 0, 0, 0, 0, 0, 0x08, 0x00,
     0x45, 0, 0, 140, 0, 0, 0x40, 0, 64, 6, 0, 0, 0, 0, 0, 0, 0, 0, 0, 0,
     0, 0, 0, 0, 0, 0, 0, 0, 0, 0, 0, 0, 0x50, 0x10, 0, 0, 0, 0, 0, 0]
  }

  /** The payload, in memory at the second page. */
  function DfPayload(): Block {
    Block(seq(100, _ => 0), [Cookie(4096, 100)])
  }

  lemma DfPayloadIsThere(mem: Bytes, arena: set<nat>)
    requires |mem| == 8192 && (forall a :: 0 <= a < 8192 ==> mem[a] == 0) && 4 !in arena
    ensures AllInMemory(mem, arena, [DfPayload()]) && |Concat([DfPayload()])| == 100
  {
    var b := DfPayload();
    assert b.cookies[1..] == [] && [b][1..] == [];
    forall o | 0 <= o < 100
      ensures CookieAddr(b.cookies, o) == 4096 + o && (4096 + o) / BUFFER == 4
    {
      DivModUnique(4096 + o, BUFFER, 4, o);
    }
  }

  function DfLayout(): Layout {
    Layout(14, 34, 54, 100, 50)
  }

  lemma DfIsParsed(p: Packet)
    requires p.first[..] == DfHeaders() && p.rest == [DfPayload()] && p.l == DfLayout() && p.rptr == 0
    ensures |p.first[..]| == 54 == p.first.Length && p.Parsed() && p.Blocks() == [DfPayload()] && p.l.hs <= p.first.Length
  {
    hide DfPayload, DfHeaders;
    DfBytes();
    assert Get16(DfHeaders(), 12) == 0x800;
    assert [] + [DfPayload()] == [DfPayload()];
  }

  lemma DfBytes()
    ensures var h := DfHeaders();
      && |h| == 54 && h[12] == 8 && h[13] == 0 && h[14] == 0x45 && h[16] == 0 && h[17] == 140 && h[20] == 0x40 && h[21] == 0
      && h[46] == 0x50 && h[47] == 0x10 && h[52] == 0 && h[53] == 0
  {
  }

  lemma DfIsSuitable(p: Packet)
    requires p.rest == [DfPayload()] && p.lso && p.l == DfLayout() && |Concat([DfPayload()])| == 100
    ensures |DfHeaders()| == 54 && LayoutOk(p.l, 54) && Suitable(DfHeaders(), p)
  {
    hide Concat, DfPayload, DfHeaders, Suitable, Checked;
    DfBytes();
    SuitableIs(DfHeaders(), p);
    CheckedIs(DfHeaders(), p);
  }

  lemma DfHasRoom()
    ensures DfLayout().mss > 0 && Enough(DfLayout(), 4) && (DfLayout().size + DfLayout().mss - 1) / DfLayout().mss == 2
  {
  }

  lemma DfPools(mem: Bytes)
    requires |mem| == 8192
    ensures BuffersOk(Frag(mem, [], [0, 1024, 2048, 3072], -1, 0, 0), {0, 1, 2, 3})
  {
  }

  lemma UnmappedIsOk(q: Queue, blocks: seq<Block>)
    ensures q.AtStart() && AllInMemory(q.mem[..], q.arena, blocks) ==> q.MappingOk(blocks)
  {
    hide AllInMemory;
  }

  /** The driver sends it, as two frames. */
  method SendsDontFragment() returns (rc: Rc, q: Queue)
    ensures rc == Ok && q.Valid() && |Done(q.Now(), q.arena)| == 2
  {
    var mem := new u8[8192](_ => 0);
    var h := DfHeaders();
    var first := new u8[54](k requires 0 <= k < 54 => h[k]);
    assert first[..] == h && 4 !in {0, 1, 2, 3};
    hide *;
    DfPools(mem[..]);
    q := new Queue(mem, {0, 1, 2, 3}, [0, 1024, 2048, 3072]);
    DfPayloadIsThere(mem[..], q.arena);
    UnmappedIsOk(q, [DfPayload()]);
    var p := new Packet(first, [], [DfPayload()], true, DfLayout());
    DfIsParsed(p);
    DfIsSuitable(p);
    DfHasRoom();
    SuitableIs(h, p);
    CheckedIs(h, p);
    var keep;
    rc, keep := LsoFragment(q, p, true);
  }
}
