/** MAC filter specifications and the probe of the software filter table (common/ef10_filter.c). */
module Filters {
  import opened Options
  import opened Words

  const ROWS := 8192
  const SEARCH_LIMIT := 200

  datatype Priority = Hint | Auto | Manual | Required

  datatype MatchFlag =
    RemHost | LocHost | RemMac | RemPort | LocMac | LocPort | EtherType | InnerVid | OuterVid | IpProto | LocMacIg

  type Mac = m: seq<u8> | |m| == 6 witness [0, 0, 0, 0, 0, 0]
  type Oword = o: seq<u8> | |o| == 16 witness seq(16, _ => 0)

  /** The fields a filter matches on. */
  datatype Match = Match(flags: set<MatchFlag>, remHost: Oword, locHost: Oword, remMac: Mac, locMac: Mac,
                         remPort: u16, locPort: u16, innerVid: u16, outerVid: u16, etherType: u16, ipProto: u8)

  datatype Spec = Spec(m: Match, priority: Priority, rss: bool, rssContext: u32, dmaq: nat)

  /** A table row: the specification pointer with its two low-order flag bits. */
  datatype Entry = Entry(spec: Option<Spec>, busy: bool, autoOld: bool)

  const EMPTY := Entry(None, false, false)

  const ZERO_MAC: Mac := [0, 0, 0, 0, 0, 0]
  const BROADCAST: Mac := [0xff, 0xff, 0xff, 0xff, 0xff, 0xff]
  const ZERO_HOST: Oword := [0, 0, 0, 0, 0, 0, 0, 0, 0, 0, 0, 0, 0, 0, 0, 0]
  const ETHER_TYPE_IPV4 := 0x0800
  const ETHER_TYPE_IPV6 := 0x86DD

  /** EFX_MAC_ADDR_IS_MULTICAST: the group bit. */
  predicate Group(mac: Mac) {
    mac[0] % 2 == 1
  }

  function MacMatch(flags: set<MatchFlag>, mac: Mac): Match {
    Match(flags, ZERO_HOST, ZERO_HOST, ZERO_MAC, mac, 0, 0, 0, 0, 0, 0)
  }

  /** efx_filter_spec_set_eth_local without a VLAN */
  function LocalMac(mac: Mac): Match {
    MacMatch({LocMac}, mac)
  }

  const UNKNOWN_UNICAST := MacMatch({LocMacIg}, ZERO_MAC)                     // efx_filter_spec_set_uc_def
  const UNKNOWN_MULTICAST := MacMatch({LocMacIg}, [1, 0, 0, 0, 0, 0])  // efx_filter_spec_set_mc_def

  /** ef10_filter_equal */
  predicate Equal(l: Spec, r: Spec) {
    && l.m.flags == r.m.flags && l.m.remHost == r.m.remHost && l.m.locHost == r.m.locHost
    && l.m.remMac == r.m.remMac && l.m.locMac == r.m.locMac && l.m.remPort == r.m.remPort
    && l.m.locPort == r.m.locPort && l.m.innerVid == r.m.innerVid && l.m.outerVid == r.m.outerVid
    && l.m.etherType == r.m.etherType && l.m.ipProto == r.m.ipProto
  }

  /** ef10_filter_is_exclusive; the IPv4 test looks at the low nibble of the first byte, as the code does. */
  predicate Exclusive(m: Match) {
    || (LocMac in m.flags && !Group(m.locMac))
    || (EtherType in m.flags && LocHost in m.flags
        && (|| (m.etherType == ETHER_TYPE_IPV4 && m.locHost[0] % 16 != 0xe)
            || (m.etherType == ETHER_TYPE_IPV6 && m.locHost[0] != 0xff)))
  }

  /** A filter for a MAC address is exclusive unless it is a group address; those for what no other filter takes never
      are. */
  lemma ExclusiveMacs(mac: Mac)
    ensures Exclusive(LocalMac(mac)) <==> mac[0] % 2 == 0
    ensures !Exclusive(UNKNOWN_UNICAST) && !Exclusive(UNKNOWN_MULTICAST)
  {
    assert LocMac !in UNKNOWN_UNICAST.flags && EtherType !in UNKNOWN_UNICAST.flags;
    assert LocMac !in UNKNOWN_MULTICAST.flags && EtherType !in UNKNOWN_MULTICAST.flags;
  }

  /** A filter for a destination IP address, its bytes in network order. */
  function HostMatch(etherType: u16, host: Oword): Match {
    Match({EtherType, LocHost}, ZERO_HOST, host, ZERO_MAC, ZERO_MAC, 0, 0, 0, 0, etherType, 0)
  }

  /** One for an IPv6 address is exclusive unless that is a multicast address, but for IPv4 it is so exactly for
      some: multicast addresses begin with 0xE0 to 0xEF, and the code looks at the other half of the byte. */
  lemma ExclusiveHosts(host: Oword)
    ensures Exclusive(HostMatch(0x86DD, host)) <==> host[0] != 0xff
    ensures (Exclusive(HostMatch(0x800, host)) <==> !(0xe0 <= host[0] < 0xf0)) <==>
      host[0] == 0xee || (host[0] / 16 != 14 && host[0] % 16 != 14)
  {
    assert LocMac !in HostMatch(0x800, host).flags;
  }

  /** 14.0.0.1 is a unicast address and 224.0.0.1 a multicast one. */
  lemma ExclusiveIsMistaken()
    ensures !Exclusive(HostMatch(0x800, [14, 0, 0, 1, 0, 0, 0, 0, 0, 0, 0, 0, 0, 0, 0, 0]))
    ensures Exclusive(HostMatch(0x800, [224, 0, 0, 1, 0, 0, 0, 0, 0, 0, 0, 0, 0, 0, 0, 0]))
  {
    assert LocMac !in HostMatch(0x800, [14, 0, 0, 1, 0, 0, 0, 0, 0, 0, 0, 0, 0, 0, 0, 0]).flags;
  }

  predicate IsAuto(e: Entry) {
    e.spec.Some? && e.spec.value.priority == Auto
  }

  /** A filter for one multicast or broadcast address. */
  predicate SpecificMulticast(m: Match) {
    LocMac in m.flags && Group(m.locMac)
  }

  predicate Multicast(m: Match) {
    m == UNKNOWN_MULTICAST || SpecificMulticast(m)
  }

  /** Two equal exclusive filters are not both in the table. */
  ghost predicate Unique(t: seq<Entry>) {
    forall i, j :: 0 <= i < j < |t| && t[i].spec.Some? && t[j].spec.Some? && t[i].spec.value.m == t[j].spec.value.m
      ==> !Exclusive(t[i].spec.value.m)
  }

  // ---------------------------------------------------------------- probing

  /** Row of probe depth d for hash h. */
  function Slot(h: u32, d: nat): (i: nat)
    ensures i < ROWS
  {
    (h + d) % ROWS
  }

  predicate Depth(d: int) {
    1 <= d <= SEARCH_LIMIT
  }

  ghost predicate InWindow(h: u32, i: nat) {
    exists d :: Depth(d) && Slot(h, d) == i
  }

  datatype Outcome = Found(i: nat) | Exists | NoRoom | Retry

  /** What one probed row decides: an outcome, or the insertion row to go on with. */
  datatype Probe = Stop(o: Outcome) | Continue(ins: int)

  function ProbeRow(e: Entry, i: nat, spec: Spec, mayReplace: bool, ins: int): Probe {
    if e.spec.None? then Continue(if ins < 0 then i else ins)
    else if !Equal(spec, e.spec.value) then Continue(ins)
    else if e.busy then Stop(Retry)
    else if IsAuto(e) then Stop(Found(i))
    else if !Exclusive(spec.m) then Continue(ins)
    else if mayReplace then Stop(Found(i))
    else Stop(Exists)
  }

  /** The probe from depth d on, with insertion row ins (negative if none yet). */
  function Scan(t: seq<Entry>, h: u32, spec: Spec, mayReplace: bool, d: nat, ins: int): Outcome
    requires |t| == ROWS && Depth(d)
    decreases SEARCH_LIMIT - d
  {
    var i := Slot(h, d);
    match ProbeRow(t[i], i, spec, mayReplace, ins)
    case Stop(o) => o
    case Continue(ins') =>
      if d < SEARCH_LIMIT then Scan(t, h, spec, mayReplace, d + 1, ins')
      else if ins' < 0 then NoRoom else Found(ins')
  }

  /** A row that keeps an equal filter from being inserted beside it. */
  predicate Conflict(e: Entry, spec: Spec) {
    e.spec.Some? && e.spec.value.m == spec.m && (e.busy || IsAuto(e) || Exclusive(spec.m))
  }

  ghost predicate ConflictFrom(t: seq<Entry>, h: u32, spec: Spec, d: nat)
    requires |t| == ROWS
  {
    exists d' :: d <= d' && Depth(d') && Conflict(t[Slot(h, d')], spec)
  }

  /** A conflict that stopped the probe, and how. */
  predicate Decided(e: Entry, spec: Spec, mayReplace: bool, o: Outcome, i: nat) {
    && Conflict(e, spec)
    && (match o
        case Retry => e.busy
        case Found(j) => j == i && !e.busy && (IsAuto(e) || mayReplace)
        case Exists => !e.busy && !IsAuto(e) && !mayReplace
        case NoRoom => false)
  }

  /** What the probe means: it stops at a conflict if the rest of the window has one; otherwise
      it yields an empty row, or finds that there is none. */
  lemma {:induction false} ScanMeaning(t: seq<Entry>, h: u32, spec: Spec, mayReplace: bool, d: nat, ins: int)
    requires |t| == ROWS && Depth(d)
    requires ins >= 0 ==> ins < ROWS && t[ins].spec.None? && InWindow(h, ins)
    ensures var o := Scan(t, h, spec, mayReplace, d, ins);
      && (o.Found? ==> o.i < ROWS && InWindow(h, o.i))
      && (if ConflictFrom(t, h, spec, d) then
            exists d' :: d <= d' && Depth(d') && Decided(t[Slot(h, d')], spec, mayReplace, o, Slot(h, d'))
          else
            && (o.NoRoom? || o.Found?)
            && (o.Found? ==> t[o.i].spec.None?)
            && (o.NoRoom? ==> ins < 0 && forall d' :: d <= d' && Depth(d') ==> t[Slot(h, d')].spec.Some?))
    decreases SEARCH_LIMIT - d
  {
    var i := Slot(h, d);
    assert InWindow(h, i);
    match ProbeRow(t[i], i, spec, mayReplace, ins)
    case Stop(o) =>
      assert Decided(t[Slot(h, d)], spec, mayReplace, o, Slot(h, d));
    case Continue(ins') =>
      assert !Conflict(t[i], spec);
      if d < SEARCH_LIMIT {
        ScanMeaning(t, h, spec, mayReplace, d + 1, ins');
        NextDepth(t, h, spec, d);
      } else {
        assert forall d' :: d <= d' && Depth(d') ==> d' == d;
      }
  }

  lemma NextDepth(t: seq<Entry>, h: u32, spec: Spec, d: nat)
    requires |t| == ROWS && Depth(d) && d < SEARCH_LIMIT && !Conflict(t[Slot(h, d)], spec)
    ensures ConflictFrom(t, h, spec, d) <==> ConflictFrom(t, h, spec, d + 1)
  {
    if ConflictFrom(t, h, spec, d) {
      var d' :| d <= d' && Depth(d') && Conflict(t[Slot(h, d')], spec);
      assert d + 1 <= d';
    }
  }
}
