/** What a list of transmit descriptors means: the frames that the hardware reads through it from DMA
    memory, and how message blocks lie in that memory (sfxge_tx.c, common/ef10_tx.c). */
module TxDescs {
  import opened Words

  type Bytes = seq<u8>

  const PAGE := 4096                  // SFXGE_TX_DESCSIZE
  const BUFFER := 0x400               // SFXGE_TX_BUFFER_SIZE, also its alignment
  const THRESHOLD := 0x200            // SFXGE_TX_COPY_THRESHOLD
  const NADDR := 18                   // SFXGE_TX_MAPPING_NADDR

  datatype Rc = Ok | ENOSPC | ENOMEM | EINVAL

  datatype Desc = Desc(addr: nat, size: nat, eop: bool)

  /** What ef10_tx_qpost demands: not empty, and within one 4K page. */
  predicate InOnePage(d: Desc) {
    d.size > 0 && d.addr / PAGE == (d.addr + d.size - 1) / PAGE
  }

  predicate DescOk(mem: Bytes, d: Desc) {
    InOnePage(d) && d.addr + d.size <= |mem|
  }

  function Read(mem: Bytes, d: Desc): Bytes
    requires DescOk(mem, d)
  {
    mem[d.addr..d.addr + d.size]
  }

  predicate DescsOk(mem: Bytes, ds: seq<Desc>) {
    forall k :: 0 <= k < |ds| ==> DescOk(mem, ds[k])
  }

  /** The bytes that belong to no complete frame yet. */
  function Open(mem: Bytes, ds: seq<Desc>): Bytes
    requires DescsOk(mem, ds)
  {
    if ds == [] || ds[|ds| - 1].eop then [] else Open(mem, ds[..|ds| - 1]) + Read(mem, ds[|ds| - 1])
  }

  /** The complete frames: the hardware starts a new one after each end-of-packet descriptor. */
  function Frames(mem: Bytes, ds: seq<Desc>): seq<Bytes>
    requires DescsOk(mem, ds)
  {
    if ds == [] then []
    else
      var last := ds[|ds| - 1];
      Frames(mem, ds[..|ds| - 1])
        + (if last.eop then [Open(mem, ds[..|ds| - 1]) + Read(mem, last)] else [])
  }

  /** One more descriptor. */
  lemma Snoc(mem: Bytes, ds: seq<Desc>, d: Desc)
    requires DescsOk(mem, ds) && DescOk(mem, d)
    ensures DescsOk(mem, ds + [d])
    ensures Frames(mem, ds + [d]) == Frames(mem, ds) + (if d.eop then [Open(mem, ds) + Read(mem, d)] else [])
    ensures Open(mem, ds + [d]) == if d.eop then [] else Open(mem, ds) + Read(mem, d)
  {
    assert (ds + [d])[..|ds|] == ds;
  }

  /** Memory that no descriptor reads does not matter. */
  lemma {:induction false} SameReads(mem: Bytes, mem': Bytes, ds: seq<Desc>)
    requires |mem'| == |mem| && DescsOk(mem, ds)
    requires forall k :: 0 <= k < |ds| ==> Read(mem', ds[k]) == Read(mem, ds[k])
    ensures DescsOk(mem', ds) && Frames(mem', ds) == Frames(mem, ds) && Open(mem', ds) == Open(mem, ds)
  {
    if ds != [] {
      SameReads(mem, mem', ds[..|ds| - 1]);
    }
  }

  /** With one complete frame and nothing behind it, end-of-packet is set on the last descriptor only. */
  lemma {:induction false} EopCount(mem: Bytes, ds: seq<Desc>)
    requires DescsOk(mem, ds)
    ensures |Frames(mem, ds)| == |set k | 0 <= k < |ds| && ds[k].eop|
  {
    var marked := set k | 0 <= k < |ds| && ds[k].eop;
    if ds == [] {
      assert marked == {};
    } else {
      var n := |ds| - 1;
      EopCount(mem, ds[..n]);
      FrameCount(mem, ds);
      EopSet(ds);
    }
  }

  lemma FrameCount(mem: Bytes, ds: seq<Desc>)
    requires DescsOk(mem, ds) && ds != []
    ensures var n := |ds| - 1;
      DescsOk(mem, ds[..n]) && |Frames(mem, ds)| == |Frames(mem, ds[..n])| + if ds[n].eop then 1 else 0
  {
  }

  lemma EopSet(ds: seq<Desc>)
    requires ds != []
    ensures var n := |ds| - 1;
      |set k | 0 <= k < |ds| && ds[k].eop| == |set k | 0 <= k < n && ds[..n][k].eop| + if ds[n].eop then 1 else 0
  {
    var n := |ds| - 1;
    var before := set k | 0 <= k < n && ds[..n][k].eop;
    assert (set k | 0 <= k < |ds| && ds[k].eop) == before + (if ds[n].eop then {n} else {});
  }

  lemma EopOnLastOnly(mem: Bytes, ds: seq<Desc>)
    requires DescsOk(mem, ds) && |Frames(mem, ds)| == 1 && Open(mem, ds) == []
    ensures forall k :: 0 <= k < |ds| ==> (ds[k].eop <==> k == |ds| - 1)
  {
    var n := |ds| - 1;
    EopCount(mem, ds);
    var marked := set k | 0 <= k < |ds| && ds[k].eop;
    assert ds[n].eop;
    forall k | 0 <= k < n
      ensures !ds[k].eop
    {
      if ds[k].eop {
        assert {k, n} <= marked;
        SubsetSize({k, n}, marked);
      }
    }
  }

  lemma SubsetSize(a: set<int>, b: set<int>)
    requires a <= b
    ensures |a| <= |b|
  {
    assert b == a + (b - a);
  }

  // ---------------------------------------------------------------- message blocks

  /** A DMA cookie: a range of bus addresses. */
  datatype Cookie = Cookie(addr: nat, size: nat)

  /** An mblk: its bytes, and the cookies that binding it for DMA gives. */
  datatype Block = Block(data: Bytes, cookies: seq<Cookie>)

  function Total(cookies: seq<Cookie>): nat {
    if cookies == [] then 0 else cookies[0].size + Total(cookies[1..])
  }

  /** The bus address of the o-th byte. */
  function CookieAddr(cookies: seq<Cookie>, o: nat): nat
    requires o < Total(cookies)
  {
    if o < cookies[0].size then cookies[0].addr + o else CookieAddr(cookies[1..], o - cookies[0].size)
  }

  /** How the DMA framework lays cookies out: every cookie but the last ends on a page boundary, and so
      every cookie but the first starts on one. */
  predicate CookiesOk(cookies: seq<Cookie>, size: nat) {
    && cookies != [] && Total(cookies) == size
    && (forall i :: 0 <= i < |cookies| ==> cookies[i].size > 0)
    && (forall i :: 0 <= i < |cookies| - 1 ==> (cookies[i].addr + cookies[i].size) % PAGE == 0)
    && (forall i :: 0 < i < |cookies| ==> cookies[i].addr % PAGE == 0)
    && cookies[0].addr % PAGE + size <= NADDR * PAGE
  }

  lemma {:induction false} TotalSplit(cookies: seq<Cookie>, j: nat)
    requires j < |cookies|
    ensures Total(cookies[..j + 1]) == Total(cookies[..j]) + cookies[j].size <= Total(cookies)
  {
    if j == 0 {
      assert cookies[..1][1..] == [] && cookies[..0] == [];
    } else {
      assert cookies[..j + 1][1..] == cookies[1..][..j] && cookies[..j][1..] == cookies[1..][..j - 1];
      TotalSplit(cookies[1..], j - 1);
    }
  }

  lemma {:induction false} CookieAt(cookies: seq<Cookie>, j: nat, i: nat)
    requires j < |cookies| && i < cookies[j].size
    ensures Total(cookies[..j]) + i < Total(cookies)
    ensures CookieAddr(cookies, Total(cookies[..j]) + i) == cookies[j].addr + i
  {
    if j == 0 {
      assert cookies[..0] == [];
    } else {
      assert cookies[..j][1..] == cookies[1..][..j - 1];
      CookieAt(cookies[1..], j - 1, i);
    }
  }

  /** What the mapping built for a block promises: page and offset of every byte. */
  predicate MapsBlock(addr: seq<nat>, off: nat, cookies: seq<Cookie>, size: nat)
    requires size <= Total(cookies)
  {
    forall o :: 0 <= o < size ==>
      (off + o) / PAGE < |addr| && addr[(off + o) / PAGE] + (off + o) % PAGE == CookieAddr(cookies, o)
  }

  lemma PageIndex(base: nat, p: nat, r: nat)
    requires base == PAGE * p && r < PAGE
    ensures (base + r) / PAGE == p && (base + r) % PAGE == r
  {
    DivModUnique(base + r, PAGE, p, r);
  }

  /** The pages so far map the block up to the rest of cookie j, of which rem bytes from laddr are left. */
  ghost predicate BoundTo(addr: seq<nat>, off: nat, cookies: seq<Cookie>, j: nat, laddr: nat, rem: nat) {
    && j < |cookies| && rem <= cookies[j].size && laddr == cookies[j].addr + cookies[j].size - rem
    && var done := Total(cookies[..j]) + cookies[j].size - rem;
      && done <= Total(cookies) && MapsBlock(addr, off, cookies, done) && PAGE * |addr| < off + done + PAGE
      && (rem != 0 || j + 1 < |cookies| ==> laddr % PAGE == 0 && off + done == PAGE * |addr|)
      && forall k :: 0 <= k < |addr| ==> addr[k] % PAGE == 0
  }

  lemma FirstBound(cookies: seq<Cookie>, size: nat)
    requires CookiesOk(cookies, size)
    ensures var c := cookies[0]; var off := c.addr % PAGE; var step := Min(PAGE - off, c.size);
      c.addr >= off && step <= c.size && BoundTo([c.addr - off], off, cookies, 0, c.addr + step, c.size - step)
  {
    hide MapsBlock, CookieAddr;
    var c := cookies[0];
    var off := c.addr % PAGE;
    var step := Min(PAGE - off, c.size);
    FirstPage(cookies, step);
    TotalSplit(cookies, 0);
    NextPage(c.addr);
    if step < c.size {
      assert c.addr + step == c.addr - off + PAGE;
    }
  }

  lemma NextCookie(addr: seq<nat>, off: nat, cookies: seq<Cookie>, size: nat, j: nat, laddr: nat)
    requires CookiesOk(cookies, size) && j + 1 < |cookies| && BoundTo(addr, off, cookies, j, laddr, 0)
    ensures BoundTo(addr, off, cookies, j + 1, cookies[j + 1].addr, cookies[j + 1].size)
  {
    hide MapsBlock, Total;
    TotalSplit(cookies, j);
  }

  lemma NextBound(addr: seq<nat>, off: nat, cookies: seq<Cookie>, size: nat, j: nat, laddr: nat, rem: nat)
    requires CookiesOk(cookies, size) && BoundTo(addr, off, cookies, j, laddr, rem) && rem > 0
    ensures var step := Min(PAGE, rem); BoundTo(addr + [laddr], off, cookies, j, laddr + step, rem - step)
  {
    hide MapsBlock, Total;
    var step := Min(PAGE, rem);
    TotalSplit(cookies, j);
    PageStep(addr, off, cookies, Total(cookies[..j]) + cookies[j].size - rem, j, laddr, rem, step);
    NextPage(laddr);
  }

  lemma BoundIsAll(addr: seq<nat>, off: nat, cookies: seq<Cookie>, size: nat, j: nat, laddr: nat)
    requires CookiesOk(cookies, size) && j + 1 == |cookies| && BoundTo(addr, off, cookies, j, laddr, 0)
    requires off == cookies[0].addr % PAGE
    ensures size == Total(cookies) && MapsBlock(addr, off, cookies, size) && off < PAGE && |addr| <= NADDR
    ensures forall k :: 0 <= k < |addr| ==> addr[k] % PAGE == 0
  {
    hide MapsBlock, Total;
    TotalSplit(cookies, j);
    assert cookies[..j + 1] == cookies;
  }

  lemma CookieIsThere(cookies: seq<Cookie>, size: nat, j: nat)
    ensures CookiesOk(cookies, size) ==> cookies != []
    ensures CookiesOk(cookies, size) && j < |cookies| ==> cookies[j].size > 0
  {
  }

  /** sfxge_tx_msgb_bind, for a binding that succeeds: an array of page addresses and a first offset. */
  method Bind(cookies: seq<Cookie>, ghost size: nat) returns (addr: seq<nat>, off: nat)
    requires CookiesOk(cookies, size)
    ensures MapsBlock(addr, off, cookies, size) && off < PAGE && |addr| <= NADDR
    ensures forall k :: 0 <= k < |addr| ==> addr[k] % PAGE == 0
  {
    hide MapsBlock, Total, BoundTo, CookiesOk;
    CookieIsThere(cookies, size, 0);
    FirstBound(cookies, size);
    var c := cookies[0];
    off := c.addr % PAGE;
    addr := [c.addr - off];
    var step := Min(PAGE - off, c.size);
    var laddr, rem := c.addr + step, c.size - step;
    var j := 0;
    while rem != 0 || j + 1 < |cookies|
      invariant 0 <= j < |cookies| && 0 <= laddr && 0 <= rem && BoundTo(addr, off, cookies, j, laddr, rem)
      decreases |cookies| - j, rem
    {
      if rem == 0 {
        NextCookie(addr, off, cookies, size, j, laddr);
        j := j + 1;
        laddr, rem := cookies[j].addr, cookies[j].size;
        CookieIsThere(cookies, size, j);
      }
      step := Min(PAGE, rem);
      NextBound(addr, off, cookies, size, j, laddr, rem);
      addr := addr + [laddr];
      laddr, rem := laddr + step, rem - step;
    }
    BoundIsAll(addr, off, cookies, size, j, laddr);
  }

  lemma NextPage(a: nat)
    ensures (a - a % PAGE + PAGE) % PAGE == 0 && (a - a % PAGE) % PAGE == 0
  {
    assert a == PAGE * (a / PAGE) + a % PAGE;
    DivModUnique(a - a % PAGE + PAGE, PAGE, a / PAGE + 1, 0);
    DivModUnique(a - a % PAGE, PAGE, a / PAGE, 0);
  }

  /** The first page of a mapping. */
  lemma FirstPage(cookies: seq<Cookie>, step: nat)
    requires cookies != [] && step <= Min(PAGE - cookies[0].addr % PAGE, cookies[0].size)
    ensures step <= Total(cookies) && Total(cookies[..0]) == 0
    ensures var off := cookies[0].addr % PAGE; MapsBlock([cookies[0].addr - off], off, cookies, step)
  {
    var off := cookies[0].addr % PAGE;
    var addr := [cookies[0].addr - off];
    forall o | 0 <= o < step
      ensures (off + o) / PAGE < |addr| && addr[(off + o) / PAGE] + (off + o) % PAGE == CookieAddr(cookies, o)
    {
      PageIndex(0, 0, off + o);
    }
  }

  /** One more page of a mapping. */
  lemma PageStep(addr: seq<nat>, off: nat, cookies: seq<Cookie>, done: nat, j: nat, laddr: nat, rem: nat, step: nat)
    requires j < |cookies| && 0 < step <= rem <= cookies[j].size && step <= PAGE
    requires laddr == cookies[j].addr + cookies[j].size - rem && done == Total(cookies[..j]) + cookies[j].size - rem
    requires off + done == PAGE * |addr| && done + step <= Total(cookies) && MapsBlock(addr, off, cookies, done)
    ensures MapsBlock(addr + [laddr], off, cookies, done + step)
  {
    var addr' := addr + [laddr];
    forall o | 0 <= o < done + step
      ensures (off + o) / PAGE < |addr'| && addr'[(off + o) / PAGE] + (off + o) % PAGE == CookieAddr(cookies, o)
    {
      if o >= done {
        CookieAt(cookies, j, cookies[j].size - rem + (o - done));
        PageIndex(off + done, |addr|, o - done);
      } else {
        assert addr'[(off + o) / PAGE] == addr[(off + o) / PAGE];
      }
    }
  }
}
