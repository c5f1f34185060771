/** Turning a message into descriptors, by mapping its blocks for DMA or by copying them into transmit
    buffers (sfxge_tx.c:1245-1400, 1402-1564, 1780-1941).

    DMA memory is a sequence of bytes.  Transmit buffers are the 1K-aligned 1K ranges whose numbers are
    in the arena; message blocks lie outside it. */
module TxFragment {
  import opened Words
  import opened TxSizes
  import opened TxDescs

  /** The fragment list under construction: memory, the descriptors so far, the base addresses of buffers
      that can still be had, and the current buffer, if any, with esm_used and stb_off. */
  datatype Frag = Frag(mem: Bytes, ds: seq<Desc>, pool: seq<nat>, cur: int, used: nat, boff: nat)

  /** A block's bytes are in memory where its cookies say, outside the arena. */
  ghost predicate InMemory(mem: Bytes, arena: set<nat>, b: Block) {
    && CookiesOk(b.cookies, |b.data|)
    && forall o :: 0 <= o < |b.data| ==>
         var a := CookieAddr(b.cookies, o); a < |mem| && a / BUFFER !in arena && mem[a] == b.data[o]
  }

  ghost predicate AllInMemory(mem: Bytes, arena: set<nat>, blocks: seq<Block>) {
    forall i :: 0 <= i < |blocks| ==> blocks[i].data != [] && InMemory(mem, arena, blocks[i])
  }

  predicate BufferAt(mem: Bytes, arena: set<nat>, base: nat) {
    base % BUFFER == 0 && base + BUFFER <= |mem| && base / BUFFER in arena
  }

  /** An address whose byte no later copy changes. */
  predicate Fixed(f: Frag, a: nat) {
    && (forall i :: 0 <= i < |f.pool| ==> a / BUFFER != f.pool[i] / BUFFER)
    && (f.cur >= 0 && a / BUFFER == f.cur / BUFFER ==> a < f.cur + f.used)
  }

  ghost predicate Safe(f: Frag, d: Desc) {
    forall a :: d.addr <= a < d.addr + d.size ==> Fixed(f, a)
  }

  predicate BuffersOk(f: Frag, arena: set<nat>) {
    && (forall i :: 0 <= i < |f.pool| ==> BufferAt(f.mem, arena, f.pool[i]))
    && (forall i, j :: 0 <= i < j < |f.pool| ==> f.pool[i] / BUFFER != f.pool[j] / BUFFER)
    && (f.cur >= 0 ==> BufferAt(f.mem, arena, f.cur) && f.boff <= f.used <= BUFFER)
    && (f.cur >= 0 ==> forall i :: 0 <= i < |f.pool| ==> f.pool[i] / BUFFER != f.cur / BUFFER)
  }

  /** A full buffer is on the list. */
  predicate Settled(f: Frag) {
    f.cur >= 0 && f.used == BUFFER ==> f.boff == f.used
  }

  ghost predicate Good(f: Frag, arena: set<nat>) {
    && |f.ds| <= LIMIT && BuffersOk(f, arena) && DescsOk(f.mem, f.ds)
    && forall k :: 0 <= k < |f.ds| ==> Safe(f, f.ds[k])
  }

  function Waiting(f: Frag): Bytes
    requires f.cur >= 0 ==> f.boff <= f.used && f.cur + f.used <= |f.mem|
  {
    if f.cur < 0 then [] else f.mem[f.cur + f.boff..f.cur + f.used]
  }

  /** The complete frames. */
  ghost function Done(f: Frag, arena: set<nat>): seq<Bytes>
    requires Good(f, arena)
  {
    Frames(f.mem, f.ds)
  }

  /** The bytes of the frame at hand: in descriptors already, or still waiting in the buffer. */
  ghost function Partial(f: Frag, arena: set<nat>): Bytes
    requires Good(f, arena)
  {
    Open(f.mem, f.ds) + Waiting(f)
  }

  /** chunk has been sent: it ends the frame at hand, or it is part of it. */
  ghost predicate Sent(f: Frag, f': Frag, arena: set<nat>, chunk: Bytes, eop: bool)
    requires Good(f, arena)
  {
    && Good(f', arena) && |f'.mem| == |f.mem|
    && (if eop then Done(f', arena) == Done(f, arena) + [Partial(f, arena) + chunk] && Partial(f', arena) == []
        else Done(f', arena) == Done(f, arena) && Partial(f', arena) == Partial(f, arena) + chunk)
  }

  // ---------------------------------------------------------------- the steps

  /** A descriptor is appended. */
  function Listed(f: Frag, d: Desc): Frag {
    f.(ds := f.ds + [d])
  }

  /** What waits in the buffer goes on the list. */
  function Flushed(f: Frag, eop: bool): Frag
    requires f.cur >= 0 && f.boff <= f.used
  {
    f.(ds := f.ds + [Desc(f.cur + f.boff, f.used - f.boff, eop)], boff := f.used)
  }

  /** Bytes are copied to the end of the buffer. */
  function Copied(f: Frag, chunk: Bytes): Frag
    requires f.cur >= 0 && f.cur + f.used + |chunk| <= |f.mem|
  {
    f.(mem := f.mem[..f.cur + f.used] + chunk + f.mem[f.cur + f.used + |chunk|..], used := f.used + |chunk|)
  }

  /** The next buffer is taken. */
  function NewBuffer(f: Frag): Frag
    requires f.pool != []
  {
    f.(cur := f.pool[0], pool := f.pool[1..], used := 0, boff := 0)
  }

  lemma BufferAddr(base: nat, o: nat)
    requires base % BUFFER == 0 && o < BUFFER
    ensures (base + o) / BUFFER == base / BUFFER && (base + o) / PAGE == base / PAGE
  {
    assert base == BUFFER * (base / BUFFER);
    DivModUnique(base + o, BUFFER, base / BUFFER, o);
    var q, r := base / BUFFER / 4, base / BUFFER % 4;
    assert base == PAGE * q + BUFFER * r;
    DivModUnique(base + o, PAGE, q, BUFFER * r + o);
    DivModUnique(base, PAGE, q, BUFFER * r);
  }

  lemma ListedSafe(f: Frag, arena: set<nat>, d: Desc)
    requires Good(f, arena) && |f.ds| < LIMIT && DescOk(f.mem, d) && Safe(f, d)
    ensures Good(Listed(f, d), arena)
    ensures Frames(f.mem, f.ds + [d]) == Frames(f.mem, f.ds) + (if d.eop then [Open(f.mem, f.ds) + Read(f.mem, d)] else [])
    ensures Open(f.mem, f.ds + [d]) == if d.eop then [] else Open(f.mem, f.ds) + Read(f.mem, d)
  {
    Snoc(f.mem, f.ds, d);
    var g := Listed(f, d);
    forall k | 0 <= k < |g.ds|
      ensures Safe(g, g.ds[k])
    {
      SafeSame(f, g, g.ds[k]);
    }
  }

  lemma SafeSame(f: Frag, g: Frag, d: Desc)
    requires Safe(f, d) && g.pool == f.pool && g.cur == f.cur && g.used == f.used
    ensures Safe(g, d)
  {
    forall a | d.addr <= a < d.addr + d.size
      ensures Fixed(g, a)
    {
      assert Fixed(f, a);
    }
  }

  lemma FlushedIs(f: Frag, eop: bool)
    requires f.cur >= 0 && f.boff <= f.used
    ensures var g := Listed(f, Desc(f.cur + f.boff, f.used - f.boff, eop));
      Flushed(f, eop) == g.(boff := g.used) && g.mem == f.mem && g.cur == f.cur
  {
  }

  lemma PartialIs(f: Frag, arena: set<nat>)
    requires Good(f, arena)
    ensures Partial(f, arena) == Open(f.mem, f.ds) + Waiting(f) && Done(f, arena) == Frames(f.mem, f.ds)
  {
  }

  lemma SentMeans(f: Frag, g: Frag, arena: set<nat>, chunk: Bytes, eop: bool)
    requires Good(f, arena)
    ensures Sent(f, g, arena, chunk, eop) <==>
      && Good(g, arena) && |g.mem| == |f.mem|
      && (if eop then Done(g, arena) == Done(f, arena) + [Partial(f, arena) + chunk] && Partial(g, arena) == []
          else Done(g, arena) == Done(f, arena) && Partial(g, arena) == Partial(f, arena) + chunk)
  {
  }

  lemma AllOnList(f: Frag, arena: set<nat>)
    requires Good(f, arena) && f.cur >= 0
    ensures var g := f.(boff := f.used);
      Good(g, arena) && Waiting(g) == [] && Done(g, arena) == Frames(f.mem, f.ds) && Partial(g, arena) == Open(f.mem, f.ds)
  {
    hide Frames, Open, Fixed, DescsOk;
    var g := f.(boff := f.used);
    forall k | 0 <= k < |g.ds|
      ensures Safe(g, g.ds[k])
    {
      SafeSame(f, g, g.ds[k]);
    }
    assert Waiting(g) == [];
  }

  /** sfxge_tx_qbuffer_add */
  lemma FlushMeaning(f: Frag, arena: set<nat>, eop: bool)
    requires Good(f, arena) && |f.ds| < LIMIT && f.cur >= 0 && f.boff < f.used
    ensures var g := Flushed(f, eop); Sent(f, g, arena, [], eop) && Waiting(g) == []
  {
    var d := Desc(f.cur + f.boff, f.used - f.boff, eop);
    PieceOf(f, arena, eop);
    ListedSafe(f, arena, d);
    FlushedIs(f, eop);
    PartialIs(f, arena);
    AllOnList(Listed(f, d), arena);
    hide *;
    SentMeans(f, Flushed(f, eop), arena, [], eop);
    assert Partial(f, arena) + [] == Partial(f, arena);
  }

  /** A mapped piece of a block goes on the list. */
  lemma ListMeaning(f: Frag, arena: set<nat>, d: Desc)
    requires Good(f, arena) && |f.ds| < LIMIT && DescOk(f.mem, d) && Safe(f, d) && Waiting(f) == []
    ensures var g := Listed(f, d); Sent(f, g, arena, Read(f.mem, d), d.eop) && Waiting(g) == []
  {
    ListedSafe(f, arena, d);
    assert Partial(f, arena) == Open(f.mem, f.ds);
  }

  /** A copy changes no byte that is fixed. */
  lemma CopyLeavesFixed(f: Frag, arena: set<nat>, chunk: Bytes, a: nat)
    requires BuffersOk(f, arena) && f.cur >= 0 && f.used + |chunk| <= BUFFER && a < |f.mem|
    requires Fixed(f, a) || a / BUFFER !in arena
    ensures Copied(f, chunk).mem[a] == f.mem[a]
  {
    InBuffer(f.cur, a);
  }

  lemma InBuffer(base: nat, a: nat)
    requires base % BUFFER == 0
    ensures base <= a < base + BUFFER ==> a / BUFFER == base / BUFFER
  {
    if base <= a < base + BUFFER {
      BufferAddr(base, a - base);
    }
  }

  lemma SameSlice(mem: Bytes, mem': Bytes, lo: nat, hi: nat)
    requires lo <= hi <= |mem| == |mem'| && forall a :: lo <= a < hi ==> mem'[a] == mem[a]
    ensures mem'[lo..hi] == mem[lo..hi]
  {
  }

  lemma CopyKeepsReads(f: Frag, arena: set<nat>, chunk: Bytes, d: Desc)
    requires BuffersOk(f, arena) && f.cur >= 0 && f.used + |chunk| <= BUFFER && DescOk(f.mem, d) && Safe(f, d)
    ensures var g := Copied(f, chunk); Read(g.mem, d) == Read(f.mem, d) && Safe(g, d)
  {
    var g := Copied(f, chunk);
    forall a | d.addr <= a < d.addr + d.size
      ensures g.mem[a] == f.mem[a] && Fixed(g, a)
    {
      assert Fixed(f, a);
      CopyLeavesFixed(f, arena, chunk, a);
    }
    SameSlice(f.mem, g.mem, d.addr, d.addr + d.size);
  }

  lemma CopyKeepsBlocks(f: Frag, arena: set<nat>, chunk: Bytes, blocks: seq<Block>)
    requires BuffersOk(f, arena) && f.cur >= 0 && f.used + |chunk| <= BUFFER && AllInMemory(f.mem, arena, blocks)
    ensures AllInMemory(Copied(f, chunk).mem, arena, blocks)
  {
    var g := Copied(f, chunk);
    forall i | 0 <= i < |blocks|
      ensures InMemory(g.mem, arena, blocks[i])
    {
      var b := blocks[i];
      forall o | 0 <= o < |b.data|
        ensures var a := CookieAddr(b.cookies, o); a < |g.mem| && a / BUFFER !in arena && g.mem[a] == b.data[o]
      {
        CopyLeavesFixed(f, arena, chunk, CookieAddr(b.cookies, o));
      }
    }
  }

  /** sfxge_tx_msgb_copy: the bytes copied join the frame at hand. */
  lemma CopyMeaning(f: Frag, arena: set<nat>, chunk: Bytes)
    requires Good(f, arena) && f.cur >= 0 && f.used + |chunk| <= BUFFER
    ensures Sent(f, Copied(f, chunk), arena, chunk, false)
  {
    var g := Copied(f, chunk);
    forall k | 0 <= k < |f.ds|
      ensures Read(g.mem, f.ds[k]) == Read(f.mem, f.ds[k]) && Safe(g, f.ds[k])
    {
      CopyKeepsReads(f, arena, chunk, f.ds[k]);
    }
    SameReads(f.mem, g.mem, f.ds);
    assert Waiting(g) == Waiting(f) + chunk;
    assert Partial(g, arena) == Open(f.mem, f.ds) + (Waiting(f) + chunk);
  }

  /** A piece of a buffer is within one page, and its bytes stay. */
  lemma PieceOf(f: Frag, arena: set<nat>, eop: bool)
    requires f.cur >= 0 && BufferAt(f.mem, arena, f.cur) && f.boff < f.used <= BUFFER
    requires forall i :: 0 <= i < |f.pool| ==> f.pool[i] / BUFFER != f.cur / BUFFER
    ensures var d := Desc(f.cur + f.boff, f.used - f.boff, eop);
      DescOk(f.mem, d) && Safe(f, d) && Read(f.mem, d) == Waiting(f)
  {
    var d := Desc(f.cur + f.boff, f.used - f.boff, eop);
    BufferAddr(f.cur, f.boff);
    BufferAddr(f.cur, f.used - 1);
    forall a | d.addr <= a < d.addr + d.size
      ensures Fixed(f, a)
    {
      BufferAddr(f.cur, a - f.cur);
    }
  }

  /** A new buffer is taken when nothing waits in the old one. */
  lemma NewBufferMeaning(f: Frag, arena: set<nat>)
    requires Good(f, arena) && f.pool != [] && Waiting(f) == []
    ensures Sent(f, NewBuffer(f), arena, [], false) && Waiting(NewBuffer(f)) == []
  {
    var g := NewBuffer(f);
    forall k | 0 <= k < |g.ds|
      ensures Safe(g, g.ds[k])
    {
      forall a | g.ds[k].addr <= a < g.ds[k].addr + g.ds[k].size
        ensures Fixed(g, a)
      {
        assert Fixed(f, a);
      }
    }
    assert Partial(f, arena) + [] == Open(f.mem, f.ds);
  }

  /** One chunk after another. */
  lemma SentTwice(f: Frag, g: Frag, h: Frag, arena: set<nat>, a: Bytes, b: Bytes, eop: bool)
    requires Good(f, arena) && Sent(f, g, arena, a, false) && Sent(g, h, arena, b, eop)
    ensures Sent(f, h, arena, a + b, eop)
  {
    hide Good, Done, Partial;
    assert Partial(f, arena) + a + b == Partial(f, arena) + (a + b);
  }

  lemma SentNothing(f: Frag, arena: set<nat>)
    requires Good(f, arena)
    ensures Sent(f, f, arena, [], false)
  {
    assert Partial(f, arena) + [] == Partial(f, arena);
  }

  // ---------------------------------------------------------------- a message's bytes

  function Concat(blocks: seq<Block>): Bytes {
    if blocks == [] then [] else blocks[0].data + Concat(blocks[1..])
  }

  /** How many bytes lie in front of offset off of block i. */
  function Position(blocks: seq<Block>, i: nat, off: nat): nat
    requires i <= |blocks|
  {
    |Concat(blocks[..i])| + off
  }

  lemma {:induction false} ConcatAt(blocks: seq<Block>, i: nat)
    requires i < |blocks|
    ensures |Concat(blocks[..i + 1])| == |Concat(blocks[..i])| + |blocks[i].data| <= |Concat(blocks)|
    ensures Concat(blocks)[|Concat(blocks[..i])|..|Concat(blocks[..i + 1])|] == blocks[i].data
  {
    if i == 0 {
      assert blocks[..1][1..] == [] && blocks[..0] == [];
      assert blocks[..1][0].data + [] == blocks[0].data;
    } else {
      assert blocks[..i + 1][1..] == blocks[1..][..i] && blocks[..i][1..] == blocks[1..][..i - 1];
      ConcatAt(blocks[1..], i - 1);
      var d, rest := blocks[0].data, Concat(blocks[1..]);
      var lo, hi := |Concat(blocks[1..][..i - 1])|, |Concat(blocks[1..][..i])|;
      assert (d + rest)[|d| + lo..|d| + hi] == rest[lo..hi];
    }
  }

  /** A piece of a block is a piece of the message. */
  lemma PieceOfMessage(blocks: seq<Block>, i: nat, off: nat, off': nat)
    requires i < |blocks| && off <= off' <= |blocks[i].data|
    ensures Position(blocks, i, off') <= |Concat(blocks)|
    ensures Concat(blocks)[Position(blocks, i, off)..Position(blocks, i, off')] == blocks[i].data[off..off']
    ensures Position(blocks, i, |blocks[i].data|) == Position(blocks, i + 1, 0)
  {
    ConcatAt(blocks, i);
    var all, lo := Concat(blocks), |Concat(blocks[..i])|;
    var d := all[lo..lo + |blocks[i].data|];
    assert d[off..off'] == all[lo + off..lo + off'];
  }

  lemma LastPosition(blocks: seq<Block>, i: nat, off: nat)
    requires i < |blocks| && off < |blocks[i].data| && forall j :: 0 <= j < |blocks| ==> blocks[j].data != []
    ensures Position(blocks, i, off) < |Concat(blocks)|
    ensures (i + 1 == |blocks|) <==> Position(blocks, i, |blocks[i].data|) == |Concat(blocks)|
  {
    ConcatAt(blocks, i);
    assert blocks[..|blocks|] == blocks;
    if i + 1 < |blocks| {
      ConcatAt(blocks, i + 1);
    }
  }

  // ---------------------------------------------------------------- pieces of a mapping

  /** Consecutive bytes of a block within one page have consecutive addresses. */
  lemma PieceByte(b: Block, addr: seq<nat>, moff: nat, o: nat, k: nat)
    requires |b.data| <= TxDescs.Total(b.cookies) && MapsBlock(addr, moff, b.cookies, |b.data|)
    requires forall j :: 0 <= j < |addr| ==> addr[j] % PAGE == 0
    requires k < PAGE - (moff + o) % PAGE && o + k < |b.data|
    ensures (moff + o) / PAGE < |addr|
    ensures var a := addr[(moff + o) / PAGE] + (moff + o) % PAGE;
      a + k == CookieAddr(b.cookies, o + k) && (a + k) / PAGE == addr[(moff + o) / PAGE] / PAGE
  {
    var x, y := CookieAddr(b.cookies, o), CookieAddr(b.cookies, o + k);
    var page, po := (moff + o) / PAGE, (moff + o) % PAGE;
    DivModUnique(moff + (o + k), PAGE, page, po + k);
    assert addr[(moff + (o + k)) / PAGE] + (moff + (o + k)) % PAGE == CookieAddr(b.cookies, o + k);
    DivModUnique(addr[page] + (po + k), PAGE, addr[page] / PAGE, po + k);
  }

  /** One piece of a mapped block is within a page, and the hardware reads the block's bytes there. */
  lemma MapPiece(f: Frag, arena: set<nat>, b: Block, addr: seq<nat>, moff: nat, o: nat, size: nat, eop: bool)
    requires BuffersOk(f, arena) && InMemory(f.mem, arena, b) && MapsBlock(addr, moff, b.cookies, |b.data|)
    requires forall k :: 0 <= k < |addr| ==> addr[k] % PAGE == 0
    requires 0 < size <= PAGE - (moff + o) % PAGE && o + size <= |b.data|
    ensures (moff + o) / PAGE < |addr|
    ensures var d := Desc(addr[(moff + o) / PAGE] + (moff + o) % PAGE, size, eop);
      DescOk(f.mem, d) && Safe(f, d) && Read(f.mem, d) == b.data[o..o + size]
  {
    assert PAGE > 0;
    hide *;
    PieceBytes(f.mem, arena, b, addr, moff, o, size);
    PieceDesc(f, arena, b.data, addr[(moff + o) / PAGE] + (moff + o) % PAGE, o, size, eop);
  }

  lemma PieceDesc(f: Frag, arena: set<nat>, data: Bytes, lo: nat, o: nat, size: nat, eop: bool)
    requires BuffersOk(f, arena) && 0 < size && o + size <= |data| && lo / PAGE == (lo + size - 1) / PAGE
    requires lo + size <= |f.mem|
    requires forall a :: lo <= a < lo + size ==> a < |f.mem| && a / BUFFER !in arena && f.mem[a] == data[o + (a - lo)]
    ensures var d := Desc(lo, size, eop); DescOk(f.mem, d) && Safe(f, d) && Read(f.mem, d) == data[o..o + size]
  {
    assert f.mem[lo..lo + size] == data[o..o + size];
  }

  /** One byte of a mapped block in memory. */
  lemma MappedByte(mem: Bytes, arena: set<nat>, b: Block, addr: seq<nat>, moff: nat, o: nat, k: nat)
    requires InMemory(mem, arena, b) && MapsBlock(addr, moff, b.cookies, |b.data|)
    requires forall j :: 0 <= j < |addr| ==> addr[j] % PAGE == 0
    requires k < PAGE - (moff + o) % PAGE && o + k < |b.data|
    ensures (moff + o) / PAGE < |addr|
    ensures var a := addr[(moff + o) / PAGE] + (moff + o) % PAGE + k;
      a < |mem| && a / BUFFER !in arena && mem[a] == b.data[o + k] && a / PAGE == addr[(moff + o) / PAGE] / PAGE
  {
    hide MapsBlock;
    PieceByte(b, addr, moff, o, k);
  }

  lemma PieceBytes(mem: Bytes, arena: set<nat>, b: Block, addr: seq<nat>, moff: nat, o: nat, size: nat)
    requires InMemory(mem, arena, b) && MapsBlock(addr, moff, b.cookies, |b.data|)
    requires forall k :: 0 <= k < |addr| ==> addr[k] % PAGE == 0
    requires 0 < size <= PAGE - (moff + o) % PAGE && o + size <= |b.data|
    ensures (moff + o) / PAGE < |addr|
    ensures var lo := addr[(moff + o) / PAGE] + (moff + o) % PAGE;
      && lo / PAGE == (lo + size - 1) / PAGE && lo + size <= |mem|
      && forall a :: lo <= a < lo + size ==> a < |mem| && a / BUFFER !in arena && mem[a] == b.data[o + (a - lo)]
  {
    hide MapsBlock, InMemory;
    MappedByte(mem, arena, b, addr, moff, o, 0);
    MappedByte(mem, arena, b, addr, moff, o, size - 1);
    var lo := addr[(moff + o) / PAGE] + (moff + o) % PAGE;
    forall a | lo <= a < lo + size
      ensures a < |mem| && a / BUFFER !in arena && mem[a] == b.data[o + (a - lo)]
    {
      MappedByte(mem, arena, b, addr, moff, o, a - lo);
    }
  }
}
