/** The fragmenting functions as the driver runs them, on DMA memory and the descriptor list in place
    (sfxge_tx.c:1245-1400, 1402-1564, 1780-1941).

    Whether the allocation of a mapping succeeds is free; a buffer can be had while the pool lasts, and
    the pool may be any size.  Binding a mapping succeeds. */
module TxFragmenter {
  import opened Words
  import opened TxSizes
  import opened TxDescs
  import opened TxFragment

  const LONG_MAX := 0x7FFF_FFFF_FFFF_FFFF

  class Queue {
    const mem: array<u8>
    const eb: array<Desc>             // st_eb
    ghost const arena: set<nat>
    var n: nat                        // st_n
    var pool: seq<nat>
    var cur: int                      // base address of the current buffer, or -1
    var used: nat                     // its esm_used
    var boff: nat                     // its stb_off
    var older: map<int, nat>          // the slot's other buffers, and the esm_used of each
    var mapped: int                   // index of the block that the newest mapping binds, or -1
    var maddr: seq<nat>               // its stm_addr
    var moff: nat                     // its stm_off

    ghost function Now(): Frag
      requires n <= eb.Length
      reads this, mem, eb
    {
      Frag(mem[..], eb[..n], pool, cur, used, boff)
    }

    ghost predicate Valid()
      reads this, mem, eb
    {
      n <= LIMIT == eb.Length && Good(Now(), arena) && Settled(Now())
    }

    /** A queue without a packet at hand. */
    constructor (mem: array<u8>, ghost arena: set<nat>, pool: seq<nat>)
      requires BuffersOk(Frag(mem[..], [], pool, -1, 0, 0), arena)
      ensures AtStart() && this.mem == mem && this.arena == arena && this.pool == pool && fresh(eb)
    {
      this.mem, this.arena, this.pool := mem, arena, pool;
      eb := new Desc[LIMIT](_ => Desc(0, 0, false));
      n, cur, used, boff, older, mapped, maddr, moff := 0, -1, 0, 0, map[], -1, [], 0;
    }

    /** Nothing waits in the current buffer. */
    predicate Idle()
      reads this
    {
      cur < 0 || boff == used
    }

    /** A buffer of the slot that takes headers: the newest one, or a full one. */
    predicate TakesHeaders(b: nat)
      reads this`cur, this`older
    {
      b == cur || (b in older && older[b] == BUFFER)
    }

    /** esm_used of a buffer that takes headers. */
    function UsedOf(b: nat): nat
      requires TakesHeaders(b)
      reads this`cur, this`older, this`used
    {
      if b == cur then used else older[b]
    }

    /** The newest mapping, if any, belongs to one of the blocks. */
    ghost predicate MappingOk(blocks: seq<Block>)
      reads this, mem
    {
      && AllInMemory(mem[..], arena, blocks)
      && (mapped >= 0 ==> mapped < |blocks| && MappingOf(blocks[mapped]))
    }

    ghost predicate MappingOf(b: Block)
      reads this
    {
      && |b.data| <= TxDescs.Total(b.cookies) && MapsBlock(maddr, moff, b.cookies, |b.data|)
      && forall k :: 0 <= k < |maddr| ==> maddr[k] % PAGE == 0
    }

    /** A descriptor at the end of the list, if there is room. */
    method AddDesc(addr: nat, size: nat, eop: bool) returns (rc: Rc)
      requires n <= LIMIT == eb.Length
      modifies this`n, eb
      ensures n <= LIMIT && (rc == Ok <==> old(n) < LIMIT) && (rc == Ok || rc == ENOSPC)
      ensures rc == Ok ==> Now() == Listed(old(Now()), Desc(addr, size, eop))
      ensures n == old(n) + if rc == Ok then 1 else 0
      ensures rc != Ok ==> Now() == old(Now())
    {
      if n == LIMIT {
        return ENOSPC;
      }
      eb[n] := Desc(addr, size, eop);
      n := n + 1;
      assert eb[..n] == old(eb[..n]) + [Desc(addr, size, eop)];
      return Ok;
    }

    /** sfxge_tx_qbuffer_add */
    method BufferAdd(eop: bool) returns (rc: Rc)
      requires n <= LIMIT == eb.Length && cur >= 0 && boff <= used
      modifies this`n, this`boff, eb
      ensures n <= LIMIT && (rc == Ok <==> old(n) < LIMIT) && (rc == Ok || rc == ENOSPC)
      ensures rc == Ok ==> Now() == Flushed(old(Now()), eop)
      ensures n == old(n) + if rc == Ok then 1 else 0
      ensures rc != Ok ==> Now() == old(Now())
    {
      rc := AddDesc(cur + boff, used - boff, eop);
      if rc == Ok {
        boff := used;
      }
    }

    /** One piece of a mapping, within one page. */
    method MapPage(b: Block, off: nat, size: nat, eop: bool) returns (rc: Rc)
      requires Valid() && Idle() && InMemory(mem[..], arena, b) && MappingOf(b)
      requires 0 < size <= PAGE - (moff + off) % PAGE && off + size <= |b.data|
      modifies this`n, eb
      ensures Valid() && (rc == Ok || rc == ENOSPC)
      ensures (rc == Ok <==> old(n) < LIMIT) && n == old(n) + if rc == Ok then 1 else 0
      ensures rc == Ok ==> Idle() && Sent(old(Now()), Now(), arena, b.data[off..off + size], eop)
      ensures rc != Ok ==> Now() == old(Now())
    {
      hide InMemory, MapsBlock, Good, Waiting, Sent, CookieAddr, DescOk, Safe, Read;
      ghost var f := Now();
      GoodParts(f, arena);
      IdleIsEmpty(f, arena);
      MapPiece(f, arena, b, maddr, moff, off, size, eop);
      var page, po := (moff + off) / PAGE, (moff + off) % PAGE;
      rc := AddDesc(maddr[page] + po, size, eop);
      if rc == Ok {
        ListMeaning(f, arena, Desc(maddr[page] + po, size, eop));
        SentIsGood(f, Now(), arena, b.data[off..off + size], eop);
      }
    }

    /** sfxge_tx_qmapping_add, for block b from offset off; hasNext says whether b_cont is set. */
    method MappingAdd(b: Block, off: nat, limit: nat, hasNext: bool) returns (rc: Rc, off': nat, limit': nat)
      requires Valid() && Idle() && InMemory(mem[..], arena, b) && MappingOf(b)
      requires off < |b.data| && limit > 0
      modifies this`n, eb
      ensures Valid() && (rc == Ok || rc == ENOSPC)
      ensures off <= off' == off + limit - limit' <= |b.data|
      ensures var pages := Pages(moff + off, moff + Min(|b.data|, off + limit));
        (rc == Ok <==> old(n) + pages <= LIMIT) && n == if rc == Ok then old(n) + pages else LIMIT
      ensures rc == Ok ==> off' == Min(|b.data|, off + limit) && Idle()
      ensures rc == Ok ==>
        Sent(old(Now()), Now(), arena, b.data[off..off'], limit' == 0 || (off' == |b.data| && !hasNext))
    {
      hide InMemory, MapsBlock, Good, Sent, CookieAddr, Pages;
      off', limit' := off, limit;
      ghost var f := Now();
      SentNothing(f, arena);
      NoPages(moff + off);
      assert b.data[off..off] == [];
      while off' < |b.data| && limit' != 0
        invariant Valid() && Idle() && off <= off' == off + limit - limit' <= |b.data|
        invariant n == old(n) + Pages(moff + off, moff + off')
        invariant off' == off || off' == |b.data| || limit' == 0 || (moff + off') % PAGE == 0
        invariant Sent(f, Now(), arena, b.data[off..off'], limit' == 0 || (off' == |b.data| && !hasNext))
        decreases limit'
      {
        var size := Min(Min(PAGE - (moff + off') % PAGE, |b.data| - off'), limit');
        ghost var g := Now();
        var eop := limit' - size == 0 || (off' + size == |b.data| && !hasNext);
        OnePageMore(moff + off, moff + off', size, moff + Min(|b.data|, off + limit));
        rc := MapPage(b, off', size, eop);
        if rc != Ok {
          return;
        }
        Onwards(f, g, Now(), arena, b.data, off, off', off' + size, eop);
        off', limit' := off' + size, limit' - size;
      }
      return Ok, off', limit';
    }

    /** sfxge_tx_qfbp_get or a new buffer, put in front of the slot's list. */
    method NextBuffer() returns (rc: Rc)
      requires Valid() && Idle()
      modifies this`pool, this`cur, this`used, this`boff, this`older
      ensures rc == if old(pool) == [] then ENOMEM else Ok
      ensures pool == if rc == Ok then old(pool[1..]) else []
      ensures rc == Ok ==> Valid() && Idle() && cur == old(pool[0]) && used == 0 && Sent(old(Now()), Now(), arena, [], false)
      ensures rc == Ok && (old(cur) < 0 || old(used) == BUFFER) ==> forall b: nat :: old(TakesHeaders(b)) ==> TakesHeaders(b)
    {
      if pool == [] {
        return ENOMEM;
      }
      ghost var f := Now();
      IdleIsEmpty(f, arena);
      NewBufferMeaning(f, arena);
      if cur >= 0 {
        older := older[cur := used];
      }
      cur, pool, used, boff := pool[0], pool[1..], 0, 0;
      return Ok;
    }

    /** sfxge_tx_msgb_copy */
    method MsgbCopy(data: Bytes, off: nat, limit: nat, hasNext: bool) returns (eop: bool, off': nat, limit': nat)
      requires cur >= 0 && used <= BUFFER && cur + BUFFER <= mem.Length && off <= |data| && n <= eb.Length
      modifies this`used, mem
      ensures off <= off' == off + limit - limit' && off' == off + Min(Min(BUFFER - old(used), |data| - off), limit)
      ensures used == old(used) + (off' - off) <= BUFFER && off' <= |data| && Now() == Copied(old(Now()), data[off..off'])
      ensures eop <==> limit' == 0 || (off' == |data| && !hasNext)
    {
      hide Copied;
      ghost var was := Now();
      var size := Min(Min(BUFFER - used, |data| - off), limit);
      forall k | 0 <= k < size {
        mem[cur + used + k] := data[off + k];
      }
      CopiedEach(was, mem[..], data, off, size);
      used := used + size;
      off', limit' := off + size, limit - size;
      eop := limit' == 0 || (off' == |data| && !hasNext);
    }

    /** The copy branch of the fragment loops, for a block from offset off. */
    method CopyBlock(b: Block, off: nat, limit: nat, hasNext: bool, ghost blocks: seq<Block>)
      returns (rc: Rc, off': nat, limit': nat)
      requires Valid() && MappingOk(blocks) && off < |b.data| && limit > 0
      modifies this`n, this`pool, this`cur, this`used, this`boff, this`older, eb, mem
      ensures var take := old(cur < 0 || used == BUFFER); var at := if take then 0 else old(used);
        var size := Min(Min(BUFFER - at, |b.data| - off), limit);
        var list := at + size == BUFFER || size == limit || (off + size == |b.data| && !hasNext);
        && (rc == ENOMEM <==> take && old(pool) == []) && (rc == ENOMEM ==> pool == [])
        && (rc == ENOSPC <==> rc != ENOMEM && list && old(n) == LIMIT) && (rc == ENOSPC ==> n == LIMIT)
        && (rc == Ok || rc == ENOMEM || rc == ENOSPC)
        && (rc == Ok ==>
              && off' == off + size && n == old(n) + (if list then 1 else 0) && cur >= 0 && used == at + size
              && pool == if take then old(pool[1..]) else old(pool))
      ensures off <= off' == off + limit - limit' <= |b.data|
      ensures rc == Ok ==> Valid() && MappingOk(blocks) && off < off'
      ensures rc == Ok ==> forall b: nat :: old(TakesHeaders(b)) ==> TakesHeaders(b)
      ensures rc == Ok ==>
        Sent(old(Now()), Now(), arena, b.data[off..off'], limit' == 0 || (off' == |b.data| && !hasNext))
    {
      hide Good, Sent, InMemory, MapsBlock, Fixed, Safe, BufferAt;
      off', limit' := off, limit;
      ghost var f := Now();
      GoodParts(f, arena);
      SentNothing(f, arena);
      if cur < 0 || used == BUFFER {
        rc := NextBuffer();
        if rc != Ok {
          return;
        }
      }
      rc, off', limit' := CopyInto(b.data, off, limit, hasNext, blocks, f);
    }

    /** The same once there is room in the current buffer. */
    method CopyInto(data: Bytes, off: nat, limit: nat, hasNext: bool, ghost blocks: seq<Block>, ghost f: Frag)
      returns (rc: Rc, off': nat, limit': nat)
      requires Valid() && MappingOk(blocks) && off < |data| && limit > 0 && cur >= 0 && used < BUFFER
      requires Good(f, arena) && Sent(f, Now(), arena, [], false)
      modifies this`n, this`used, this`boff, eb, mem
      ensures var size := Min(Min(BUFFER - old(used), |data| - off), limit);
        var list := old(used) + size == BUFFER || size == limit || (off + size == |data| && !hasNext);
        && (rc == ENOSPC <==> list && old(n) == LIMIT) && (rc == Ok || rc == ENOSPC)
        && off' == off + size && used == old(used) + size && n == old(n) + if list && rc == Ok then 1 else 0
      ensures off <= off' == off + limit - limit' <= |data|
      ensures rc == Ok ==> Valid() && MappingOk(blocks) && off < off'
      ensures rc == Ok ==> Sent(f, Now(), arena, data[off..off'], limit' == 0 || (off' == |data| && !hasNext))
    {
      hide Good, Sent, InMemory, MapsBlock, Fixed, Safe, Copied, AllInMemory;
      ghost var g := Now();
      GoodParts(g, arena);
      var eop;
      eop, off', limit' := MsgbCopy(data, off, limit, hasNext);
      ghost var chunk := data[off..off'];
      CopyMeaning(g, arena, chunk);
      CopyKeepsBlocks(g, arena, chunk, blocks);
      SentIsGood(g, Now(), arena, chunk, false);
      ghost var h := Now();
      rc := Ok;
      if used == BUFFER || eop {
        rc := BufferAdd(eop);
        if rc == Ok {
          FlushMeaning(h, arena, eop);
          SentIsGood(h, Now(), arena, [], eop);
          SentTwice(g, h, Now(), arena, chunk, [], eop);
          assert chunk + [] == chunk;
        }
      }
      if rc == Ok {
        SentTwice(f, g, Now(), arena, [], chunk, eop);
        assert [] + chunk == chunk;
      }
    }

    /** sfxge_tx_qfmp_get or a new mapping, put in front of the slot's list and bound to block i. */
    method TakeMapping(blocks: seq<Block>, i: nat)
      requires i < |blocks| && AllInMemory(mem[..], arena, blocks)
      modifies this`mapped, this`maddr, this`moff
      ensures MappingOk(blocks) && mapped == i && MappingOf(blocks[i]) && moff < PAGE
    {
      maddr, moff := Bind(blocks[i].cookies, |blocks[i].data|);
      mapped := i;
    }

    /** The mapping branch of the fragment loops: what waits in the buffer goes first. */
    method MapBlock(blocks: seq<Block>, i: nat, off: nat, limit: nat, hasNext: bool) returns (rc: Rc, off': nat, limit': nat)
      requires Valid() && MappingOk(blocks) && i < |blocks| && mapped == i && off < |blocks[i].data| && limit > 0
      modifies this`n, this`boff, eb
      ensures var descs := Pages(moff + off, moff + Min(|blocks[i].data|, off + limit)) + old(if cur >= 0 && used > boff then 1 else 0);
        && (rc == Ok <==> old(n) + descs <= LIMIT) && (rc == Ok || rc == ENOSPC)
        && n == if rc == Ok then old(n) + descs else LIMIT
      ensures off <= off' == off + limit - limit' <= |blocks[i].data|
      ensures rc == Ok ==> Valid() && off' == Min(|blocks[i].data|, off + limit)
      ensures rc == Ok ==>
        Sent(old(Now()), Now(), arena, blocks[i].data[off..off'], limit' == 0 || (off' == |blocks[i].data| && !hasNext))
    {
      hide Good, Sent, InMemory, MapsBlock, Fixed, Safe, Pages;
      off', limit' := off, limit;
      ghost var f := Now();
      GoodParts(f, arena);
      SentNothing(f, arena);
      SomePages(moff + off, moff + Min(|blocks[i].data|, off + limit));
      if cur >= 0 && used > boff {
        rc := BufferAdd(false);
        if rc != Ok {
          return;
        }
        FlushMeaning(f, arena, false);
        SentIsGood(f, Now(), arena, [], false);
      }
      ghost var g := Now();
      rc, off', limit' := MappingAdd(blocks[i], off, limit, hasNext);
      if rc == Ok {
        ghost var chunk := blocks[i].data[off..off'];
        SentTwice(f, g, Now(), arena, [], chunk, limit' == 0 || (off' == |blocks[i].data| && !hasNext));
        assert [] + chunk == chunk;
      }
    }

    /** The state in which sfxge_tx_qpacket_fragment is called. */
    ghost predicate AtStart()
      reads this, mem, eb
    {
      Valid() && n == 0 && cur < 0 && mapped < 0
    }

    lemma ValidIs()
      ensures Valid() ==> n <= LIMIT == eb.Length && Good(Now(), arena)
    {
    }

    lemma IdleIs()
      ensures Idle() <==> cur < 0 || boff == used
      ensures n <= eb.Length ==> Now().cur == cur && Now().boff == boff && Now().used == used
    {
    }

    lemma BlocksNonEmpty(blocks: seq<Block>)
      requires MappingOk(blocks)
      ensures forall i :: 0 <= i < |blocks| ==> blocks[i].data != []
    {
    }

    lemma StartIsEmpty()
      requires AtStart()
      ensures Valid() && Idle() && cur < 0 && Done(Now(), arena) == [] && Partial(Now(), arena) == []
    {
    }

    /** One round of the packet loop: the block is copied, or mapped from its start. */
    method SendPiece(blocks: seq<Block>, i: nat, off: nat, limit: nat, copy: bool, ghost room: nat, ghost copied: nat)
      returns (rc: Rc, off': nat, limit': nat, ghost copied': nat)
      requires Valid() && MappingOk(blocks) && i < |blocks| && off < |blocks[i].data|
      requires Position(blocks, i, off) + |blocks[i].data| - off <= |Concat(blocks)| < Position(blocks, i, off) + limit
      requires |pool| <= room && (cur < 0 <==> |pool| == room)
      requires Tally(Position(blocks, i, off), MapCost(blocks[..i]), room - |pool|, used, n, copied, copy)
      modifies this, eb, mem
      ensures rc == Ok || (rc == ENOSPC && n == LIMIT) || (rc == ENOMEM && pool == [])
      ensures var pieces := Pieces(|Concat(blocks)|);
        && (rc == ENOMEM ==> room < pieces && (copy ==> room <= LIMIT))
        && (rc == ENOSPC ==> pieces + MapCost(blocks) > LIMIT && (copy ==> pieces > LIMIT && room > LIMIT))
      ensures off <= off' == off + limit - limit' <= |blocks[i].data|
      ensures rc == Ok ==> Valid() && MappingOk(blocks) && off < off'
      ensures rc == Ok ==>
        Sent(old(Now()), Now(), arena, blocks[i].data[off..off'], off' == |blocks[i].data| && i + 1 == |blocks|)
      ensures rc == Ok ==> |pool| <= room && (cur < 0 <==> |pool| == room)
      ensures mapped == old(mapped) || (!copy && mapped == i && |blocks[i].data| >= 512)
      ensures rc == Ok && (off' < |blocks[i].data| || i + 1 < |blocks|) ==>
        Tally(Position(blocks, i, off'), MapCost(blocks[..if off' == |blocks[i].data| then i + 1 else i]), room - |pool|, used, n,
              copied', copy)
      ensures rc == Ok && off' == |blocks[i].data| && i + 1 == |blocks| && copy ==> room - |pool| == n == Pieces(|Concat(blocks)|)
    {
      hide Good, Sent, InMemory, MapsBlock, Fixed, Safe, BuffersOk, Concat, Tally, MapCost, Pages, Pieces, DescsOk, Settled;
      var useMap: bool := *;
      var hasNext := i + 1 < |blocks|;
      var d := |blocks[i].data|;
      ghost var p, total := Position(blocks, i, off), |Concat(blocks)|;
      MapCosts(blocks, i);
      LastPosition(blocks, i, off);
      if copy || off != 0 || d < THRESHOLD || !useMap {
        CopyTally(p, MapCost(blocks[..i]), room - |pool|, used, n, copied, copy, d - off, total, room, MapCost(blocks));
        rc, off', limit' := CopyBlock(blocks[i], off, limit, hasNext, blocks);
        copied' := copied + (off' - off);
        if rc == Ok && off' == d && hasNext {
          MoreCost(p + d - off, MapCost(blocks[..i]), MapCost(blocks[..i + 1]), room - |pool|, used, n, copied', copy);
        }
      } else {
        TakeMapping(blocks, i);
        MapTally(p, MapCost(blocks[..i]), room - |pool|, used, n, copied, moff, d, total, MapCost(blocks), cur >= 0 && used > boff);
        rc, off', limit' := MapBlock(blocks, i, off, limit, hasNext);
        copied' := copied;
      }
    }

    /** sfxge_tx_qpacket_fragment; on success the descriptors are the message, as one frame.  keep says
        whether the message waits for completion.  It fails only when the list is full or no buffer is to be had;
        a message that is copied does so exactly when its 1K pieces are more than either has room for, and one
        that is mapped has room if that goes for its pieces and three descriptors more, and one a page, for each
        block. */
    method PacketFragment(blocks: seq<Block>, copy: bool) returns (rc: Rc, keep: bool)
      requires AtStart() && blocks != [] && MappingOk(blocks) && |Concat(blocks)| < LONG_MAX
      modifies this, eb, mem
      ensures rc == Ok || (rc == ENOSPC && n == LIMIT) || (rc == ENOMEM && pool == [])
      ensures var pieces := (|Concat(blocks)| + 1023) / 1024; var room := |old(pool)|;
        copy ==> (rc == Ok <==> pieces <= room && pieces <= 1008) && (rc == ENOMEM <==> room < pieces && room <= 1008)
      ensures var pieces := (|Concat(blocks)| + 1023) / 1024;
        pieces <= |old(pool)| && pieces + MapCost(blocks) <= 1008 ==> rc == Ok
      ensures rc == Ok ==> Valid() && Done(Now(), arena) == [Concat(blocks)] && Partial(Now(), arena) == []
      ensures rc == Ok ==> n <= LIMIT && forall k :: 0 <= k < n ==> InOnePage(eb[k]) && (eb[k].eop <==> k == n - 1)
      ensures rc == Ok ==> (keep <==> mapped >= 0) && (keep ==> !copy && mapped < |blocks| && |blocks[mapped].data| >= 512)
    {
      hide Good, Sent, InMemory, MapsBlock, Fixed, Safe, BuffersOk, Concat, Tally, MapCost, Position, Settled,
           DescsOk, Frames, Open, InOnePage, AllInMemory, Done, Partial, Waiting;
      var i, off, size := 0, 0, LONG_MAX;
      ghost var f, all, room, copied := Now(), Concat(blocks), |pool|, 0;
      SentNothing(f, arena);
      BlocksNonEmpty(blocks);
      StartsAtZero(blocks);
      StartTally(blocks, copy);
      EndsAtTotal(blocks);
      rc := Ok;
      while i < |blocks|
        invariant Valid() && MappingOk(blocks) && i <= |blocks| && (if i < |blocks| then off < |blocks[i].data| else off == 0)
        invariant Position(blocks, i, off) <= |all| && size == LONG_MAX - Position(blocks, i, off)
        invariant Sent(f, Now(), arena, all[..Position(blocks, i, off)], i == |blocks|)
        invariant mapped >= 0 ==> !copy && mapped < |blocks| && |blocks[mapped].data| >= 512
        invariant rc == Ok && |pool| <= room && 0 <= copied && (cur < 0 <==> |pool| == room)
        invariant i < |blocks| ==>
          Tally(Position(blocks, i, off), MapCost(blocks[..i]), room - |pool|, used, n, copied, copy)
        invariant i == |blocks| && copy ==> room - |pool| == n == Pieces(|all|)
        decreases size
      {
        ghost var g, was := Now(), off;
        LastPosition(blocks, i, off);
        PieceOfMessage(blocks, i, off, |blocks[i].data|);
        PositionGrows(blocks, i, off, |blocks[i].data|);
        rc, off, size, copied := SendPiece(blocks, i, off, size, copy, room, copied);
        if rc != Ok {
          return rc, false;
        }
        PieceOfMessage(blocks, i, was, off);
        LastPosition(blocks, i, was);
        PositionGrows(blocks, i, was, off);
        Onwards(f, g, Now(), arena, all, 0, Position(blocks, i, was), Position(blocks, i, off),
                off == |blocks[i].data| && i + 1 == |blocks|);
        if off == |blocks[i].data| {
          i, off := i + 1, 0;
        }
      }
      keep := mapped >= 0;
      EndsAtTotal(blocks);
      WholeMessage(f, Now(), arena, all);
      OneFrame(Now(), arena);
    }

    /** Headers for the next frame, put on the list.  stbp is the buffer that took the last headers, or -1;
        a new one is taken if there is none, or if the headers do not fit. */
    method PutHeader(h: Bytes, stbp: int, ghost blocks: seq<Block>) returns (rc: Rc, stbp': int)
      requires Valid() && Idle() && MappingOk(blocks) && 0 < |h| <= BUFFER
      requires if stbp < 0 then cur < 0 else TakesHeaders(stbp)
      modifies this`n, this`pool, this`cur, this`used, this`boff, this`older, eb, mem
      ensures var new' := stbp < 0 || old(UsedOf(stbp)) + |h| > BUFFER;
        && (rc == ENOMEM <==> new' && old(pool) == [])
        && (rc != ENOMEM ==> stbp' == (if new' then old(pool[0]) else stbp) && (rc == Ok <==> old(n) < LIMIT))
        && (rc != ENOMEM ==> pool == if new' then old(pool[1..]) else old(pool))
      ensures rc == Ok ==> n == old(n) + 1
      ensures rc == Ok || (rc == ENOSPC && n == LIMIT) || (rc == ENOMEM && pool == [])
      ensures rc == Ok ==> Valid() && Idle() && MappingOk(blocks) && Sent(old(Now()), Now(), arena, h, false)
      ensures rc == Ok ==> stbp' >= 0 && TakesHeaders(stbp')
    {
      hide Good, Sent, InMemory, MapsBlock, Fixed, Safe, Copied, AllInMemory;
      ghost var f := Now();
      stbp' := stbp;
      GoodParts(f, arena);
      SentNothing(f, arena);
      if stbp < 0 || UsedOf(stbp) + |h| > BUFFER {
        rc := NextBuffer();
        if rc != Ok {
          return;
        }
        stbp' := cur;
      }
      ghost var g := Now();
      GoodParts(g, arena);
      CopyMeaning(g, arena, h);
      CopyKeepsBlocks(g, arena, h, blocks);
      CopyHeader(h);
      SentIsGood(g, Now(), arena, h, false);
      ghost var k := Now();
      rc := BufferAdd(false);
      if rc == Ok {
        FlushMeaning(k, arena, false);
        SentIsGood(k, Now(), arena, [], false);
        SentTwice(g, k, Now(), arena, h, [], false);
        SentTwice(f, g, Now(), arena, [], h + [], false);
        assert [] + (h + []) == h;
      }
    }

    /** The bcopy of the headers. */
    method CopyHeader(h: Bytes)
      requires cur >= 0 && used + |h| <= BUFFER && cur + BUFFER <= mem.Length && n <= eb.Length
      modifies this`used, mem
      ensures used == old(used) + |h| && Now() == Copied(old(Now()), h)
    {
      forall k | 0 <= k < |h| {
        mem[cur + used + k] := h[k];
      }
      used := used + |h|;
    }

    /** sfxge_tx_qpayload_fragment: size more bytes of the message, from offset off of block i, end the
        frame at hand. */
    method PayloadFragment(blocks: seq<Block>, i: nat, off: nat, size: nat, copy: bool) returns (rc: Rc, i': nat, off': nat)
      requires Valid() && MappingOk(blocks) && i < |blocks| && off < |blocks[i].data|
      requires 0 < size && Position(blocks, i, off) + size <= |Concat(blocks)|
      modifies this, eb, mem
      ensures rc == Ok || (rc == ENOSPC && n == LIMIT) || (rc == ENOMEM && pool == [])
      ensures copy && Pieces(size) <= |old(pool)| && old(n) + Pieces(size) + 1 <= LIMIT ==> rc == Ok
      ensures copy && rc == Ok ==> |old(pool)| <= |pool| + Pieces(size) && n <= old(n) + Pieces(size) + 1
      ensures i' <= |blocks|
      ensures rc == Ok ==> Valid() && MappingOk(blocks) && (if i' < |blocks| then off' < |blocks[i'].data| else off' == 0)
      ensures rc == Ok ==> Position(blocks, i', off') == Position(blocks, i, off) + size
      ensures rc == Ok ==> forall b: nat :: old(TakesHeaders(b)) ==> TakesHeaders(b)
      ensures rc == Ok ==>
        Sent(old(Now()), Now(), arena, Concat(blocks)[Position(blocks, i, off)..Position(blocks, i, off) + size], true)
    {
      hide Good, Sent, InMemory, MapsBlock, Fixed, Safe, BuffersOk, Concat, Pieces, Poured;
      ghost var empty := cur < 0 || used == BUFFER;
      ghost var at0, taken := if empty then 0 else used, 0;
      GoodParts(Now(), arena);
      NothingPoured(empty, at0, used);
      var left: nat := size;
      i', off', rc := i, off, Ok;
      ghost var f, all, p0 := Now(), Concat(blocks), Position(blocks, i, off);
      SentNothing(f, arena);
      assert all[p0..p0] == [];
      while left != 0
        invariant Valid() && MappingOk(blocks) && i' <= |blocks|
        invariant rc == Ok && if i' < |blocks| then off' < |blocks[i'].data| else off' == 0
        invariant left <= size && Position(blocks, i', off') == p0 + size - left && p0 + size <= |all|
        invariant forall b: nat :: old(TakesHeaders(b)) ==> TakesHeaders(b)
        invariant copy ==> |pool| + taken == |old(pool)| && 0 <= taken
        invariant copy && left > 0 ==> Poured(size - left, taken, empty, at0, cur < 0 || used == BUFFER, used, n - old(n))
        invariant copy && left == 0 ==> taken <= Pieces(size) && n <= old(n) + Pieces(size) + 1
        invariant Sent(f, Now(), arena, all[p0..p0 + size - left], left == 0)
        decreases left
      {
        ghost var g, was, at := Now(), off', i';
        EndsAtTotal(blocks);
        LastPosition(blocks, i', off');
        if copy {
          PourMore(size - left, taken, empty, at0, cur < 0 || used == BUFFER, used, n - old(n), |blocks[i'].data| - off', left);
          taken := taken + if cur < 0 || used == BUFFER then 1 else 0;
        }
        rc, off', left := SendBlock(blocks, i', off', left, copy);
        if rc != Ok {
          return;
        }
        PieceOfMessage(blocks, at, was, off');
        LastPosition(blocks, at, was);
        PositionGrows(blocks, at, was, off');
        Onwards(f, g, Now(), arena, all, p0, Position(blocks, at, was), Position(blocks, at, off'), left == 0);
        if off' == |blocks[i'].data| {
          i', off' := i' + 1, 0;
        }
      }
    }

    /** One round of the payload loop: the block is copied, or mapped if it is not mapped already. */
    method SendBlock(blocks: seq<Block>, i: nat, off: nat, limit: nat, copy: bool) returns (rc: Rc, off': nat, limit': nat)
      requires Valid() && MappingOk(blocks) && i < |blocks| && off < |blocks[i].data| && limit > 0
      modifies this, eb, mem
      ensures rc == Ok || (rc == ENOSPC && n == LIMIT) || (rc == ENOMEM && pool == [])
      ensures var take := old(cur < 0 || used == BUFFER); var at := if take then 0 else old(used);
        var size := Min(Min(BUFFER - at, |blocks[i].data| - off), limit);
        var list := at + size == BUFFER || size == limit || (off + size == |blocks[i].data| && i + 1 == |blocks|);
        copy ==>
          && (rc == ENOMEM <==> take && old(pool) == []) && (rc == ENOSPC <==> rc != ENOMEM && list && old(n) == LIMIT)
          && (rc == Ok ==>
                && off' == off + size && n == old(n) + (if list then 1 else 0) && cur >= 0 && used == at + size
                && pool == if take then old(pool[1..]) else old(pool))
      ensures off <= off' == off + limit - limit' <= |blocks[i].data|
      ensures rc == Ok ==> Valid() && MappingOk(blocks) && off < off'
      ensures rc == Ok ==> forall b: nat :: old(TakesHeaders(b)) ==> TakesHeaders(b)
      ensures rc == Ok ==>
        Sent(old(Now()), Now(), arena, blocks[i].data[off..off'], limit' == 0 || (off' == |blocks[i].data| && i + 1 == |blocks|))
    {
      hide Good, Sent, InMemory, MapsBlock, Fixed, Safe, BuffersOk;
      var hasNext := i + 1 < |blocks|;
      var useMap: bool := *;
      if copy || (mapped != i && (off != 0 || |blocks[i].data| < THRESHOLD || !useMap)) {
        rc, off', limit' := CopyBlock(blocks[i], off, limit, hasNext, blocks);
      } else {
        if mapped != i {
          TakeMapping(blocks, i);
        }
        rc, off', limit' := MapBlock(blocks, i, off, limit, hasNext);
      }
    }
  }

  /** How many buffers so many bytes fill. */
  function Pieces(size: nat): nat {
    (size + BUFFER - 1) / BUFFER
  }

  /** Most descriptors that mapping the blocks takes: what waits in a buffer, and the pages. */
  function MapCost(blocks: seq<Block>): nat {
    if blocks == [] then 0
    else
      var n := |blocks| - 1;
      MapCost(blocks[..n]) + |blocks[n].data| / PAGE + 3
  }

  /** The buffers taken hold the bytes copied of the first p, each but the last of them full; and there are no more
      descriptors than full buffers and cost. */
  predicate Tally(p: nat, cost: nat, taken: nat, used: nat, n: nat, copied: nat, copy: bool) {
    && copied == (if taken == 0 then 0 else BUFFER * (taken - 1) + used) && (taken > 0 ==> 0 < used <= BUFFER)
    && copied <= p && n <= copied / BUFFER + cost && (copy ==> copied == p && n == copied / BUFFER)
  }

  lemma StartTally(blocks: seq<Block>, copy: bool)
    ensures MapCost(blocks[..0]) == 0 && forall used :: Tally(0, 0, 0, used, 0, 0, copy)
  {
  }

  lemma MoreCost(p: nat, cost: nat, cost': nat, taken: nat, used: nat, n: nat, copied: nat, copy: bool)
    ensures Tally(p, cost, taken, used, n, copied, copy) && cost <= cost' ==> Tally(p, cost', taken, used, n, copied, copy)
  {
  }

  lemma {:induction false} MapCosts(blocks: seq<Block>, i: nat)
    requires i < |blocks|
    ensures MapCost(blocks[..i + 1]) == MapCost(blocks[..i]) + |blocks[i].data| / PAGE + 3 <= MapCost(blocks)
    decreases |blocks|
  {
    var n := |blocks| - 1;
    assert blocks[..i + 1][..i] == blocks[..i];
    if i < n {
      MapCosts(blocks[..n], i);
      assert blocks[..n][..i + 1] == blocks[..i + 1] && blocks[..n][..i] == blocks[..i];
    } else {
      assert blocks[..i + 1] == blocks;
    }
  }

  lemma Quotient(q: nat, r: nat)
    requires r < BUFFER
    ensures (BUFFER * q + r) / BUFFER == q
  {
    DivModUnique(BUFFER * q + r, BUFFER, q, r);
  }

  lemma PiecesOf(q: nat, r: nat)
    requires 0 < r <= BUFFER
    ensures Pieces(BUFFER * q + r) == q + 1
  {
    Quotient(q + 1, r - 1);
  }

  lemma MorePieces(x: nat, y: nat)
    requires x < y
    ensures x / BUFFER < Pieces(y) && (x % BUFFER == 0 ==> Pieces(x) < Pieces(y)) && Pieces(x) <= Pieces(y)
  {
  }

  /** What a copy makes of the tally, of left bytes of a block that ends within total. */
  lemma CopyTally(p: nat, cost: nat, taken: nat, used: nat, n: nat, copied: nat, copy: bool, left: nat, total: nat, room: nat,
                  allCost: nat)
    requires Tally(p, cost, taken, used, n, copied, copy) && 0 < left && p + left <= total && cost <= allCost && taken <= room
    ensures var take := taken == 0 || used == BUFFER; var at := if take then 0 else used; var size := Min(BUFFER - at, left);
      var list := at + size == BUFFER || p + size == total; var taken' := if take then taken + 1 else taken;
      && 0 < size && (taken' > room ==> room < Pieces(total) && (copy ==> n == room))
      && (taken' <= room && n == LIMIT ==> Pieces(total) + allCost > LIMIT && (copy ==> Pieces(total) > LIMIT && room > LIMIT))
      && (p + size < total ==> Tally(p + size, cost, taken', at + size, n + (if list then 1 else 0), copied + size, copy))
      && (p + size == total && copy ==> taken' == n + 1 == Pieces(total))
  {
    var take := taken == 0 || used == BUFFER;
    var at := if take then 0 else used;
    var size := Min(BUFFER - at, left);
    var full := if take then taken else taken - 1;
    assert copied == BUFFER * full + at;
    Quotient(full, at);
    PiecesOf(full, at + size);
    MorePieces(copied, total);
    if at + size == BUFFER {
      Quotient(full + 1, 0);
    } else {
      Quotient(full, at + size);
    }
    hide Pieces;
  }

  /** What mapping a block of some size makes of it. */
  lemma MapTally(p: nat, cost: nat, taken: nat, used: nat, n: nat, copied: nat, moff: nat, size: nat, total: nat, allCost: nat,
                 wait: bool)
    requires Tally(p, cost, taken, used, n, copied, false) && 0 < size && p + size <= total && moff < PAGE
    requires cost + size / PAGE + 3 <= allCost
    ensures var descs := Pages(moff, moff + size) + if wait then 1 else 0;
      && (n + descs > LIMIT ==> Pieces(total) + allCost > LIMIT)
      && Tally(p + size, cost + size / PAGE + 3, taken, used, n + descs, copied, false)
  {
    MorePieces(copied, total);
    hide Pieces;
  }

  /** Some bytes have gone to buffers: to the one at hand, at at0, unless there was none or it was full, and to so
      many taken since.  Each but the last is full and on the list. */
  predicate Poured(bytes: nat, taken: nat, empty: bool, at0: nat, full: bool, used: nat, listed: int) {
    && at0 < BUFFER && (empty ==> at0 == 0) && listed == taken + (if empty then 0 else 1) - (if full then 0 else 1)
    && if taken == 0 && empty then full && bytes == 0
       else
         && used <= BUFFER && (full <==> used == BUFFER) && (taken > 0 ==> used > 0)
         && bytes + at0 == (if empty then BUFFER * taken - BUFFER else BUFFER * taken) + used
  }

  lemma NothingPoured(empty: bool, at0: nat, used: nat)
    requires at0 < BUFFER && if empty then at0 == 0 else at0 == used
    ensures Poured(0, 0, empty, at0, empty, used, 0)
  {
  }

  /** One more round, of a block with left bytes and limit bytes to go. */
  lemma PourMore(bytes: nat, taken: nat, empty: bool, at0: nat, full: bool, used: nat, listed: int, left: nat, limit: nat)
    requires Poured(bytes, taken, empty, at0, full, used, listed) && 0 < left && 0 < limit
    ensures var at := if full then 0 else used; var size := Min(Min(BUFFER - at, left), limit);
      var taken' := if full then taken + 1 else taken; var full' := at + size == BUFFER;
      && 0 < size && 0 <= listed <= taken'
      && taken' <= Pieces(bytes + size) <= Pieces(bytes + limit)
      && (size < limit ==> Poured(bytes + size, taken', empty, at0, full', at + size, listed + if full' then 1 else 0))
  {
    var at := if full then 0 else used;
    var size := Min(Min(BUFFER - at, left), limit);
    var taken' := if full then taken + 1 else taken;
    if taken' > 0 {
      Quotient(taken' - 1, 0);
      assert BUFFER * (taken' - 1) == BUFFER * taken' - BUFFER;
      MorePieces(BUFFER * taken' - BUFFER, bytes + size);
    }
    PiecesGrow(bytes + size, bytes + limit);
    hide Pieces;
  }

  lemma PiecesGrow(x: nat, y: nat)
    ensures x <= y ==> Pieces(x) <= Pieces(y)
  {
  }

  /** How many pages the bytes from lo up to hi lie on. */
  function Pages(lo: nat, hi: nat): nat
    requires lo <= hi
  {
    if lo == hi then 0 else (hi - 1) / PAGE - lo / PAGE + 1
  }

  lemma NoPages(lo: nat)
    ensures Pages(lo, lo) == 0
  {
  }

  lemma SomePages(lo: nat, hi: nat)
    requires lo < hi
    ensures Pages(lo, hi) >= 1
  {
  }

  /** The next piece, up to the end of its page, lies on one page more. */
  lemma OnePageMore(lo: nat, mid: nat, size: nat, hi: nat)
    requires lo <= mid && 0 < size <= PAGE - mid % PAGE && mid + size <= hi && (mid == lo || mid % PAGE == 0)
    ensures Pages(lo, mid + size) == Pages(lo, mid) + 1 <= Pages(lo, hi)
    ensures mid + size == hi || size < PAGE - mid % PAGE || (mid + size) % PAGE == 0
  {
  }

  /** Bytes copied one by one. */
  lemma CopiedEach(f: Frag, m: Bytes, data: Bytes, off: nat, size: nat)
    requires f.cur >= 0 && f.cur + f.used + size <= |f.mem| == |m| && off + size <= |data|
    requires forall k :: 0 <= k < f.cur + f.used ==> m[k] == f.mem[k]
    requires forall k :: f.cur + f.used <= k < f.cur + f.used + size ==> m[k] == data[off + k - (f.cur + f.used)]
    requires forall k :: f.cur + f.used + size <= k < |m| ==> m[k] == f.mem[k]
    ensures Copied(f, data[off..off + size]) == f.(mem := m, used := f.used + size)
  {
    assert Copied(f, data[off..off + size]).mem == m;
  }

  lemma StartsAtZero(blocks: seq<Block>)
    ensures Position(blocks, 0, 0) == 0
  {
    assert blocks[..0] == [];
  }

  lemma EndsAtTotal(blocks: seq<Block>)
    ensures Position(blocks, |blocks|, 0) == |Concat(blocks)|
  {
    assert blocks[..|blocks|] == blocks;
  }

  lemma WholeMessage(f: Frag, g: Frag, arena: set<nat>, all: Bytes)
    requires Good(f, arena) && f.ds == [] && f.cur < 0 && Sent(f, g, arena, all[..|all|], true)
    ensures Good(g, arena) && Done(g, arena) == [all] && Partial(g, arena) == []
  {
    assert all[..|all|] == all && Partial(f, arena) + all == all;
  }

  /** With one complete frame, end-of-packet is on the last descriptor only. */
  lemma OneFrame(g: Frag, arena: set<nat>)
    requires Good(g, arena) && |Done(g, arena)| == 1 && Partial(g, arena) == []
    ensures forall k :: 0 <= k < |g.ds| ==> InOnePage(g.ds[k]) && (g.ds[k].eop <==> k == |g.ds| - 1)
  {
    EopOnLastOnly(g.mem, g.ds);
  }

  lemma PositionGrows(blocks: seq<Block>, i: nat, off: nat, off': nat)
    ensures i <= |blocks| ==> Position(blocks, i, off') == Position(blocks, i, off) + off' - off
  {
  }

  lemma GoodParts(f: Frag, arena: set<nat>)
    ensures Good(f, arena) ==> BuffersOk(f, arena) && |f.ds| <= LIMIT
  {
  }

  lemma IdleIsEmpty(f: Frag, arena: set<nat>)
    ensures BuffersOk(f, arena) ==> f.cur < 0 || f.boff == f.used ==> Waiting(f) == []
  {
  }

  lemma SentIsGood(f: Frag, g: Frag, arena: set<nat>, chunk: Bytes, eop: bool)
    ensures Good(f, arena) && Sent(f, g, arena, chunk, eop) ==> Good(g, arena)
  {
  }

  /** What has been sent of a run of bytes grows by the next piece. */
  lemma Onwards(f: Frag, g: Frag, h: Frag, arena: set<nat>, data: Bytes, lo: nat, mid: nat, hi: nat, eop: bool)
    requires lo <= mid <= hi <= |data| && Good(f, arena)
    requires Sent(f, g, arena, data[lo..mid], false) && Sent(g, h, arena, data[mid..hi], eop)
    ensures Sent(f, h, arena, data[lo..hi], eop)
  {
    SentTwice(f, g, h, arena, data[lo..mid], data[mid..hi], eop);
    assert data[lo..mid] + data[mid..hi] == data[lo..hi];
  }
}
