/** Reading and writing one item of a segment held in memory (common/ef10_nvram.c:1244-1609). */
module NvramTlv {
  import opened Options
  import opened Words
  import opened TlvFormat
  import opened TlvSplice
  import opened TlvCursor
  import opened TlvImage
  import opened NvramBuffer

  // ---------------------------------------------------------------- reading

  /** The item that stands at position q. */
  function ItemAtWord(w: seq<u32>, q: nat, limit: nat): (it: Item)
    requires ValidAt(w, q, limit) && w[q] != END && limit <= |w|
    ensures ItemOk(it)
  {
    Item(w[q], w[q + 1], w[q + 2..NextAt(w, q)])
  }

  /** The copy of a value out of the block: its first bytes. */
  method CopyOut(c: Cursor) returns (data: Bytes)
    requires c.Sound() && 0 <= c.current && ValidAt(c.W(), c.current, c.limit) && c.W()[c.current] != END
    ensures data == Value(ItemAtWord(c.W(), c.current, c.limit))
  {
    var length := c.block[c.current + 1];
    data := Unpack(c.block[c.current + 2..c.current + ItemWords(length)])[..length];
    assert c.block[c.current + 2..c.current + ItemWords(length)] == c.W()[c.current + 2..NextAt(c.W(), c.current)];
  }

  /** ef10_nvram_buf_read_tlv; whether the allocation succeeds is free. */
  method ReadTlv(block: array<u32>, base: nat, size: nat, tag: u32, alloc: bool) returns (rc: Rc, data: Bytes)
    requires base + size <= block.Length
    ensures size == 0 ==> rc == EINVAL
    ensures size > 0 ==> (var r := FindAt(block[..], base, tag, -1, base + size - 1);
      && (r.None? ==> rc == if ValidAt(block[..], base, base + size - 1) then ENOENT else EFAULT)
      && (r.Some? && tag == END ==> rc == Ok && data == [])
      && (r.Some? && tag != END ==> (var it := ItemAtWord(block[..], r.value, base + size - 1);
        && rc == (if alloc || it.len == 0 then Ok else ENOMEM)
        && (rc == Ok ==> data == Value(it)))))
  {
    data := [];
    if size == 0 {
      return EINVAL, data;
    }
    var c := new Cursor(block, base, base + size - 1, base);
    rc := c.ValidateState();
    if rc != Ok {
      return EFAULT, data;
    }
    rc := c.Find(tag);
    if rc != Ok {
      return ENOENT, data;
    }
    if block[c.current] != END && block[c.current + 1] != 0 {
      if !alloc {
        return ENOMEM, data;
      }
      data := CopyOut(c);
    }
    return Ok, data;
  }

  // ---------------------------------------------------------------- writing

  /** Where a write of the tag goes: over the first item with it, or in front of the trailer. */
  function Target(items: seq<Item>, tag: u32): (r: (nat, nat))
    requires |items| >= 1
    ensures r.0 + r.1 <= |items| && r.0 < |items| && r.1 <= 1
    ensures r.1 == 1 <==> FirstTag(items, tag) < |items|
  {
    var k := FirstTag(items, tag);
    if k < |items| then (k, 1) else (|items| - 1, 0)
  }

  /** Words of the item that a write replaces. */
  function Freed(items: seq<Item>, tag: u32): nat
    requires |items| >= 1
  {
    var (k, drop) := Target(items, tag);
    |Enc(items[k..k + drop])|
  }

  predicate Fits(items: seq<Item>, it: Item, lse: nat, limit: nat)
    requires |items| >= 1
  {
    |EncItem(it)| <= Freed(items, it.tag) || lse + 1 + |EncItem(it)| - Freed(items, it.tag) <= limit
  }

  /** The block once the item is in, before the bookkeeping is brought up to date. */
  ghost predicate WrittenTo(w: seq<u32>, r: seq<u32>, base: nat, items: seq<Item>, it: Item, lse: nat)
    requires |items| >= 1
  {
    var p, drop := base + Place(items, Target(items, it.tag).0), Freed(items, it.tag);
    p + drop <= lse + 1 <= |w| && lse + 1 + |EncItem(it)| - drop <= |w| && r == Spliced(w, p, drop, EncItem(it), lse)
  }

  lemma PutIsEdited(items: seq<Item>, it: Item)
    requires |items| >= 1
    ensures var (k, drop) := Target(items, it.tag);
      && PutItem(items, it) == items[..k] + [it] + items[k + drop..]
      && items == items[..k] + items[k..k + drop] + items[k + drop..]
      && Freed(items, it.tag) == (if drop == 1 then |EncItem(items[k])| else 0)
  {
    var (k, drop) := Target(items, it.tag);
    if drop == 1 {
      assert items[k..k + 1] == [items[k]];
      EncOne(items[k]);
    } else {
      assert items[k..k] == [] && Enc([]) == [];
    }
  }

  /** After the write the segment holds the edited list. */
  lemma WrittenSegment(w: seq<u32>, r: seq<u32>, base: nat, items: seq<Item>, it: Item, limit: nat, lse: nat)
    requires SegmentAt(w, base, items, limit) && |items| >= 1 && ItemOk(it) && limit < |w|
    requires lse == LastEnd(w, base, base, limit) && Fits(items, it, lse, limit) && WrittenTo(w, r, base, items, it, lse)
    ensures SegmentAt(r, base, PutItem(items, it), limit) && |r| == |w| && r[..base] == w[..base]
    ensures |Enc(PutItem(items, it))| == |Enc(items)| + |EncItem(it)| - Freed(items, it.tag)
  {
    PutIsEdited(items, it);
    var (k, drop) := Target(items, it.tag);
    EncOne(it);
    WrittenParts(w, r, base, items[..k], items[k..k + drop], it, items[k + drop..], limit, lse);
  }

  lemma WrittenParts(w: seq<u32>, r: seq<u32>, base: nat, a: seq<Item>, gone: seq<Item>, it: Item, c: seq<Item>,
                     limit: nat, lse: nat)
    requires SegmentAt(w, base, a + gone + c, limit) && a + gone + c != [] && ItemOk(it) && limit < |w|
    requires lse == LastEnd(w, base, base, limit)
    requires |Enc([it])| <= |Enc(gone)| || lse + 1 + |Enc([it])| - |Enc(gone)| <= limit
    requires var p := base + |Enc(a)|;
      && p + |Enc(gone)| <= lse + 1 <= |w| && lse + 1 + |Enc([it])| - |Enc(gone)| <= |w|
      && r == Spliced(w, p, |Enc(gone)|, Enc([it]), lse)
    ensures SegmentAt(r, base, a + [it] + c, limit) && |r| == |w| && r[..base] == w[..base]
    ensures |Enc(a + [it] + c)| == |Enc(a + gone + c)| + |Enc([it])| - |Enc(gone)|
  {
    hide SegmentAt, Spliced, LastEnd, ChainEnd, ItemsAt, ItemOk, Enc, EncItem;
    EncThree(a, gone, c);
    EncThree(a, [it], c);
    SegmentIsFound(w, base, a + gone + c, limit);
    LastEndBounds(w, base, base, limit);
    var p := base + |Enc(a)|;
    SplicedSlices(w, p, |Enc(gone)|, Enc([it]), lse);
    PrefixOfPrefix(w, r, base, p);
    SegmentIsAt(w, base, a + gone + c, limit);
    EditedSegment(w, r, limit, base, a, gone, [it], c, lse);
  }

  lemma PrefixOfPrefix(w: seq<u32>, r: seq<u32>, base: nat, p: nat)
    requires base <= p <= |w| && p <= |r| && r[..p] == w[..p]
    ensures r[..base] == w[..base]
  {
    assert r[..base] == r[..p][..base] && w[..base] == w[..p][..base];
  }

  /** The search of a write stays in the segment: the tag is in it, or the walk behind its END does not meet
      the tag. */
  ghost predicate Reaches(w: seq<u32>, base: nat, items: seq<Item>, tag: u32, limit: nat) {
    FirstTag(items, tag) < |items| || NoStray(w, base + |Enc(items)|, tag, limit)
  }

  /** The segment, if there is one, is framed, and the search of a write stays in it. */
  ghost predicate Writable(w: seq<u32>, base: nat, limit: nat, tag: u32) {
    ChainEnd(w, base, limit).Some? && w[base] == HEADER ==>
      Framed(ItemsAt(w, base, limit)) && Reaches(w, base, ItemsAt(w, base, limit), tag, limit)
  }

  /** Where the two searches of a write arrive. */
  lemma SearchFacts(w: seq<u32>, base: nat, limit: nat, items: seq<Item>, tag: u32)
    requires SegmentAt(w, base, items, limit) && Framed(items) && !Reserved(tag)
    requires Reaches(w, base, items, tag, limit)
    ensures var q := base + Place(items, Target(items, tag).0);
      && (Target(items, tag).1 == 1 ==> FindAt(w, base, tag, -1, limit) == Some(q))
      && (Target(items, tag).1 == 0 ==> FindAt(w, base, tag, -1, limit) == None
                                        && FindAt(w, base, TRAILER, -1, limit) == Some(q))
  {
    hide *;
    TargetIs(items, tag);
    ReservedIs(tag);
    ReachesIs(w, base, items, tag, limit);
    FindInSegment(w, base, items, limit, tag, -1);
    FindInSegment(w, base, items, limit, TRAILER, -1);
  }

  /** What stands there. */
  lemma TargetFacts(w: seq<u32>, base: nat, limit: nat, items: seq<Item>, tag: u32)
    requires SegmentAt(w, base, items, limit) && Framed(items)
    ensures var q := base + Place(items, Target(items, tag).0); var e := base + |Enc(items)|;
      && ChainEnd(w, base, limit) == Some(e) && e <= LastEnd(w, base, base, limit) <= limit
      && ValidAt(w, q, limit) && w[q] != END && NextAt(w, q) <= e && q + Freed(items, tag) <= e
      && (Target(items, tag).1 == 1 ==> w[q] == tag && Freed(items, tag) == NextAt(w, q) - q)
      && (Target(items, tag).1 == 0 ==> Freed(items, tag) == 0)
  {
    hide *;
    TargetIs(items, tag);
    var k := Target(items, tag).0;
    SegmentIsFound(w, base, items, limit);
    LastEndBounds(w, base, base, limit);
    ItemInWords(w, base, items, limit, k);
    PutIsEdited(items, Item(tag, 0, []));
  }

  lemma TargetIs(items: seq<Item>, tag: u32)
    requires Framed(items)
    ensures |items| >= 2 && FirstTag(items, TRAILER) == |items| - 1
    ensures Target(items, tag) == if FirstTag(items, tag) < |items| then (FirstTag(items, tag), 1) else (|items| - 1, 0)
    ensures var k := Target(items, tag).0;
      items[k].tag != END && Place(items, k) == |Enc(items[..k])| && Place(items, |items| - 1) == |Enc(items[..|items| - 1])|
  {
    FirstTrailer(items);
    assert ItemsOk(items) && ItemOk(items[Target(items, tag).0]);
  }

  lemma ReachesIs(w: seq<u32>, base: nat, items: seq<Item>, tag: u32, limit: nat)
    ensures Reaches(w, base, items, tag, limit) <==>
      FirstTag(items, tag) < |items| || FindAt(w, base + |Enc(items)| + 2, tag, -1, limit) == None
  {
  }

  lemma ReservedIs(tag: u32)
    ensures !Reserved(tag) ==> tag != END && tag != HEADER && tag != TRAILER && TRAILER != END
  {
  }

  lemma MadeItem(tag: u32, data: Bytes)
    ensures |data| < WORD32 ==> MakeItem(tag, data).tag == tag && (tag != END ==> ItemOk(MakeItem(tag, data)))
  {
  }

  lemma WritableIs(w: seq<u32>, base: nat, limit: nat, tag: u32)
    requires ChainEnd(w, base, limit).Some? && w[base] == HEADER && Writable(w, base, limit, tag)
    ensures Framed(ItemsAt(w, base, limit)) && Reaches(w, base, ItemsAt(w, base, limit), tag, limit)
  {
  }

  lemma WrittenToIs(w: seq<u32>, r: seq<u32>, base: nat, items: seq<Item>, it: Item, lse: nat)
    requires |items| >= 1 && WrittenTo(w, r, base, items, it, lse)
    ensures var p, drop := base + Place(items, Target(items, it.tag).0), Freed(items, it.tag);
      p + drop <= lse + 1 <= |w| && lse + 1 + |EncItem(it)| - drop <= |w| && r == Spliced(w, p, drop, EncItem(it), lse)
  {
  }

  lemma FitsIs(items: seq<Item>, it: Item, lse: nat, limit: nat)
    requires |items| >= 1
    ensures |EncItem(it)| >= 2
    ensures Fits(items, it, lse, limit) <==>
      |EncItem(it)| <= Freed(items, it.tag) || lse + 1 + |EncItem(it)| - Freed(items, it.tag) <= limit
  {
  }

  /** The words that the move of a shrinking item reads, which reach past the last END by the words that
      are freed, lie in front of len. */
  ghost predicate MovesInside(w: seq<u32>, base: nat, limit: nat, tag: u32, data: Bytes, len: nat) {
    ChainEnd(w, base, limit).Some? && ItemsAt(w, base, limit) != [] ==>
      LastEnd(w, base, base, limit) + Freed(ItemsAt(w, base, limit), tag) < len + ItemWords(|data|)
  }

  /** They do if there is as much memory behind the block as in it. */
  lemma TwiceIsInside(w: seq<u32>, base: nat, limit: nat, tag: u32, data: Bytes, len: nat)
    requires Writable(w, base, limit, tag) && 2 * (limit + 1) <= len && (base < |w| ==> w[base] == HEADER)
    ensures MovesInside(w, base, limit, tag, data, len)
  {
    hide *;
    MovesInsideIs(w, base, limit, tag, data, len);
    if ChainEnd(w, base, limit).Some? {
      FoundIsSegment(w, base, limit);
      WritableIs(w, base, limit, tag);
      TargetFacts(w, base, limit, ItemsAt(w, base, limit), tag);
    }
  }

  lemma MovesInsideIs(w: seq<u32>, base: nat, limit: nat, tag: u32, data: Bytes, len: nat)
    ensures ItemWords(|data|) >= 2 && (ChainEnd(w, base, limit).Some? ==> base < |w|)
    ensures ChainEnd(w, base, limit) == None ==> MovesInside(w, base, limit, tag, data, len)
    ensures (&& ChainEnd(w, base, limit).Some? && ItemsAt(w, base, limit) != []) ==>
      (MovesInside(w, base, limit, tag, data, len) <==>
       LastEnd(w, base, base, limit) + Freed(ItemsAt(w, base, limit), tag) < len + ItemWords(|data|))
  {
    hide LastEnd, Freed, ItemsAt;
  }

  /** Where in a sound segment a write of the tag goes, in the terms of the cursor's edits. */
  ghost predicate PutPlace(w: seq<u32>, base: nat, limit: nat, items: seq<Item>, tag: u32, data: Bytes, q: int, drop: nat)
    requires |data| < WORD32
  {
    var lse, it, n := LastEnd(w, base, base, limit), MakeItem(tag, data), ItemWords(|data|);
    && SegmentAt(w, base, items, limit) && Framed(items) && limit < |w| && ItemOk(it) && |EncItem(it)| == n && it.tag == tag
    && Target(items, tag).1 == drop && q == base + Place(items, Target(items, tag).0)
    && ChainEnd(w, base, limit) == Some(base + |Enc(items)|) && base + |Enc(items)| <= lse <= limit
    && ValidAt(w, q, limit) && w[q] != END && NextAt(w, q) <= base + |Enc(items)|
    && Freed(items, tag) == (if drop == 1 then NextAt(w, q) - q else 0)
    && (Fits(items, it, lse, limit) <==> n <= Freed(items, tag) || lse + 1 + n - Freed(items, tag) <= limit)
  }

  /** Both searches of a write. */
  lemma PutFacts(w: seq<u32>, base: nat, limit: nat, items: seq<Item>, tag: u32, data: Bytes)
    requires ChainEnd(w, base, limit).Some? && items == ItemsAt(w, base, limit) && w[base] == HEADER
    requires Writable(w, base, limit, tag) && !Reserved(tag) && |data| < WORD32 && limit < |w|
    ensures var drop := Target(items, tag).1; var q := base + Place(items, Target(items, tag).0);
      && PutPlace(w, base, limit, items, tag, data, q, drop)
      && (if drop == 1 then FindAt(w, base, tag, -1, limit) == Some(q) && w[q] == tag
          else FindAt(w, base, tag, -1, limit) == None && FindAt(w, base, TRAILER, -1, limit) == Some(q))
  {
    hide LastEnd, ItemsAt, ChainEnd, SegmentAt, FindAt, Enc, EncItem, Framed, Target, Place, Freed, ValidAt, NextAt, Fits,
         MakeItem, Writable, Reaches, Reserved, ItemOk, ItemWords;
    FoundIsSegment(w, base, limit);
    WritableIs(w, base, limit, tag);
    SearchFacts(w, base, limit, items, tag);
    TargetFacts(w, base, limit, items, tag);
    EncodedWords(tag, data);
    MadeItem(tag, data);
    ReservedIs(tag);
    TargetIs(items, tag);
    FitsIs(items, MakeItem(tag, data), LastEnd(w, base, base, limit), limit);
  }

  /** What a successful write leaves. */
  ghost predicate WrittenSegmentOf(w: seq<u32>, r: seq<u32>, base: nat, limit: nat, items: seq<Item>, it: Item, end: int)
    requires |items| >= 1
  {
    && WrittenTo(w, r, base, items, it, LastEnd(w, base, base, limit))
    && SegmentAt(r, base, PutItem(items, it), limit)
    && end == base + |Enc(PutItem(items, it))|
  }

  lemma WrittenSegmentIs(w: seq<u32>, r: seq<u32>, base: nat, limit: nat, items: seq<Item>, tag: u32, data: Bytes,
                         q: int, drop: nat, end: int)
    requires |data| < WORD32 && PutPlace(w, base, limit, items, tag, data, q, drop)
    requires var lse, n, freed := LastEnd(w, base, base, limit), ItemWords(|data|), Freed(items, tag);
      && Fits(items, MakeItem(tag, data), lse, limit)
      && q + freed <= lse + 1 <= |w| && lse + 1 + n - freed <= |w| && |EncItem(MakeItem(tag, data))| == n
      && r == Spliced(w, q, freed, EncItem(MakeItem(tag, data)), lse)
      && end == base + |Enc(items)| + n - freed
    ensures |items| >= 1 && WrittenSegmentOf(w, r, base, limit, items, MakeItem(tag, data), end)
  {
    hide LastEnd, ChainEnd, SegmentAt, Enc, EncItem, Spliced, PutItem, ValidAt, NextAt, MakeItem, ItemOk, ItemWords, Fits;
    WrittenSegment(w, r, base, items, MakeItem(tag, data), limit, LastEnd(w, base, base, limit));
  }

  /** The tag was found: tlv_modify. */
  method ModifyFound(c: Cursor, tag: u32, data: Bytes, ghost items: seq<Item>) returns (rc: Rc)
    requires c.limit < c.block.Length
    requires c.FirstEnd().Some? && |items| >= 1 ==> c.Last() + Freed(items, tag) < c.block.Length + ItemWords(|data|)
    requires |data| < WORD32 && c.base <= c.current && c.end == -1 && ValidAt(c.W(), c.current, c.limit)
    requires c.W()[c.current] == tag != END
    requires c.FirstEnd().Some? ==> PutPlace(c.W(), c.base, c.limit, items, tag, data, c.current, 1)
    modifies c, c.block
    ensures rc == Ok <==> old(c.FirstEnd().Some? && |items| >= 1 && Fits(items, MakeItem(tag, data), c.Last(), c.limit))
    ensures rc == Ok ==> WrittenSegmentOf(old(c.W()), c.W(), c.base, c.limit, items, MakeItem(tag, data), c.end)
    ensures rc != Ok ==> c.W() == old(c.W()) && rc == if old(c.FirstEnd().Some?) then ENOSPC else EFAULT
  {
    hide LastEnd, ChainEnd, SegmentAt, Enc, EncItem, Spliced, MakeItem, ItemOk, ItemWords, Fits, WrittenSegmentOf, Freed, Place,
         Target, Framed;
    ghost var w, q := c.W(), c.current;
    rc := c.Modify(tag, data);
    if rc == Ok {
      WrittenSegmentIs(w, c.W(), c.base, c.limit, items, tag, data, q, 1, c.end);
    }
  }

  /** The tag was not found, but the trailer was: tlv_insert. */
  method InsertNew(c: Cursor, tag: u32, data: Bytes, ghost items: seq<Item>) returns (rc: Rc)
    requires c.limit < c.block.Length
    requires |data| < WORD32 && c.base <= c.current && c.end == -1 && ValidAt(c.W(), c.current, c.limit) && tag != END
    requires c.FirstEnd().Some? ==> PutPlace(c.W(), c.base, c.limit, items, tag, data, c.current, 0)
    modifies c, c.block
    ensures rc == Ok <==> old(c.FirstEnd().Some? && |items| >= 1 && Fits(items, MakeItem(tag, data), c.Last(), c.limit))
    ensures rc == Ok ==> WrittenSegmentOf(old(c.W()), c.W(), c.base, c.limit, items, MakeItem(tag, data), c.end)
    ensures rc != Ok ==> c.W() == old(c.W()) && rc == EINVAL
  {
    hide LastEnd, ChainEnd, SegmentAt, Enc, EncItem, Spliced, MakeItem, ItemOk, Fits, WrittenSegmentOf, Freed, Place,
         Target, Framed;
    ghost var w, q := c.W(), c.current;
    rc := c.Insert(tag, data);
    if rc == Ok {
      WrittenSegmentIs(w, c.W(), c.base, c.limit, items, tag, data, q, 0, c.end);
    } else {
      rc := EINVAL;
    }
  }

  /** The first part of ef10_nvram_buf_write_tlv: modify the item if there is one, else insert it in
      front of the trailer. */
  method PutTlv(c: Cursor, tag: u32, data: Bytes) returns (rc: Rc)
    requires c.limit < c.block.Length && MovesInside(c.W(), c.base, c.limit, tag, data, c.block.Length)
    requires c.base <= c.limit && c.current == c.base && c.end == -1
    requires |data| < WORD32 && !Reserved(tag) && Writable(c.W(), c.base, c.limit, tag)
    requires ValidAt(c.W(), c.base, c.limit) && c.W()[c.base] == HEADER
    modifies c, c.block
    ensures rc == Ok <==> old(c.FirstEnd().Some?
      && Fits(ItemsAt(c.W(), c.base, c.limit), MakeItem(tag, data), c.Last(), c.limit))
    ensures rc == Ok ==> (var items := old(ItemsAt(c.W(), c.base, c.limit)); var it := MakeItem(tag, data);
      && WrittenTo(old(c.W()), c.W(), c.base, items, it, old(c.Last()))
      && SegmentAt(c.W(), c.base, PutItem(items, it), c.limit)
      && c.end == c.base + |Enc(PutItem(items, it))|)
    ensures rc != Ok ==> c.W() == old(c.W()) && rc == old(
      if FindAt(c.W(), c.base, tag, -1, c.limit).None? then EINVAL else if c.FirstEnd().Some? then ENOSPC else EFAULT)
  {
    ghost var w := c.W();
    ghost var items := [];
    if c.FirstEnd().Some? {
      items := ItemsAt(w, c.base, c.limit);
      PutFacts(w, c.base, c.limit, items, tag, data);
    }
    hide SegmentAt, ItemsAt, ChainEnd, LastEnd, FindAt, Framed, MakeItem, EncItem, Enc, PutItem, Reaches, Target,
         Freed, Place, Writable, Fits, WrittenTo, WrittenSegmentOf, PutPlace;
    rc := c.Find(tag);
    if rc == Ok {
      rc := ModifyFound(c, tag, data, items);
    } else {
      rc := c.Find(TRAILER);
      if rc != Ok {
        return EINVAL;
      }
      rc := InsertNew(c, tag, data, items);
    }
  }

  lemma WordSumIs(s: seq<u32>)
    ensures WordSum(s) == Wrap32(Total(s))
  {
  }

  /** What the checksum loop sums before the new checksum is stored. */
  lemma ZeroedSum(w: seq<u32>, base: nat, items: seq<Item>, limit: nat, generation: u32, total: u32)
    requires SegmentAt(w, base, items, limit) && Framed(items)
    ensures base + 9 <= base + |Enc(items)| < |w|
    ensures var r := Restamped(w, base, base + |Enc(items)|, generation, total, 0);
      Negate(WordSum(r[base..base + UsedWords(items)]))
        == Negate(RestSum(items[0].body[0], generation, total, Inner(items)))
  {
    hide Restamped, SegmentAt, RestSum, WordSum, EncItem, Enc, Negate;
    RestampedFrame(w, base, items, limit, generation, total, 0);
    var f := Frame(items[0].body[0], generation, total, Inner(items), 0);
    var r := Restamped(w, base, base + |Enc(items)|, generation, total, 0);
    WordSumIs(Enc(f) + [END]);
    SegmentSum(r, base, f, limit);
    FrameSum(items[0].body[0], generation, total, Inner(items), 0);
    ChecksumCloses(RestSum(items[0].body[0], generation, total, Inner(items)), 0);
  }

  /** Storing the lengths and generations, then the checksum of what is there with the old one zeroed. */
  method StoreBookkeeping(block: array<u32>, base: nat, trailer: nat, n: nat, ghost items: seq<Item>, ghost limit: nat)
    requires 4 * block.Length < WORD32 && SegmentAt(block[..], base, items, limit) && Framed(items)
    requires n == UsedWords(items) && trailer + 4 == base + |Enc(items)|
    modifies block
    ensures 4 * UsedWords(items) < WORD32 && Sealed(old(block[..]), block[..], base, items, limit)
  {
    ghost var w := block[..];
    FrameWords(w, base, items, limit);
    hide SegmentAt, Framed, Sealed, Restamped, RestSum, Enc, EncItem, Inner, Negate;
    var e, total := trailer + 4, 4 * n;
    WriteCounts(block, base, e, total);
    ghost var generation := Add32(Generation(items), 1);
    WriteChecksum(block, w, base, e, generation, total, w[e - 1], 0);
    ZeroedSum(w, base, items, limit, generation, total);
    var sum := SumWords(block, base, n);
    WriteChecksum(block, w, base, e, generation, total, 0, Negate(sum));
    RestampedIsSealed(w, base, items, limit, Negate(sum));
  }

  /** The second part of ef10_nvram_buf_write_tlv: find the trailer, then bring the bookkeeping up to date. */
  method SealTlv(c: Cursor, size: nat, ghost items: seq<Item>) returns (rc: Rc, total: nat)
    requires size > 0 && c.limit == c.base + size - 1 < c.block.Length && 4 * c.block.Length < WORD32
    requires SegmentAt(c.W(), c.base, items, c.limit) && Framed(items) && c.end == c.base + |Enc(items)|
    modifies c, c.block
    ensures rc == Ok && total == 4 * UsedWords(items) < WORD32
    ensures Sealed(old(c.W()), c.W(), c.base, items, c.limit)
  {
    TrailerFacts(c.W(), c.base, c.limit, items);
    hide SegmentAt, FindAt, ChainEnd, Framed, Sealed, Enc, ValidAt, NextAt;
    total := 0;
    rc := c.Find(TRAILER);
    if rc != Ok {
      return EINVAL, total;
    }
    var trailer := c.current;
    var n := c.LengthUsed();
    total := 4 * n;
    if total > 4 * size {
      return ENOSPC, total;
    }
    StoreBookkeeping(c.block, c.base, trailer, n, items, c.limit);
    return Ok, total;
  }

  lemma ChainIsValid(w: seq<u32>, p: nat, limit: nat)
    ensures ChainEnd(w, p, limit).Some? ==> ValidAt(w, p, limit)
  {
  }

  /** ef10_nvram_buf_write_tlv on the size words at base; nothing is found there if size is not positive. */
  method WriteTlv(block: array<u32>, base: nat, size: int, tag: u32, data: Bytes) returns (rc: Rc, total: nat)
    requires 1 <= base + size <= block.Length && 4 * block.Length < WORD32
    requires |data| < WORD32 && !Reserved(tag) && (size > 0 ==> Writable(block[..], base, base + size - 1, tag))
    requires size > 0 ==> MovesInside(block[..], base, base + size - 1, tag, data, block.Length)
    modifies block
    ensures rc == Ok <==> old(size > 0 && block[base] == HEADER && CanWrite(block[..], base, base + size - 1, tag, data))
    ensures rc == Ok ==> (var items := old(ItemsAt(block[..], base, base + size - 1)); var it := MakeItem(tag, data);
      total == 4 * UsedWords(PutItem(items, it)) < WORD32
      && Rewritten(old(block[..]), block[..], base, base + size - 1, items, it))
    ensures rc != Ok ==> block[..] == old(block[..]) && rc == old(
      if size <= 0 || !ValidAt(block[..], base, base + size - 1) then EFAULT
      else if block[base] != HEADER || FindAt(block[..], base, tag, -1, base + size - 1).None? then EINVAL
      else if ChainEnd(block[..], base, base + size - 1).Some? then ENOSPC else EFAULT)
  {
    hide ChainEnd, ItemsAt, Sealed, Enc, FindAt, WrittenTo, SegmentAt, Fits;
    total := 0;
    ChainIsValid(block[..], base, base + size - 1);
    var c := new Cursor(block, base, base + size - 1, base);
    rc := c.ValidateState();
    if rc != Ok {
      return EFAULT, total;
    }
    if block[base] != HEADER {
      return EINVAL, total;
    }
    ghost var w := block[..];
    rc := PutTlv(c, tag, data);
    if rc != Ok {
      return;
    }
    ghost var items, it := ItemsAt(w, base, c.limit), MakeItem(tag, data);
    MadeItem(tag, data);
    PutIsFound(items, it);
    ghost var r := block[..];
    rc, total := SealTlv(c, size, PutItem(items, it));
    assert RewrittenVia(w, r, block[..], base, c.limit, items, it);
  }

  /** The segment ends and has room for the item. */
  ghost predicate CanWrite(w: seq<u32>, base: nat, limit: nat, tag: u32, data: Bytes)
    requires |data| < WORD32
  {
    && ChainEnd(w, base, limit).Some? && ItemsAt(w, base, limit) != []
    && Fits(ItemsAt(w, base, limit), MakeItem(tag, data), LastEnd(w, base, base, limit), limit)
  }

  /** The item was put into the segment by an exact splice, r in between, and then the segment was sealed. */
  ghost predicate RewrittenVia(w: seq<u32>, r: seq<u32>, w': seq<u32>, base: nat, limit: nat, items: seq<Item>, it: Item) {
    && Framed(items) && WrittenTo(w, r, base, items, it, LastEnd(w, base, base, limit))
    && Framed(PutItem(items, it)) && 4 * UsedWords(PutItem(items, it)) < WORD32
    && Sealed(r, w', base, PutItem(items, it), limit)
  }

  ghost predicate Rewritten(w: seq<u32>, w': seq<u32>, base: nat, limit: nat, items: seq<Item>, it: Item) {
    exists r :: RewrittenVia(w, r, w', base, limit, items, it)
  }

  // ---------------------------------------------------------------- what a write means

  /** A zero tail and a tag that is not zero are enough for a write to be safe. */
  lemma ZeroTailIsWritable(w: seq<u32>, base: nat, limit: nat, tag: u32)
    requires ChainEnd(w, base, limit).Some? && Framed(ItemsAt(w, base, limit)) && tag != 0
    requires forall k :: ChainEnd(w, base, limit).value + 2 <= k <= limit && k < |w| ==> w[k] == 0
    ensures Writable(w, base, limit, tag)
  {
    FoundIsSegment(w, base, limit);
    ForeignTailIsClean(w, ChainEnd(w, base, limit).value + 2, tag, -1, limit);
  }

  /** Where the cursor stands when a write starts to edit. */
  ghost function EditAt(w: seq<u32>, base: nat, tag: u32, limit: nat): Option<nat> {
    var r := FindAt(w, base, tag, -1, limit);
    if r.Some? then r else FindAt(w, base, TRAILER, -1, limit)
  }

  /** A write edits the segment itself exactly when the tag is in it or the walk behind END does not meet
      the tag; otherwise it edits words behind END. */
  lemma WriteReachesIff(w: seq<u32>, base: nat, limit: nat, items: seq<Item>, tag: u32)
    requires SegmentAt(w, base, items, limit) && Framed(items) && !Reserved(tag)
    ensures var q, e := EditAt(w, base, tag, limit), base + |Enc(items)|;
      && q.Some?
      && (q.value < e <==> Reaches(w, base, items, tag, limit))
      && (q.value < e ==> q.value == base + Place(items, Target(items, tag).0))
      && (q.value >= e ==> e + 2 <= q.value && q == FindAt(w, e + 2, tag, -1, limit))
  {
    hide SegmentAt, Framed, FindAt, Enc, Target, Place, Reaches, Freed, ChainEnd, LastEnd;
    ReachesIs(w, base, items, tag, limit);
    ReservedIs(tag);
    TargetIs(items, tag);
    FindInSegment(w, base, items, limit, tag, -1);
    if Reaches(w, base, items, tag, limit) {
      SearchFacts(w, base, limit, items, tag);
      TargetFacts(w, base, limit, items, tag);
    }
  }

  /** The words of a newly created partition, with the tag in stray words behind its END. */
  ghost predicate HasStray(w: seq<u32>, partnType: u16, tag: u32) {
    |w| == 15 && SegmentAt(w, 0, Created(partnType), 14) && w[10..] == [0, tag, 0, END, 0]
  }

  /** The segment lacks the tag, and a write of it goes to those stray words. */
  lemma StrayIsReached(w: seq<u32>, partnType: u16, tag: u32)
    requires HasStray(w, partnType, tag) && !Reserved(tag)
    ensures var items := Created(partnType);
      && Framed(items) && Balanced(items) && FirstTag(items, tag) == |items|
      && ChainEnd(w, 0, 14) == Some(9) && EditAt(w, 0, tag, 14) == Some(11)
  {
    CreatedParts(partnType, tag);
    var items := Created(partnType);
    hide Created, SegmentAt, Framed, Balanced, FirstTag;
    SegmentIsFound(w, 0, items, 14);
    FindInSegment(w, 0, items, 14, tag, -1);
    assert w[11] == w[10..][1] && w[12] == w[10..][2];
  }

  lemma CreatedParts(partnType: u16, tag: u32)
    requires !Reserved(tag)
    ensures var s := Created(partnType);
      Framed(s) && Balanced(s) && |Enc(s)| == 9 && FirstTag(s, tag) == |s|
  {
    CreatedIsStamped(partnType);
    StampBalances(NewFrame(partnType));
    var s := Created(partnType);
    assert |s| == 2;
  }

  /** There are such words. */
  lemma StrayWords(partnType: u16, tag: u32) returns (w: seq<u32>)
    requires !Reserved(tag)
    ensures HasStray(w, partnType, tag)
  {
    CreatedParts(partnType, tag);
    var items := Created(partnType);
    w := Enc(items) + [END] + [0, tag, 0, END, 0];
    SegmentIsAt(w, 0, items, 14);
  }

  /** After a write the tag's value reads back, every other item keeps its order and value, the
      generation is one up in header and trailer, the length is the bytes used and the words sum to
      zero; nothing in front of the segment has changed. */
  lemma WriteReadsBack(w: seq<u32>, w': seq<u32>, base: nat, limit: nat, items: seq<Item>, tag: u32, data: Bytes)
    requires |data| < WORD32 && !Reserved(tag) && limit < |w|
    requires SegmentAt(w, base, items, limit) && Rewritten(w, w', base, limit, items, MakeItem(tag, data))
    requires Fits(items, MakeItem(tag, data), LastEnd(w, base, base, limit), limit)
    ensures |w'| == |w| && w'[..base] == w[..base]
    ensures var put := PutItem(items, MakeItem(tag, data));
      && Framed(put) && 4 * UsedWords(put) < WORD32
      && var s := Stamped(put);
        && SegmentAt(w', base, s, limit) && Framed(s) && Balanced(s)
        && Generation(s) == Add32(Generation(items), 1) && Inner(s) == Inner(put) && Updated(items, s, MakeItem(tag, data))
    ensures var r := FindAt(w', base, tag, -1, limit);
      r.Some? && w'[r.value] != END && Value(ItemAtWord(w', r.value, limit)) == data
  {
    var it := MakeItem(tag, data);
    var put := PutItem(items, it);
    var s := Stamped(put);
    hide *;
    WrittenAndSealed(w, w', base, limit, items, tag, data);
    MadeItem(tag, data);
    ReservedIs(tag);
    PutAndStamp(items, it);
    WriteUpdates(items, it);
    TagIsFound(w', base, s, limit, tag);
    ItemReadsBack(tag, data);
  }

  /** The segment after a write: the first item with the tag is the new one, or else the new one is the last in front of the
      trailer; all others are as they were, both generations are one up, and length and sum are right. */
  ghost predicate Updated(items: seq<Item>, out: seq<Item>, it: Item) {
    && Framed(items) && Framed(out) && Balanced(out) && Generation(out) == (Generation(items) + 1) % WORD32
    && var n, k := |items| - 1, FirstTag(items, it.tag);
      && k > 0 && (k < n ==> out[1..|out| - 1] == items[1..k] + [it] + items[k + 1..n])
      && (k >= n ==> out[1..|out| - 1] == items[1..n] + [it])
  }

  lemma WriteUpdates(items: seq<Item>, it: Item)
    requires Framed(items) && ItemOk(it) && !Reserved(it.tag) && 4 * UsedWords(PutItem(items, it)) < WORD32
    ensures Framed(PutItem(items, it)) && Updated(items, Stamped(PutItem(items, it)), it)
  {
    PutAndStamp(items, it);
    PutIsFound(items, it);
    hide Stamped, Framed, Balanced, UsedWords;
    PutIsInner(items, it);
  }

  lemma PutIsInner(items: seq<Item>, it: Item)
    requires Framed(items) && ItemOk(it) && !Reserved(it.tag)
    ensures var put, n, k := PutItem(items, it), |items| - 1, FirstTag(items, it.tag);
      && |put| >= 2 && n >= 1 && k > 0
      && (k < n ==> put[1..|put| - 1] == items[1..k] + [it] + items[k + 1..n])
      && (k >= n ==> k == n + 1 && put[1..|put| - 1] == items[1..n] + [it])
  {
    hide *;
    PutIsFound(items, it);
    var n, k := |items| - 1, FirstTag(items, it.tag);
    TagPlace(items, it);
    if k < n {
      PutOver(items, it);
      InnerOver(items, k, 1, it);
    } else {
      PutNew(items, it);
      InnerOver(items, n, 0, it);
    }
  }

  /** An item that is not the frame's stands in it. */
  lemma TagPlace(items: seq<Item>, it: Item)
    requires Framed(items) && !Reserved(it.tag)
    ensures |items| >= 2 && (0 < FirstTag(items, it.tag) < |items| - 1 || FirstTag(items, it.tag) == |items|)
  {
  }

  lemma InnerOver(items: seq<Item>, k: nat, drop: nat, it: Item)
    requires 0 < k && k + drop < |items|
    ensures var r := items[..k] + [it] + items[k + drop..];
      |r| >= 2 && r[1..|r| - 1] == items[1..k] + [it] + items[k + drop..|items| - 1]
  {
  }

  lemma PutAndStamp(items: seq<Item>, it: Item)
    requires Framed(items) && ItemOk(it) && !Reserved(it.tag) && 4 * UsedWords(PutItem(items, it)) < WORD32
    ensures var put := PutItem(items, it);
      && Framed(put)
      && var s := Stamped(put); var k := FirstTag(s, it.tag);
        && Framed(s) && Balanced(s) && Generation(s) == Add32(Generation(items), 1) && Inner(s) == Inner(put)
        && k < |s| && s[k] == it
  {
    var put := PutItem(items, it);
    hide *;
    PutIsFound(items, it);
    StampBalances(put);
    FirstTagStamped(put, it.tag);
    StampedKeeps(put, FirstTag(put, it.tag));
  }

  lemma TagIsFound(w: seq<u32>, base: nat, items: seq<Item>, limit: nat, tag: u32)
    requires SegmentAt(w, base, items, limit) && limit <= |w| && tag != END && FirstTag(items, tag) < |items|
    ensures var r := FindAt(w, base, tag, -1, limit);
      && r.Some? && ValidAt(w, r.value, limit) && w[r.value] != END
      && ItemAtWord(w, r.value, limit) == items[FirstTag(items, tag)]
  {
    hide *;
    FindInSegment(w, base, items, limit, tag, -1);
    FoundItem(w, base, items, limit, FirstTag(items, tag));
  }

  lemma WrittenAndSealed(w: seq<u32>, w': seq<u32>, base: nat, limit: nat, items: seq<Item>, tag: u32, data: Bytes)
    requires |data| < WORD32 && !Reserved(tag) && limit < |w|
    requires SegmentAt(w, base, items, limit) && Rewritten(w, w', base, limit, items, MakeItem(tag, data))
    requires Fits(items, MakeItem(tag, data), LastEnd(w, base, base, limit), limit)
    ensures Framed(items)
    ensures var put := PutItem(items, MakeItem(tag, data));
      && Framed(put) && 4 * UsedWords(put) < WORD32 && SegmentAt(w', base, Stamped(put), limit)
    ensures |w'| == |w| && w'[..base] == w[..base]
  {
    var it := MakeItem(tag, data);
    var r :| RewrittenVia(w, r, w', base, limit, items, it);
    hide SegmentAt, Sealed, PutItem, WrittenTo, Fits, LastEnd, Stamped, Enc, MakeItem;
    MadeItem(tag, data);
    ReservedIs(tag);
    WrittenSegment(w, r, base, items, it, limit, LastEnd(w, base, base, limit));
    SealedParts(r, w', base, PutItem(items, it), limit);
  }

  lemma SealedParts(r: seq<u32>, w': seq<u32>, base: nat, items: seq<Item>, limit: nat)
    requires Framed(items) && 4 * UsedWords(items) < WORD32 && Sealed(r, w', base, items, limit)
    ensures SegmentAt(w', base, Stamped(items), limit) && |w'| == |r| && base <= |r| && w'[..base] == r[..base]
  {
  }

  lemma StampedKeeps(items: seq<Item>, k: nat)
    requires Framed(items) && 4 * UsedWords(items) < WORD32 && 0 < k < |items| - 1
    ensures |Stamped(items)| == |items| && Stamped(items)[k] == items[k]
  {
    StampBalances(items);
    assert Inner(Stamped(items))[k - 1] == Inner(items)[k - 1];
  }

  lemma FoundItem(w: seq<u32>, base: nat, items: seq<Item>, limit: nat, k: nat)
    requires SegmentAt(w, base, items, limit) && k < |items| && limit <= |w|
    ensures var q := base + |Enc(items[..k])|;
      ValidAt(w, q, limit) && w[q] != END && ItemAtWord(w, q, limit) == items[k]
  {
    assert ItemOk(items[k]);
    ItemInWords(w, base, items, limit, k);
  }

  /** Writing a tag and reading it again gives the bytes written. */
  method WriteThenRead(block: array<u32>, base: nat, size: nat, tag: u32, data: Bytes)
    returns (rc: Rc, total: nat, back: Bytes)
    requires 1 <= base + size <= block.Length && 4 * block.Length < WORD32
    requires |data| < WORD32 && !Reserved(tag) && (size > 0 ==> Writable(block[..], base, base + size - 1, tag))
    requires size > 0 ==> MovesInside(block[..], base, base + size - 1, tag, data, block.Length)
    modifies block
    ensures rc == Ok ==> back == data
  {
    hide ItemsAt, ChainEnd, Rewritten, Fits, Enc, SegmentAt, FindAt, Framed, Balanced, Stamped, PutItem, Generation, Inner, ValidAt,
         LastEnd, MakeItem, Value;
    back := [];
    ghost var w := block[..];
    rc, total := WriteTlv(block, base, size, tag, data);
    if rc != Ok {
      return;
    }
    FoundIsSegment(w, base, base + size - 1);
    WriteReadsBack(w, block[..], base, base + size - 1, ItemsAt(w, base, base + size - 1), tag, data);
    rc, back := ReadTlv(block, base, size, tag, true);
  }
}
