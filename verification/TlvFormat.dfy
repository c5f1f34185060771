/** The tag/length/value format of NVRAM partitions, as words and as items
    (common/ef10_nvram.c, common/ef10_tlv_layout.h). */
module TlvFormat {
  import opened Options
  import opened Words

  const END: u32 := 0xEEEEEEEE            // TLV_TAG_END
  const HEADER: u32 := 0xEF10DA7A         // TLV_TAG_PARTITION_HEADER
  const TRAILER: u32 := 0xEF101A57        // TLV_TAG_PARTITION_TRAILER
  const LICENSE: u32 := 0x30800000        // TLV_TAG_LICENSE

  /** One item: its length in bytes, and its value as the words that hold it (the bytes of the
      last word beyond the length are padding). */
  datatype Item = Item(tag: u32, len: u32, body: seq<u32>)

  function BodyWords(len: nat): nat {
    (len + 3) / 4
  }

  /** TLV_DWORD_COUNT: tag, length and value. */
  function ItemWords(len: nat): nat {
    2 + BodyWords(len)
  }

  predicate ItemOk(it: Item) {
    it.tag != END && |it.body| == BodyWords(it.len)
  }

  predicate ItemsOk(items: seq<Item>) {
    forall k :: 0 <= k < |items| ==> ItemOk(items[k])
  }

  function EncItem(it: Item): (r: seq<u32>)
    ensures |r| == 2 + |it.body|
  {
    [it.tag, it.len] + it.body
  }

  function Enc(items: seq<Item>): seq<u32> {
    if items == [] then [] else EncItem(items[0]) + Enc(items[1..])
  }

  // ---------------------------------------------------------------- bytes in words

  type Bytes = seq<u8>

  function ByteOf(w: u32, k: nat): u8
    requires k < 4
  {
    if k == 0 then w % 0x100
    else if k == 1 then w / 0x100 % 0x100
    else if k == 2 then w / 0x1_0000 % 0x100
    else w / 0x100_0000 % 0x100
  }

  /** The little-endian word made of up to four bytes, zero padded. */
  function WordOf(b: Bytes): u32
    requires |b| <= 4
  {
    var b0: int := if |b| > 0 then b[0] else 0;
    var b1: int := if |b| > 1 then b[1] else 0;
    var b2: int := if |b| > 2 then b[2] else 0;
    var b3: int := if |b| > 3 then b[3] else 0;
    b0 + 0x100 * b1 + 0x1_0000 * b2 + 0x100_0000 * b3
  }

  /** What tlv_write leaves in the value words: the bytes, zero padded to a whole word. */
  function Pack(data: Bytes): (r: seq<u32>)
    ensures |r| == BodyWords(|data|)
  {
    if data == [] then []
    else if |data| <= 4 then [WordOf(data)]
    else [WordOf(data[..4])] + Pack(data[4..])
  }

  function Unpack(words: seq<u32>): (r: Bytes)
    ensures |r| == 4 * |words|
  {
    if words == [] then []
    else [ByteOf(words[0], 0), ByteOf(words[0], 1), ByteOf(words[0], 2), ByteOf(words[0], 3)] + Unpack(words[1..])
  }

  /** The value bytes of an item, which tlv_value and tlv_length give. */
  function Value(it: Item): Bytes
    requires ItemOk(it)
  {
    Unpack(it.body)[..it.len]
  }

  function MakeItem(tag: u32, data: Bytes): Item
    requires |data| < WORD32
  {
    Item(tag, |data|, Pack(data))
  }

  lemma WordBytes(b: Bytes)
    requires |b| <= 4
    ensures forall k :: 0 <= k < |b| ==> ByteOf(WordOf(b), k) == b[k]
  {
    var b0 := if |b| > 0 then b[0] else 0;
    var b1 := if |b| > 1 then b[1] else 0;
    var b2 := if |b| > 2 then b[2] else 0;
    var b3 := if |b| > 3 then b[3] else 0;
    FourBytes(b0, b1, b2, b3);
  }

  lemma FourBytes(b0: u8, b1: u8, b2: u8, b3: u8)
    ensures var w: u32 := b0 + 0x100 * b1 + 0x1_0000 * b2 + 0x100_0000 * b3;
      ByteOf(w, 0) == b0 && ByteOf(w, 1) == b1 && ByteOf(w, 2) == b2 && ByteOf(w, 3) == b3
  {
    var w: u32 := b0 + 0x100 * b1 + 0x1_0000 * b2 + 0x100_0000 * b3;
    assert w / 0x100 == b1 + 0x100 * b2 + 0x1_0000 * b3;
    assert w / 0x1_0000 == b2 + 0x100 * b3;
    assert w / 0x100_0000 == b3;
  }

  /** Writing a value and reading it back gives the same bytes. */
  lemma {:induction false} PackUnpack(data: Bytes)
    ensures Unpack(Pack(data))[..|data|] == data
  {
    if data == [] {
    } else if |data| <= 4 {
      WordBytes(data);
    } else {
      WordBytes(data[..4]);
      PackUnpack(data[4..]);
      var p := Pack(data);
      assert p[1..] == Pack(data[4..]);
    }
  }

  lemma ItemReadsBack(tag: u32, data: Bytes)
    requires |data| < WORD32 && tag != END
    ensures ItemOk(MakeItem(tag, data)) && Value(MakeItem(tag, data)) == data
  {
    PackUnpack(data);
  }

  // ---------------------------------------------------------------- encodings

  lemma {:induction false} EncConcat(a: seq<Item>, b: seq<Item>)
    ensures Enc(a + b) == Enc(a) + Enc(b)
  {
    if a == [] {
      assert a + b == b;
    } else {
      EncConcat(a[1..], b);
      assert (a + b)[1..] == a[1..] + b;
    }
  }

  lemma EncOne(it: Item)
    ensures Enc([it]) == EncItem(it)
  {
    assert [it][1..] == [];
  }

  // ---------------------------------------------------------------- walking the words

  /** tlv_validate_state: position p is inside the block and, unless it holds END, has room for a
      whole item and another tag. */
  predicate ValidAt(w: seq<u32>, p: int, limit: int) {
    && 0 <= p <= limit && p < |w|
    && (w[p] == END || (p <= limit - 2 && p + 1 < |w| && p + ItemWords(w[p + 1]) <= limit - 1))
  }

  /** tlv_next_item_ptr; the END tag counts as an item of length zero. */
  function NextAt(w: seq<u32>, p: nat): nat
    requires p < |w| && (w[p] != END ==> p + 1 < |w|)
  {
    p + ItemWords(if w[p] == END then 0 else w[p + 1])
  }

  /** The position of the first END of the chain that starts at p, if the chain is sound. */
  function ChainEnd(w: seq<u32>, p: nat, limit: nat): (r: Option<nat>)
    ensures r.Some? ==> p <= r.value <= limit && r.value < |w| && w[r.value] == END
    decreases limit - p
  {
    if !ValidAt(w, p, limit) then None
    else if w[p] == END then Some(p)
    else ChainEnd(w, NextAt(w, p), limit)
  }

  /** tlv_find: the first position with the tag, walking item by item.  Only a known END position
      stops the walk; otherwise it steps over END and goes on. */
  function FindAt(w: seq<u32>, p: nat, tag: u32, end: int, limit: nat): (r: Option<nat>)
    ensures r.Some? ==> p <= r.value <= limit && ValidAt(w, r.value, limit) && w[r.value] == tag
    decreases limit - p
  {
    if !ValidAt(w, p, limit) then None
    else if w[p] == tag then Some(p)
    else if p == end then None
    else FindAt(w, NextAt(w, p), tag, end, limit)
  }

  /** tlv_last_segment_end: the END of the last sound segment, segments following each other. */
  function LastEnd(w: seq<u32>, start: nat, last: nat, limit: nat): nat
    decreases limit + 1 - start
  {
    match ChainEnd(w, start, limit)
    case None => last
    case Some(e) => LastEnd(w, e + 1, e, limit)
  }

  /** The items of a sound chain. */
  function ItemsAt(w: seq<u32>, p: nat, limit: nat): (r: seq<Item>)
    requires ChainEnd(w, p, limit).Some?
    ensures ItemsOk(r)
    decreases limit - p
  {
    if w[p] == END then []
    else [Item(w[p], w[p + 1], w[p + 2..NextAt(w, p)])] + ItemsAt(w, NextAt(w, p), limit)
  }

  /** A segment in the words: the items, then END. */
  ghost predicate SegmentAt(w: seq<u32>, p: nat, items: seq<Item>, limit: nat) {
    && ItemsOk(items) && p + |Enc(items)| < |w|
    && p + |Enc(items)| <= (if items == [] then limit else limit - 1)
    && w[p..p + |Enc(items)| + 1] == Enc(items) + [END]
  }

  lemma SliceOfSlice<T>(s: seq<T>, lo: nat, hi: nat, i: nat, j: nat)
    requires lo <= hi <= |s| && i <= j <= hi - lo
    ensures s[lo..hi][i..j] == s[lo + i..lo + j]
  {
    var a, b := s[lo..hi][i..j], s[lo + i..lo + j];
    assert |a| == |b|;
    forall k | 0 <= k < |a|
      ensures a[k] == b[k]
    {
    }
  }

  lemma {:induction false} SegmentCons(w: seq<u32>, p: nat, items: seq<Item>, limit: nat)
    requires items != [] && SegmentAt(w, p, items, limit)
    ensures ValidAt(w, p, limit) && w[p] == items[0].tag && NextAt(w, p) == p + |EncItem(items[0])|
    ensures w[p + 1] == items[0].len && w[p + 2..NextAt(w, p)] == items[0].body
    ensures SegmentAt(w, NextAt(w, p), items[1..], limit)
  {
    var e := Enc(items);
    var it := items[0];
    var v := w[p..p + |e| + 1];
    assert ItemOk(it);
    assert e == EncItem(it) + Enc(items[1..]);
    assert v == EncItem(it) + (Enc(items[1..]) + [END]);
    assert v[0] == it.tag && v[1] == it.len;
    assert w[p] == v[0] && w[p + 1] == v[1];
    var n := |EncItem(it)|;
    assert v[2..n] == it.body;
    SliceOfSlice(w, p, p + |e| + 1, 2, n);
    SliceOfSlice(w, p, p + |e| + 1, n, |v|);
    assert v[n..] == Enc(items[1..]) + [END];
  }

  lemma SegmentNil(w: seq<u32>, p: nat, limit: nat)
    requires SegmentAt(w, p, [], limit)
    ensures ValidAt(w, p, limit) && w[p] == END
  {
    assert w[p..p + 1][0] == END;
  }

  /** A segment in the words is what the walk finds. */
  lemma {:induction false} SegmentIsFound(w: seq<u32>, p: nat, items: seq<Item>, limit: nat)
    requires SegmentAt(w, p, items, limit)
    ensures ChainEnd(w, p, limit) == Some(p + |Enc(items)|) && ItemsAt(w, p, limit) == items
    decreases |items|
  {
    if items == [] {
      SegmentNil(w, p, limit);
    } else {
      SegmentCons(w, p, items, limit);
      SegmentIsFound(w, NextAt(w, p), items[1..], limit);
      assert items[0] == Item(items[0].tag, items[0].len, items[0].body);
      assert items == [items[0]] + items[1..];
    }
  }

  /** And every chain the walk finds is a segment in the words. */
  lemma {:induction false} FoundIsSegment(w: seq<u32>, p: nat, limit: nat)
    requires ChainEnd(w, p, limit).Some?
    ensures SegmentAt(w, p, ItemsAt(w, p, limit), limit)
    ensures ChainEnd(w, p, limit) == Some(p + |Enc(ItemsAt(w, p, limit))|)
    decreases limit - p
  {
    if w[p] == END {
      assert w[p..p + 1] == [END];
    } else {
      var n := NextAt(w, p);
      FoundIsSegment(w, n, limit);
      var rest := ItemsAt(w, n, limit);
      var first := Item(w[p], w[p + 1], w[p + 2..n]);
      assert ItemsAt(w, p, limit) == [first] + rest;
      ConsSegment(w, p, first, rest, limit);
    }
  }

  lemma ConsSegment(w: seq<u32>, p: nat, first: Item, rest: seq<Item>, limit: nat)
    requires ValidAt(w, p, limit) && w[p] != END
    requires SegmentAt(w, NextAt(w, p), rest, limit) && first == Item(w[p], w[p + 1], w[p + 2..NextAt(w, p)])
    ensures SegmentAt(w, p, [first] + rest, limit)
    ensures |Enc([first] + rest)| == NextAt(w, p) - p + |Enc(rest)|
  {
    var n := NextAt(w, p);
    EncFirst(first, rest);
    assert w[p..n] == EncItem(first);
    var e := n + |Enc(rest)|;
    JoinSlices(w, p, n, e + 1);
    assert w[p..e + 1] == EncItem(first) + (Enc(rest) + [END]);
    assert w[p..e + 1] == (EncItem(first) + Enc(rest)) + [END];
  }

  lemma EncFirst(it: Item, rest: seq<Item>)
    ensures Enc([it] + rest) == EncItem(it) + Enc(rest)
  {
    assert ([it] + rest)[1..] == rest;
  }

  lemma JoinSlices<T>(s: seq<T>, lo: nat, mid: nat, hi: nat)
    requires lo <= mid <= hi <= |s|
    ensures s[lo..hi] == s[lo..mid] + s[mid..hi]
  {
  }
}
