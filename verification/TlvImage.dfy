/** What a partition segment means as a list of items: its header and trailer, its checksum, and
    adding or replacing an item (common/ef10_nvram.c, common/ef10_tlv_layout.h). */
module TlvImage {
  import opened Options
  import opened Words
  import opened TlvFormat
  import opened TlvSplice

  // ---------------------------------------------------------------- word sums

  function Total(s: seq<u32>): (r: nat)
  {
    if s == [] then 0 else s[0] + Total(s[1..])
  }

  /** The 32-bit sum that the checksum loops compute. */
  function WordSum(s: seq<u32>): u32 {
    Wrap32(Total(s))
  }

  lemma {:induction false} TotalConcat(a: seq<u32>, b: seq<u32>)
    ensures Total(a + b) == Total(a) + Total(b)
  {
    if a == [] {
      assert a + b == b;
    } else {
      TotalConcat(a[1..], b);
      assert (a + b)[1..] == a[1..] + b;
    }
  }

  lemma TotalSnoc(s: seq<u32>, x: u32)
    ensures Total(s + [x]) == Total(s) + x
  {
    TotalConcat(s, [x]);
    assert [x][1..] == [];
  }

  function Negate(x: int): u32 {
    Wrap32(-x)
  }

  /** The checksum that makes a sum with that checksum counted in come to zero; both ways of
      computing it (from the sum without it, or by correcting an old one) agree. */
  lemma ChecksumCloses(rest: int, oldSum: u32)
    ensures Wrap32(rest + Negate(rest)) == 0
    ensures Sub32(oldSum, Wrap32(rest + oldSum)) == Negate(rest) && Negate(Wrap32(rest)) == Negate(rest)
  {
    var k := (rest + oldSum) / WORD32;
    assert Wrap32(rest + oldSum) == rest + oldSum - WORD32 * k;
    assert oldSum - Wrap32(rest + oldSum) == -rest + WORD32 * k;
    WrapMultiple(-rest, k);
    assert 0 - Wrap32(rest) == -rest + WORD32 * (rest / WORD32);
    WrapMultiple(-rest, rest / WORD32);
    var m := (-rest) / WORD32;
    assert Negate(rest) == -rest - WORD32 * m;
    assert rest + Negate(rest) == 0 + WORD32 * (-m);
    WrapMultiple(0, -m);
  }

  // ---------------------------------------------------------------- header and trailer

  const HEADER_LEN := 12
  const TRAILER_LEN := 8

  function Header(kind: u32, generation: u32, total: u32): Item {
    Item(HEADER, HEADER_LEN, [kind, generation, total])
  }

  function Trailer(generation: u32, checksum: u32): Item {
    Item(TRAILER, TRAILER_LEN, [generation, checksum])
  }

  /** A segment that is framed by a header and a trailer of the right size, with neither inside. */
  predicate Framed(items: seq<Item>) {
    && ItemsOk(items) && |items| >= 2
    && items[0].tag == HEADER && items[0].len == HEADER_LEN
    && items[|items| - 1].tag == TRAILER && items[|items| - 1].len == TRAILER_LEN
    && forall k :: 0 < k < |items| - 1 ==> !Reserved(items[k].tag)
  }

  predicate Reserved(tag: u32) {
    tag == HEADER || tag == TRAILER || tag == END
  }

  function Inner(items: seq<Item>): seq<Item>
    requires |items| >= 2
  {
    items[1..|items| - 1]
  }

  function Generation(items: seq<Item>): u32
    requires Framed(items)
  {
    items[0].body[1]
  }

  /** Words used by a segment, with its END. */
  function UsedWords(items: seq<Item>): nat {
    |Enc(items)| + 1
  }

  /** The segment's own bookkeeping holds: the length is the bytes used, both generations agree and
      the words sum to zero. */
  predicate Balanced(items: seq<Item>)
    requires Framed(items)
  {
    && items[0].body[2] == 4 * UsedWords(items)
    && items[|items| - 1].body[0] == Generation(items)
    && WordSum(Enc(items) + [END]) == 0
  }

  function Frame(kind: u32, generation: u32, total: u32, mid: seq<Item>, checksum: u32): seq<Item> {
    [Header(kind, generation, total)] + mid + [Trailer(generation, checksum)]
  }

  /** The sum of everything but the checksum. */
  function RestSum(kind: u32, generation: u32, total: u32, mid: seq<Item>): nat {
    Total(EncItem(Header(kind, generation, total)) + Enc(mid) + [TRAILER, TRAILER_LEN, generation, END])
  }

  /** The segment with its bookkeeping brought up to date. */
  function Stamped(items: seq<Item>): seq<Item>
    requires Framed(items) && 4 * UsedWords(items) < WORD32
  {
    var kind, generation, total := items[0].body[0], Add32(Generation(items), 1), 4 * UsedWords(items);
    Frame(kind, generation, total, Inner(items), Negate(RestSum(kind, generation, total, Inner(items))))
  }

  lemma EncFrame(h: Item, mid: seq<Item>, t: Item)
    ensures Enc([h] + mid + [t]) == EncItem(h) + Enc(mid) + EncItem(t)
  {
    EncConcat([h] + mid, [t]);
    EncConcat([h], mid);
    EncOne(h);
    EncOne(t);
  }

  lemma FramedEnds(items: seq<Item>)
    requires Framed(items)
    ensures |items| >= 2 && items == [items[0]] + Inner(items) + [items[|items| - 1]] && ItemsOk(Inner(items))
    ensures |EncItem(items[0])| == 5 && |EncItem(items[|items| - 1])| == 4
  {
    hide Reserved;
    assert ItemOk(items[0]) && ItemOk(items[|items| - 1]);
  }

  lemma FramedParts(items: seq<Item>)
    requires Framed(items)
    ensures items == [items[0]] + Inner(items) + [items[|items| - 1]] && ItemsOk(Inner(items))
    ensures Enc(items) == EncItem(items[0]) + Enc(Inner(items)) + EncItem(items[|items| - 1])
    ensures |Enc(items)| == |Enc(Inner(items))| + 9
  {
    hide *;
    FramedEnds(items);
    EncFrame(items[0], Inner(items), items[|items| - 1]);
  }

  lemma FrameSum(kind: u32, generation: u32, total: u32, mid: seq<Item>, checksum: u32)
    ensures Total(Enc(Frame(kind, generation, total, mid, checksum)) + [END]) == RestSum(kind, generation, total, mid) + checksum
  {
    var h := EncItem(Header(kind, generation, total));
    var m := Enc(mid);
    EncFrame(Header(kind, generation, total), mid, Trailer(generation, checksum));
    assert Enc(Frame(kind, generation, total, mid, checksum)) + [END] == h + m + [TRAILER, TRAILER_LEN, generation, checksum, END];
    TotalConcat(h + m, [TRAILER, TRAILER_LEN, generation, checksum, END]);
    TotalConcat(h + m, [TRAILER, TRAILER_LEN, generation, END]);
    FiveWords(TRAILER, TRAILER_LEN, generation, checksum, END);
  }

  lemma FiveWords(a: u32, b: u32, c: u32, d: u32, e: u32)
    ensures Total([a, b, c, d, e]) == a + b + c + d + e && Total([a, b, c, e]) == a + b + c + e
  {
    assert [e][1..] == [] && [d, e][1..] == [e] && [c, e][1..] == [e];
    assert Total([e]) == e && Total([d, e]) == d + e && Total([c, e]) == c + e;
    assert [c, d, e][1..] == [d, e] && [b, c, e][1..] == [c, e];
    assert Total([c, d, e]) == c + d + e && Total([b, c, e]) == b + c + e;
    assert [b, c, d, e][1..] == [c, d, e] && [a, b, c, e][1..] == [b, c, e];
    assert Total([b, c, d, e]) == b + c + d + e;
    assert [a, b, c, d, e][1..] == [b, c, d, e];
  }

  /** Stamping keeps the items between header and trailer, raises both generations by one and leaves
      the bookkeeping in balance. */
  lemma StampBalances(items: seq<Item>)
    requires Framed(items) && 4 * UsedWords(items) < WORD32
    ensures var s := Stamped(items);
      && Framed(s) && Balanced(s) && UsedWords(s) == UsedWords(items)
      && Inner(s) == Inner(items) && Generation(s) == Add32(Generation(items), 1)
      && s[0].body[0] == items[0].body[0]
  {
    FramedParts(items);
    var s := Stamped(items);
    var mid := Inner(items);
    var kind, generation, total := items[0].body[0], Add32(Generation(items), 1), 4 * UsedWords(items);
    var rest := RestSum(kind, generation, total, mid);
    assert Inner(s) == mid;
    forall k | 0 < k < |s| - 1
      ensures ItemOk(s[k]) && !Reserved(s[k].tag)
    {
      assert s[k] == items[k];
    }
    FramedParts(s);
    FrameSum(kind, generation, total, mid, Negate(rest));
    ChecksumCloses(rest, 0);
  }

  // ---------------------------------------------------------------- items by tag

  /** The index of the first item with the tag, or the number of items. */
  function FirstTag(items: seq<Item>, tag: u32): (k: nat)
    ensures k <= |items| && (k < |items| ==> items[k].tag == tag)
    ensures forall j :: 0 <= j < k ==> items[j].tag != tag
  {
    if items == [] || items[0].tag == tag then 0 else 1 + FirstTag(items[1..], tag)
  }

  /** Replace the first item with the tag, or add one before the trailer. */
  function PutItem(items: seq<Item>, it: Item): seq<Item>
    requires |items| >= 1
  {
    var k := FirstTag(items, it.tag);
    if k < |items| then items[..k] + [it] + items[k + 1..]
    else items[..|items| - 1] + [it] + items[|items| - 1..]
  }

  lemma FirstTagIs(items: seq<Item>, tag: u32, k: nat)
    requires k < |items| && items[k].tag == tag && forall j :: 0 <= j < k ==> items[j].tag != tag
    ensures FirstTag(items, tag) == k
  {
    hide FirstTag;
    var f := FirstTag(items, tag);
    assert f <= k;
  }

  lemma PutOver(items: seq<Item>, it: Item)
    requires FirstTag(items, it.tag) < |items|
    ensures var k := FirstTag(items, it.tag); var r := PutItem(items, it);
      r == items[..k] + [it] + items[k + 1..] && FirstTag(r, it.tag) == k && r[k] == it
  {
    hide FirstTag;
    var k := FirstTag(items, it.tag);
    FirstTagIs(PutItem(items, it), it.tag, k);
  }

  lemma PutNew(items: seq<Item>, it: Item)
    requires |items| >= 1 && FirstTag(items, it.tag) == |items|
    ensures var n := |items| - 1; var r := PutItem(items, it);
      r == items[..n] + [it] + items[n..] && FirstTag(r, it.tag) == n && r[n] == it
  {
    hide FirstTag;
    FirstTagIs(PutItem(items, it), it.tag, |items| - 1);
  }

  lemma StaysFramed(items: seq<Item>, k: nat, drop: nat, it: Item)
    requires Framed(items) && 0 < k && k + drop < |items| && ItemOk(it) && !Reserved(it.tag)
    ensures var r := items[..k] + [it] + items[k + drop..];
      Framed(r) && Generation(r) == Generation(items) && r[0] == items[0] && r[|r| - 1] == items[|items| - 1]
  {
    var r := items[..k] + [it] + items[k + drop..];
    forall j | 0 <= j < |r|
      ensures r[j] == if j < k then items[j] else if j == k then it else items[j - 1 + drop]
    {
    }
  }

  /** A written item is found again, every other item keeps its order and value, and the frame stays. */
  lemma PutIsFound(items: seq<Item>, it: Item)
    requires Framed(items) && ItemOk(it) && !Reserved(it.tag)
    ensures var r := PutItem(items, it); var k := FirstTag(r, it.tag);
      && Framed(r) && 0 < k < |r| - 1 && r[k] == it && Generation(r) == Generation(items)
      && r[0] == items[0] && r[|r| - 1] == items[|items| - 1]
      && ((k < |items| - 1 && items[k].tag == it.tag && r == items[..k] + [it] + items[k + 1..])
          || (k == |items| - 1 && FirstTag(items, it.tag) == |items| && r == items[..k] + [it] + items[k..]))
  {
    var k := FirstTag(items, it.tag);
    if k < |items| {
      assert 0 < k < |items| - 1;
      hide *;
      PutOver(items, it);
      StaysFramed(items, k, 1, it);
    } else {
      assert |items| >= 2;
      hide *;
      PutNew(items, it);
      StaysFramed(items, |items| - 1, 0, it);
    }
  }

  lemma FirstTagStamped(items: seq<Item>, tag: u32)
    requires Framed(items) && 4 * UsedWords(items) < WORD32
    ensures FirstTag(Stamped(items), tag) == FirstTag(items, tag)
  {
    var s := Stamped(items);
    StampBalances(items);
    forall k | 0 <= k < |items|
      ensures s[k].tag == items[k].tag
    {
      if 0 < k < |items| - 1 {
        assert s[k] == Inner(s)[k - 1] && items[k] == Inner(items)[k - 1];
      }
    }
  }

  // ---------------------------------------------------------------- items in the words

  lemma {:induction false} EncTake(items: seq<Item>, k: nat)
    requires 0 < k <= |items|
    ensures Enc(items[..k]) == EncItem(items[0]) + Enc(items[1..][..k - 1])
  {
    assert items[..k][1..] == items[1..][..k - 1];
  }

  /** Item k of a segment in the words. */
  lemma {:induction false} ItemInWords(w: seq<u32>, p: nat, items: seq<Item>, limit: nat, k: nat)
    requires SegmentAt(w, p, items, limit) && k < |items|
    ensures var q := p + |Enc(items[..k])|;
      && ValidAt(w, q, limit) && w[q] == items[k].tag && w[q + 1] == items[k].len
      && NextAt(w, q) == p + |Enc(items[..k + 1])| == q + |EncItem(items[k])| <= p + |Enc(items)|
      && w[q + 2..NextAt(w, q)] == items[k].body
      && ValidAt(w, NextAt(w, q), limit)
    decreases k
  {
    hide SegmentAt, ValidAt, NextAt, EncItem, ItemOk;
    SegmentCons(w, p, items, limit);
    var n := NextAt(w, p);
    EncTake(items, k + 1);
    assert items[..0] == [];
    if k == 0 {
      if items[1..] == [] {
        SegmentNil(w, n, limit);
      } else {
        SegmentCons(w, n, items[1..], limit);
      }
    } else {
      EncTake(items, k);
      ItemInWords(w, n, items[1..], limit, k - 1);
    }
  }

  lemma NextOfEnd(w: seq<u32>, p: nat)
    ensures p < |w| && w[p] == END ==> NextAt(w, p) == p + 2
  {
  }

  /** Where tlv_find arrives: at the first item with the tag, or, with no known end, wherever the walk
      over the words two behind END leads. */
  lemma {:induction false} FindInSegment(w: seq<u32>, p: nat, items: seq<Item>, limit: nat, tag: u32, end: int)
    requires SegmentAt(w, p, items, limit) && tag != END && (end == -1 || end == p + |Enc(items)|)
    ensures var k := FirstTag(items, tag); var e := p + |Enc(items)|;
      FindAt(w, p, tag, end, limit) ==
        if k < |items| then Some(p + |Enc(items[..k])|)
        else if end == e then None
        else FindAt(w, e + 2, tag, end, limit)
    decreases |items|
  {
    hide SegmentAt, ValidAt, NextAt, EncItem, ItemOk;
    if items == [] {
      SegmentNil(w, p, limit);
      NextOfEnd(w, p);
    } else {
      SegmentCons(w, p, items, limit);
      var k := FirstTag(items, tag);
      assert items[..0] == [];
      if k != 0 {
        FindInSegment(w, NextAt(w, p), items[1..], limit, tag, end);
        if k < |items| {
          EncTake(items, k);
        }
      }
    }
  }

  /** Behind the segment's END the walk does not meet the tag. */
  ghost predicate NoStray(w: seq<u32>, e: nat, tag: u32, limit: nat) {
    FindAt(w, e + 2, tag, -1, limit) == None
  }

  /** It cannot, when no word there equals the tag: a zero tail, say, and a tag that is not zero. */
  lemma {:induction false} ForeignTailIsClean(w: seq<u32>, q: nat, tag: u32, end: int, limit: nat)
    requires forall k :: q <= k <= limit && k < |w| ==> w[k] != tag
    ensures FindAt(w, q, tag, end, limit) == None
    decreases limit - q
  {
    if ValidAt(w, q, limit) && q != end {
      ForeignTailIsClean(w, NextAt(w, q), tag, end, limit);
    }
  }
}
