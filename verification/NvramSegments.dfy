/** Rewriting a partition of several segments: reading each, checking it, writing an item to it and
    packing the results one after another (common/ef10_nvram.c:1109-1230, 1384-1481, 1616-1772). */
module NvramSegments {
  import opened Options
  import opened Words
  import opened TlvFormat
  import opened TlvSplice
  import opened TlvCursor
  import opened TlvImage
  import opened NvramBuffer
  import opened NvramTlv

  const CHUNK := 32                        // EF10_NVRAM_CHUNK, in words

  lemma ChunkIs()
    ensures CHUNK == 32
  {
  }

  function Max(x: nat, y: nat): (r: nat)
    ensures x <= r && y <= r && (r == x || r == y)
  {
    if x < y then y else x
  }

  // ---------------------------------------------------------------- reading a segment

  /** The words that reading the segment at offset takes: the first chunk, and the rest that its
      header announces. */
  function ReadWords(part: seq<u32>, offset: nat): nat
    requires offset + CHUNK <= |part|
  {
    Max(CHUNK, BodyWords(part[offset + 4]))
  }

  /** Both reads stay inside the partition. */
  predicate Readable(part: seq<u32>, offset: nat) {
    offset + CHUNK <= |part| && offset + ReadWords(part, offset) <= |part|
  }

  /** There is memory, in the buffer or behind it, for all that is left of the partition. */
  predicate HasMemory(w: seq<u32>, part: seq<u32>, offset: nat, pos: nat) {
    offset <= |part| && pos + |part| - offset <= |w|
  }

  /** The buffer once the segment has been read into it. */
  ghost function ReadInto(w: seq<u32>, part: seq<u32>, offset: nat, pos: nat): seq<u32>
    requires Readable(part, offset) && HasMemory(w, part, offset, pos)
  {
    WrittenWords(w, pos, part[offset..offset + ReadWords(part, offset)])
  }

  /** The first chunk announces a segment that fits what is left of the partition. */
  predicate Announces(part: seq<u32>, offset: nat)
    requires offset + CHUNK <= |part|
  {
    var size := |part| - offset;
    part[offset] == HEADER && ItemWords(part[offset + 1]) <= size - 2 && part[offset + 4] <= 4 * size
  }

  /** How many words are read at offset, when ok is what the firmware makes of the two reads: none, the first
      chunk, or all that the header announces. */
  function Fetched(part: seq<u32>, offset: nat, ok: (bool, bool)): (n: nat)
    ensures offset + n <= |part| || n == 0
  {
    if !ok.0 || offset + CHUNK > |part| then 0
    else if Announces(part, offset) && ok.1 && Readable(part, offset) then ReadWords(part, offset)
    else CHUNK
  }

  /** Words before lo and from hi on are the same. */
  ghost predicate Outside(w: seq<u32>, w': seq<u32>, lo: nat, hi: nat) {
    |w'| == |w| && forall k :: 0 <= k < |w| && (k < lo || hi <= k) ==> w'[k] == w[k]
  }

  lemma OutsideTrans(w: seq<u32>, v: seq<u32>, u: seq<u32>, lo: nat, lo': nat, hi: nat, hi': nat)
    ensures Outside(w, v, lo, hi) && Outside(v, u, lo', hi') && lo <= lo' ==> Outside(w, u, lo, Max(hi, hi'))
  {
  }

  lemma OutsideSame(w: seq<u32>, lo: nat, hi: nat)
    ensures Outside(w, w, lo, hi)
  {
  }

  /** ef10_nvram_partn_read_mode: a read that fails leaves the memory alone.  Nothing compares the end of the
      words written with that of the buffer. */
  method ReadPartition(part: seq<u32>, offset: nat, block: array<u32>, pos: nat, n: nat, ok: bool) returns (rc: Rc)
    requires offset + n <= |part| ==> pos + n <= block.Length
    modifies block
    ensures rc == Ok <==> ok && offset + n <= |part|
    ensures rc == Ok ==> block[..] == WrittenWords(old(block[..]), pos, part[offset..offset + n])
    ensures rc != Ok ==> block[..] == old(block[..])
  {
    if !ok || offset + n > |part| {
      return EIO;
    }
    forall k | 0 <= k < n {
      block[pos + k] := part[offset + k];
    }
    return Ok;
  }

  /** The header announces a segment that fits the size words. */
  ghost predicate HeaderOk(w: seq<u32>, pos: nat, size: nat) {
    && 1 <= size && pos + size <= |w| && pos + 5 <= |w|
    && ValidAt(w, pos, pos + size - 1) && w[pos] == HEADER && w[pos + 4] <= 4 * size
  }

  /** The checks on a segment that has been read: trailer, generations, checksum. */
  method CheckSegment(block: array<u32>, pos: nat, size: nat) returns (rc: Rc)
    requires HeaderOk(block[..], pos, size)
    ensures rc == Ok <==> Accepted(block[..], pos, size)
  {
    hide FindAt, WordSum, ValidAt;
    var c := new Cursor(block, pos, pos + size - 1, pos);
    var t;
    rc, t := TrailerThenEnd(c);
    if rc != Ok {
      return EINVAL;
    }
    if block[t + 2] != block[pos + 3] {
      return EAGAIN;
    }
    var sum := SumWords(block, pos, BodyWords(block[pos + 4]));
    if sum != 0 {
      return EINVAL;
    }
    return Ok;
  }

  lemma AcceptedHeader(w: seq<u32>, pos: nat, size: nat)
    ensures Accepted(w, pos, size) ==> HeaderOk(w, pos, size)
  {
  }

  /** The header lies in the first chunk. */
  lemma HeaderInChunk(w: seq<u32>, part: seq<u32>, offset: nat, pos: nat, size: nat)
    requires offset + CHUNK <= |part| && HasMemory(w, part, offset, pos) && size == |part| - offset
    ensures var r := WrittenWords(w, pos, part[offset..offset + CHUNK]);
      && r[pos + 4] == part[offset + 4] && (HeaderOk(r, pos, size) <==> Announces(part, offset))
      && (Announces(part, offset) ==> Readable(part, offset))
      && (Readable(part, offset) ==> (HeaderOk(ReadInto(w, part, offset, pos), pos, size) <==> Announces(part, offset)))
      && (Readable(part, offset) && part[offset + 4] <= 4 * CHUNK ==> r == ReadInto(w, part, offset, pos))
  {
    var r := WrittenWords(w, pos, part[offset..offset + CHUNK]);
    assert HEADER != END;
    if Readable(part, offset) {
      var r' := ReadInto(w, part, offset, pos);
      assert forall k :: pos <= k < pos + CHUNK ==> r'[k] == r[k] == part[offset + k - pos];
    }
  }

  /** Reading the rest behind the chunk completes the segment. */
  lemma ChunkThenRest(w: seq<u32>, part: seq<u32>, offset: nat, pos: nat)
    requires Readable(part, offset) && HasMemory(w, part, offset, pos)
    ensures var n := ReadWords(part, offset);
      WrittenWords(WrittenWords(w, pos, part[offset..offset + CHUNK]), pos + CHUNK, part[offset + CHUNK..offset + n])
        == ReadInto(w, part, offset, pos)
  {
    var n := ReadWords(part, offset);
    assert part[offset..offset + n] == part[offset..offset + CHUNK] + part[offset + CHUNK..offset + n];
  }

  /** Outside the words that are read into it the memory keeps its words. */
  lemma WrittenOutside(w: seq<u32>, pos: nat, s: seq<u32>)
    requires pos + |s| <= |w|
    ensures Outside(w, WrittenWords(w, pos, s), pos, pos + |s|)
  {
  }

  /** ef10_nvram_read_tlv_segment into the size words at pos, of which the last may lie behind the buffer;
      ok is what the firmware makes of the two reads. */
  method ReadSegment(part: seq<u32>, offset: nat, block: array<u32>, pos: nat, size: nat, ok: (bool, bool))
    returns (rc: Rc)
    requires HasMemory(block[..], part, offset, pos) && size == |part| - offset && pos + 5 <= block.Length
    modifies block
    ensures rc == Ok <==> (size > 0 && ok.0 && Readable(part, offset) && (ReadWords(part, offset) > CHUNK ==> ok.1)
      && Accepted(ReadInto(old(block[..]), part, offset, pos), pos, size))
    ensures rc == Ok ==> block[..] == ReadInto(old(block[..]), part, offset, pos)
    ensures block[..] == WrittenWords(old(block[..]), pos, part[offset..offset + Fetched(part, offset, ok)])
  {
    hide Accepted, HeaderOk, WrittenWords, Announces;
    ghost var w := block[..];
    WriteNothing(w, pos, part[offset..offset]);
    if size == 0 {
      return EINVAL;
    }
    rc := ReadPartition(part, offset, block, pos, CHUNK, ok.0);
    if rc != Ok {
      return;
    }
    HeaderInChunk(w, part, offset, pos, size);
    rc := CheckHeader(block, pos, size);
    if rc != Ok {
      if Readable(part, offset) {
        AcceptedHeader(ReadInto(w, part, offset, pos), pos, size);
      }
      return;
    }
    var n := BodyWords(block[pos + 4]);
    if n > CHUNK {
      rc := ReadPartition(part, offset + CHUNK, block, pos + CHUNK, n - CHUNK, ok.1);
      if rc != Ok {
        return;
      }
      ChunkThenRest(w, part, offset, pos);
    }
    rc := CheckSegment(block, pos, size);
  }

  lemma WriteNothing(w: seq<u32>, pos: nat, s: seq<u32>)
    ensures pos <= |w| && s == [] ==> WrittenWords(w, pos, s) == w
  {
  }

  method CheckHeader(block: array<u32>, pos: nat, size: nat) returns (rc: Rc)
    requires 1 <= size && pos + size <= block.Length && pos + 5 <= block.Length
    ensures rc == Ok <==> HeaderOk(block[..], pos, size)
    ensures rc == EFAULT <==> !ValidAt(block[..], pos, pos + size - 1)
    ensures rc == EFBIG <==> ValidAt(block[..], pos, pos + size - 1) && block[pos] == HEADER && block[pos + 4] > 4 * size
    ensures rc in {Ok, EFAULT, EFBIG, EINVAL}
  {
    var c := new Cursor(block, pos, pos + size - 1, pos);
    rc := c.ValidateState();
    if rc != Ok {
      return EFAULT;
    }
    if block[pos] != HEADER {
      return EINVAL;
    }
    if block[pos + 4] > 4 * size {
      return EFBIG;
    }
  }

  // ---------------------------------------------------------------- the size of a segment

  predicate LacksHeader(items: seq<Item>) {
    forall k :: 0 <= k < |items| ==> items[k].tag != HEADER
  }

  /** What ef10_nvram_buf_segment_size accepts.  The position of the trailer is not compared with the
      END of the chain in the end: that check leaves with return code 0 (common/ef10_nvram.c:1463-1467). */
  ghost predicate SizeAccepted(w: seq<u32>, base: nat, n: nat) {
    && 1 <= n && FindAt(w, base, TRAILER, -1, base + n - 1).Some?
    && FramedAt(w, base, n, FindAt(w, base, TRAILER, -1, base + n - 1).value)
    && WordSum(w[base..base + BodyWords(w[base + 4])]) == 0
    && ChainEnd(w, base, base + n - 1).Some?
    && w[base + 4] == 4 * UsedWords(ItemsAt(w, base, base + n - 1))
    && LacksHeader(ItemsAt(w, base, base + n - 1)[1..])
  }

  lemma ChainStep(w: seq<u32>, p: nat, limit: nat)
    requires ValidAt(w, p, limit) && w[p] != END
    ensures var q := NextAt(w, p); q > p && ChainEnd(w, q, limit) == ChainEnd(w, p, limit)
    ensures ChainEnd(w, p, limit).Some? ==>
      ItemsAt(w, p, limit) != [] && ItemsAt(w, p, limit)[0].tag == w[p] && ItemsAt(w, p, limit)[1..] == ItemsAt(w, NextAt(w, p), limit)
  {
  }

  lemma ChainStop(w: seq<u32>, p: nat, limit: nat)
    ensures ChainEnd(w, p, limit).Some? ==> w[ChainEnd(w, p, limit).value] == END
    ensures ValidAt(w, p, limit) && w[p] == END ==>
      ChainEnd(w, p, limit) == Some(p) && ItemsAt(w, p, limit) == [] && LacksHeader([])
  {
  }

  lemma LacksFirst(items: seq<Item>)
    requires items != []
    ensures LacksHeader(items) <==> items[0].tag != HEADER && LacksHeader(items[1..])
  {
    if items[0].tag != HEADER && LacksHeader(items[1..]) {
      assert forall k :: 0 < k < |items| ==> items[k] == items[1..][k - 1];
    }
    if LacksHeader(items) {
      assert forall k :: 0 <= k < |items| - 1 ==> items[1..][k] == items[k + 1];
    }
  }

  /** The last walk of ef10_nvram_buf_segment_size: no second header before END. */
  method CheckOneHeader(c: Cursor, endTag: nat) returns (rc: Rc)
    requires c.Sound() && c.limit < c.block.Length && c.EndOk() && c.base < c.block.Length
    requires ValidAt(c.W(), c.base, c.limit) && c.W()[c.base] == HEADER
    modifies c`current
    ensures rc == Ok <==> c.FirstEnd().Some? && LacksHeader(ItemsAt(c.W(), c.base, c.limit)[1..])
    ensures rc != EFBIG
  {
    hide LacksHeader, ChainEnd, ItemsAt;
    ghost var w := c.W();
    TagsDiffer();
    ChainStep(w, c.base, c.limit);
    rc := c.Rewind();
    ChainStop(w, c.base, c.limit);
    rc := c.Advance();
    if rc != Ok {
      ChainIsValid(w, NextAt(w, c.base), c.limit);
    }
    while rc == Ok
      invariant rc == Ok ==> c.base <= c.current && ValidAt(w, c.current, c.limit)
      invariant rc == Ok ==> ChainEnd(w, c.current, c.limit) == ChainEnd(w, c.base, c.limit)
      invariant rc == Ok && ChainEnd(w, c.base, c.limit).Some? ==>
        (LacksHeader(ItemsAt(w, c.base, c.limit)[1..]) <==> LacksHeader(ItemsAt(w, c.current, c.limit)))
      invariant rc != Ok ==> ChainEnd(w, c.base, c.limit) == None && rc != EFBIG
      decreases rc == Ok, c.limit - c.current
    {
      if c.block[c.current] == END {
        ChainStop(w, c.current, c.limit);
        if c.current != endTag {
          return Ok;
        }
        break;
      }
      ghost var p := c.current;
      ChainStep(w, p, c.limit);
      if c.FirstEnd().Some? {
        LacksFirst(ItemsAt(w, p, c.limit));
      }
      if c.block[c.current] == HEADER {
        return EINVAL;
      }
      rc := c.Advance();
      if rc != Ok {
        ChainIsValid(w, NextAt(w, p), c.limit);
      }
    }
  }

  lemma UsedIsEnd(w: seq<u32>, base: nat, limit: nat)
    requires limit < |w|
    ensures ChainEnd(w, base, limit).Some? ==> (var e := ChainEnd(w, base, limit).value;
      base <= e <= limit && UsedWords(ItemsAt(w, base, limit)) == e + 1 - base)
  {
    if ChainEnd(w, base, limit).Some? {
      FoundIsSegment(w, base, limit);
    }
  }

  /** The last checks: the chain has the stated length, and only one header. */
  method CheckUsed(c: Cursor, n: nat, size: nat) returns (rc: Rc)
    requires c.Sound() && c.limit == c.base + n - 1 && c.limit < c.block.Length && c.end == -1
    requires c.base <= c.current && ValidAt(c.W(), c.current, c.limit)
    requires ValidAt(c.W(), c.base, c.limit) && c.W()[c.base] == HEADER
    modifies c
    ensures rc == Ok <==>
      && c.FirstEnd().Some? && size == 4 * UsedWords(ItemsAt(c.W(), c.base, c.limit))
      && LacksHeader(ItemsAt(c.W(), c.base, c.limit)[1..])
    ensures rc != EFBIG
  {
    hide ChainEnd, ItemsAt, LacksHeader, Enc, SegmentAt;
    UsedIsEnd(c.W(), c.base, c.limit);
    var endTag := c.current;
    var used := c.LengthUsed();
    if 4 * used > 4 * n || 4 * used != size {
      return EINVAL;
    }
    rc := CheckOneHeader(c, endTag);
  }

  /** The trailer and what must follow it. */
  ghost predicate TrailerEnds(w: seq<u32>, base: nat, n: nat)
    requires 1 <= n && base + n <= |w|
  {
    var limit := base + n - 1;
    var r := FindAt(w, base, TRAILER, -1, limit);
    r.Some? && ValidAt(w, NextAt(w, r.value), limit) && w[NextAt(w, r.value)] == END
  }

  lemma SizeAcceptedIff(w: seq<u32>, base: nat, n: nat)
    requires 1 <= n && base + n <= |w| && base + 5 <= |w|
    ensures var items := ItemsIn(w, base, base + n - 1);
      SizeAccepted(w, base, n) <==>
        && HeaderOk(w, base, n) && TrailerEnds(w, base, n) && WordSum(w[base..base + BodyWords(w[base + 4])]) == 0
        && items.Some? && w[base + 4] == 4 * UsedWords(items.value) && LacksHeader(items.value[1..])
  {
    hide FindAt, ChainEnd, ItemsAt, WordSum, LacksHeader, Enc;
  }

  /** The items of the first segment, if it ends. */
  ghost function ItemsIn(w: seq<u32>, base: nat, limit: nat): Option<seq<Item>> {
    if ChainEnd(w, base, limit).Some? then Some(ItemsAt(w, base, limit)) else None
  }

  /** ef10_nvram_buf_segment_size on the n words at base; size is in bytes. */
  method SegmentSize(block: array<u32>, base: nat, n: nat) returns (rc: Rc, size: nat)
    requires 1 <= n && base + n <= block.Length && base + 5 <= block.Length
    ensures rc == Ok <==> SizeAccepted(block[..], base, n)
    ensures var w, limit := block[..], base + n - 1; var items := ItemsIn(w, base, limit);
      rc == Ok <==>
        && HeaderOk(w, base, n) && TrailerEnds(w, base, n) && WordSum(w[base..base + BodyWords(w[base + 4])]) == 0
        && items.Some? && w[base + 4] == 4 * UsedWords(items.value) && LacksHeader(items.value[1..])
    ensures !ValidAt(block[..], base, base + n - 1) ==> rc == EFAULT
    ensures rc == EFBIG <==> ValidAt(block[..], base, base + n - 1) && block[base] == HEADER && block[base + 4] > 4 * n
    ensures rc == Ok ==> size == 4 * UsedWords(ItemsAt(block[..], base, base + n - 1))
  {
    hide FindAt, ChainEnd, ItemsAt, WordSum, LacksHeader, Enc, SegmentAt, ValidAt, LastEnd, SizeAccepted;
    SizeAcceptedIff(block[..], base, n);
    size := 0;
    rc := CheckHeader(block, base, n);
    if rc != Ok {
      return;
    }
    size := block[base + 4];
    var c := new Cursor(block, base, base + n - 1, base);
    var t;
    rc, t := TrailerThenEnd(c);
    if rc != Ok {
      return;
    }
    var sum := SumWords(block, base, BodyWords(size));
    assert block[base..base + BodyWords(size)] == block[..][base..base + BodyWords(size)];
    if sum != 0 {
      return EINVAL, size;
    }
    rc := CheckUsed(c, n, size);
  }

  /** An accepted segment ends with its trailer exactly when the trailer that was found lies in front
      of the first END. */
  lemma TrailerEndsSegment(w: seq<u32>, base: nat, n: nat)
    requires SizeAccepted(w, base, n)
    ensures var limit := base + n - 1; var items := ItemsAt(w, base, limit);
      FindAt(w, base, TRAILER, -1, limit).value < ChainEnd(w, base, limit).value <==> FirstTag(items, TRAILER) == |items| - 1
  {
    hide *;
    SizeAcceptedParts(w, base, n);
    var limit := base + n - 1;
    var items, e := ItemsAt(w, base, limit), ChainEnd(w, base, limit).value;
    var k := FirstTag(items, TRAILER);
    TagsDiffer();
    FramedAtNext(w, base, n);
    FoundIsSegment(w, base, limit);
    FindInSegment(w, base, items, limit, TRAILER, -1);
    if k < |items| {
      ItemInWords(w, base, items, limit, k);
      EndBehindLast(w, base, items, limit, k);
    }
  }

  /** Behind an item there is END exactly when it is the last one. */
  lemma EndBehindLast(w: seq<u32>, base: nat, items: seq<Item>, limit: nat, k: nat)
    requires SegmentAt(w, base, items, limit) && k < |items|
    ensures var q := base + |Enc(items[..k + 1])|;
      q < |w| && (w[q] == END <==> k + 1 == |items|) && base + |Enc(items[..k])| < q <= base + |Enc(items)|
  {
    hide *;
    SegmentItemsOk(w, base, items, limit);
    ItemInWords(w, base, items, limit, k);
    ItemLength(items, k);
    if k + 1 < |items| {
      ItemInWords(w, base, items, limit, k + 1);
      NoItemIsEnd(items, k + 1);
    } else {
      assert items[..k + 1] == items;
      EndOfSegment(w, base, items, limit);
    }
  }

  lemma SegmentItemsOk(w: seq<u32>, base: nat, items: seq<Item>, limit: nat)
    ensures SegmentAt(w, base, items, limit) ==> ItemsOk(items) && base + |Enc(items)| < |w|
  {
  }

  lemma ItemLength(items: seq<Item>, k: nat)
    ensures k < |items| ==> |EncItem(items[k])| >= 2
  {
  }

  lemma FramedAtNext(w: seq<u32>, base: nat, n: nat)
    requires SizeAccepted(w, base, n)
    ensures 1 <= n && var r := FindAt(w, base, TRAILER, -1, base + n - 1);
      r.Some? && ValidAt(w, r.value, base + n - 1) && w[NextAt(w, r.value)] == END
  {
  }

  lemma NoItemIsEnd(items: seq<Item>, k: nat)
    requires ItemsOk(items) && k < |items|
    ensures items[k].tag != END
  {
    assert ItemOk(items[k]);
  }

  /** A trailer behind the first END, where the walk only comes because it steps over END. */
  function StrayWords(): seq<u32> {
    [HEADER, HEADER_LEN, Negate(HEADER + HEADER_LEN + 1 + 24 + END), 1, 24, END, 0, TRAILER, TRAILER_LEN, 1, 0, END, 0]
  }

  /** So a segment without a trailer of its own can be accepted: these words are. */
  lemma TrailerMayBeStray()
    ensures Accepted(StrayWords(), 0, 13) && SizeAccepted(StrayWords(), 0, 13)
    ensures FirstTag(ItemsAt(StrayWords(), 0, 12), TRAILER) == |ItemsAt(StrayWords(), 0, 12)|
  {
    var w := StrayWords();
    var h := Header(w[2], 1, 24);
    assert w[0..6] == EncItem(h) + [END];
    EncOne(h);
    assert SegmentAt(w, 0, [h], 12);
    SegmentIsFound(w, 0, [h], 12);
    assert [h][1..] == [];
    FindInSegment(w, 0, [h], 12, TRAILER, -1);
    assert ValidAt(w, 7, 12) && FindAt(w, 7, TRAILER, -1, 12) == Some(7) && NextAt(w, 7) == 11;
    StraySum(w[0..6], w[2]);
  }

  lemma StraySum(s: seq<u32>, kind: u32)
    requires s == [HEADER, HEADER_LEN, kind, 1, 24, END] && kind == Negate(HEADER + HEADER_LEN + 1 + 24 + END)
    ensures WordSum(s) == 0
  {
    FiveWords(HEADER_LEN, kind, 1, 24, END);
    assert s == [HEADER] + [HEADER_LEN, kind, 1, 24, END];
    ChecksumCloses(HEADER + HEADER_LEN + 1 + 24 + END, 0);
  }

  // ---------------------------------------------------------------- segments in a partition

  /** From offset on the partition holds these framed segments, one behind the other, and then words
      that do not start with a header. */
  ghost predicate Holds(part: seq<u32>, offset: nat, segs: seq<seq<Item>>)
    decreases |segs|
  {
    if segs == [] then offset < |part| ==> part[offset] != HEADER
    else
      && Framed(segs[0]) && At(part, offset, Enc(segs[0]) + [END])
      && Holds(part, offset + UsedWords(segs[0]), segs[1..])
  }

  lemma AtInBigger(w: seq<u32>, p: nat, items: seq<Item>, limit: nat)
    requires ItemsOk(items) && items != [] && At(w, p, Enc(items) + [END]) && p + |Enc(items)| < limit
    ensures SegmentAt(w, p, items, limit)
  {
    SegmentIsAt(w, p, items, limit);
  }

  /** Segments at the same place are the same segment. */
  lemma SameSegment(w: seq<u32>, p: nat, a: seq<Item>, la: nat, b: seq<Item>, lb: nat)
    requires SegmentAt(w, p, a, la) && SegmentAt(w, p, b, lb) && a != [] && b != []
    ensures a == b
  {
    var l := Max(la, lb);
    SegmentIsAt(w, p, a, la);
    SegmentIsAt(w, p, a, l);
    SegmentIsAt(w, p, b, lb);
    SegmentIsAt(w, p, b, l);
    SegmentIsFound(w, p, a, l);
    SegmentIsFound(w, p, b, l);
  }

  /** What has been read stands in the buffer as it stood in the partition. */
  lemma ReadKeepsPlace(w: seq<u32>, part: seq<u32>, offset: nat, pos: nat, s: seq<u32>)
    requires Readable(part, offset) && HasMemory(w, part, offset, pos) && |s| <= ReadWords(part, offset)
    ensures At(part, offset, s) <==> At(ReadInto(w, part, offset, pos), pos, s)
  {
    var n := ReadWords(part, offset);
    var r := ReadInto(w, part, offset, pos);
    assert r[pos..pos + n] == part[offset..offset + n];
    AtMoved(part, r, offset, pos, n, offset, s);
  }

  lemma HeaderWordRead(w: seq<u32>, part: seq<u32>, offset: nat, pos: nat)
    requires Readable(part, offset) && HasMemory(w, part, offset, pos)
    ensures offset + CHUNK <= |part| && |ReadInto(w, part, offset, pos)| == |w| && pos + |part| - offset <= |w|
    ensures ReadInto(w, part, offset, pos)[pos] == part[offset] && ReadInto(w, part, offset, pos)[pos + 4] == part[offset + 4]
  {
  }

  lemma FramedLacksHeader(items: seq<Item>)
    ensures Framed(items) ==> LacksHeader(items[1..]) && items != [] && ItemsOk(items)
  {
  }

  lemma SizeAcceptedParts(w: seq<u32>, base: nat, n: nat)
    requires SizeAccepted(w, base, n)
    ensures 1 <= n && base + 5 <= |w| && ChainEnd(w, base, base + n - 1).Some? && w[base] == HEADER != END
    ensures w[base + 4] == 4 * UsedWords(ItemsAt(w, base, base + n - 1))
    ensures BodyWords(w[base + 4]) == |Enc(ItemsAt(w, base, base + n - 1))| + 1
  {
  }

  lemma HoldsParts(part: seq<u32>, offset: nat, segs: seq<seq<Item>>)
    requires Holds(part, offset, segs)
    ensures segs == [] ==> offset < |part| ==> part[offset] != HEADER
    ensures segs != [] ==> Framed(segs[0]) && At(part, offset, Enc(segs[0]) + [END])
    ensures segs != [] ==> Holds(part, offset + UsedWords(segs[0]), segs[1..]) && offset + UsedWords(segs[0]) <= |part|
  {
  }

  /** A segment that is accepted is the one the partition holds there. */
  lemma AcceptedIsHeld(w: seq<u32>, part: seq<u32>, offset: nat, pos: nat, segs: seq<seq<Item>>)
    requires offset < |part| && Readable(part, offset) && HasMemory(w, part, offset, pos) && Holds(part, offset, segs)
    requires var r := ReadInto(w, part, offset, pos); SizeAccepted(r, pos, |part| - offset)
    ensures segs != []
    ensures var r := ReadInto(w, part, offset, pos);
      SegmentAt(r, pos, segs[0], pos + |part| - offset - 1) && UsedWords(segs[0]) < |part| - offset
      && r[pos + 4] == 4 * UsedWords(segs[0])
  {
    hide *;
    var size := |part| - offset;
    var r := ReadInto(w, part, offset, pos);
    var limit := pos + size - 1;
    HoldsParts(part, offset, segs);
    HeaderWordRead(w, part, offset, pos);
    SizeAcceptedParts(r, pos, size);
    FoundIsSegment(r, pos, limit);
    var items := ItemsAt(r, pos, limit);
    HeldItems(w, part, offset, pos, items, limit);
    if segs != [] {
      FramedLacksHeader(segs[0]);
      AtInBigger(part, offset, segs[0], |part| + 1);
      SameSegment(part, offset, items, |part| + 1, segs[0], |part| + 1);
      UsedIs(items);
    }
  }

  lemma UsedIs(items: seq<Item>)
    ensures UsedWords(items) == |Enc(items)| + 1
  {
  }

  lemma HeldItems(w: seq<u32>, part: seq<u32>, offset: nat, pos: nat, items: seq<Item>, limit: nat)
    requires Readable(part, offset) && HasMemory(w, part, offset, pos)
    requires SegmentAt(ReadInto(w, part, offset, pos), pos, items, limit) && part[offset] == HEADER
    requires BodyWords(part[offset + 4]) == |Enc(items)| + 1 && ReadInto(w, part, offset, pos)[pos] != END
    ensures SegmentAt(part, offset, items, |part| + 1) && items != [] && |Enc(items)| + 1 < limit - pos + 1
  {
    var r := ReadInto(w, part, offset, pos);
    SegmentIsAt(r, pos, items, limit);
    ReadKeepsPlace(w, part, offset, pos, Enc(items) + [END]);
    SegmentIsAt(part, offset, items, |part| + 1);
    if items == [] {
      SegmentNil(r, pos, limit);
    }
  }

  /** The validation compares the generations, so what it accepts is in balance. */
  lemma AcceptedIsBalanced(r: seq<u32>, pos: nat, size: nat, items: seq<Item>)
    requires 1 <= size && SegmentAt(r, pos, items, pos + size - 1) && Framed(items) && Accepted(r, pos, size)
    requires r[pos + 4] == 4 * UsedWords(items)
    ensures Balanced(items)
  {
    hide SegmentAt, FindAt, ValidAt, NextAt, WordSum, Enc, ChainEnd, Framed, BodyWords, Generation;
    WholeWords(UsedWords(items));
    TrailerFacts(r, pos, pos + size - 1, items);
    FrameWords(r, pos, items, pos + size - 1);
    SegmentSum(r, pos, items, pos + size - 1);
  }

  lemma WholeWords(n: nat)
    ensures BodyWords(4 * n) == n
  {
  }

  lemma BalancedSizeAccepted(r: seq<u32>, pos: nat, size: nat, items: seq<Item>)
    requires 1 <= size && pos + size <= |r| && SegmentAt(r, pos, items, pos + size - 1) && Framed(items) && Balanced(items)
    ensures SizeAccepted(r, pos, size)
  {
    hide SegmentAt, Framed, Balanced, FindAt, ValidAt, NextAt, WordSum, Enc, BodyWords, Generation, ChainEnd, LacksHeader, ItemsAt;
    var limit := pos + size - 1;
    TrailerFacts(r, pos, limit, items);
    FrameWords(r, pos, items, limit);
    SegmentSum(r, pos, items, limit);
    SegmentIsFound(r, pos, items, limit);
    FramedLacksHeader(items);
    BalancedParts(items);
  }

  /** Which segments are accepted: those in balance that do not end flush with the partition. */
  lemma AcceptedIff(w: seq<u32>, part: seq<u32>, offset: nat, pos: nat, segs: seq<seq<Item>>)
    requires offset < |part| && Readable(part, offset) && HasMemory(w, part, offset, pos) && Holds(part, offset, segs)
    ensures var r, size := ReadInto(w, part, offset, pos), |part| - offset;
      && (Accepted(r, pos, size) && SizeAccepted(r, pos, size) <==>
          segs != [] && Framed(segs[0]) && Balanced(segs[0]) && UsedWords(segs[0]) < size)
      && (Accepted(r, pos, size) && SizeAccepted(r, pos, size) ==>
          SegmentAt(r, pos, segs[0], pos + size - 1) && ReadWords(part, offset) == Max(CHUNK, UsedWords(segs[0])))
  {
    hide *;
    var r, size := ReadInto(w, part, offset, pos), |part| - offset;
    HoldsParts(part, offset, segs);
    HeaderWordRead(w, part, offset, pos);
    if Accepted(r, pos, size) && SizeAccepted(r, pos, size) {
      AcceptedIsHeld(w, part, offset, pos, segs);
      AcceptedIsBalanced(r, pos, size, segs[0]);
      ReadWordsOf(part, offset, segs[0]);
    }
    if segs != [] && Balanced(segs[0]) && UsedWords(segs[0]) < size {
      BalancedIsRead(w, part, offset, pos, segs[0]);
      BalancedIsAccepted(r, pos, size, segs[0]);
      BalancedSizeAccepted(r, pos, size, segs[0]);
    }
  }

  lemma ReadWordsOf(part: seq<u32>, offset: nat, items: seq<Item>)
    requires offset + CHUNK <= |part| && part[offset + 4] == 4 * UsedWords(items)
    ensures ReadWords(part, offset) == Max(CHUNK, UsedWords(items))
  {
  }

  lemma BalancedIsRead(w: seq<u32>, part: seq<u32>, offset: nat, pos: nat, items: seq<Item>)
    requires Readable(part, offset) && HasMemory(w, part, offset, pos) && At(part, offset, Enc(items) + [END])
    requires Framed(items) && Balanced(items) && UsedWords(items) < |part| - offset
    ensures SegmentAt(ReadInto(w, part, offset, pos), pos, items, pos + |part| - offset - 1)
  {
    AtInBigger(part, offset, items, |part| + 1);
    FrameWords(part, offset, items, |part| + 1);
    ReadWordsOf(part, offset, items);
    ReadKeepsPlace(w, part, offset, pos, Enc(items) + [END]);
    AtInBigger(ReadInto(w, part, offset, pos), pos, items, pos + |part| - offset - 1);
  }

  // ---------------------------------------------------------------- rewriting one segment

  /** The words from p to n are zero, as kmem_zalloc left them. */
  ghost predicate ZeroFrom(w: seq<u32>, p: nat, n: nat) {
    forall k :: p <= k < n && k < |w| ==> w[k] == 0
  }

  /** A splice moves the zero tail by at most what the segment grows. */
  lemma SplicedZeros(w: seq<u32>, p: nat, drop: nat, put: seq<u32>, lse: nat, from: nat, n: nat, to: nat)
    requires p + drop <= lse + 1 <= |w| && lse + 1 + |put| - drop <= |w|
    requires ZeroFrom(w, from, n) && lse < n <= |w|
    requires (from <= to || from <= lse + 1) && from + |put| - drop <= to && p + |put| <= to
    ensures ZeroFrom(Spliced(w, p, drop, put, lse), to, n)
  {
    var d := |put| - drop;
    var r := Spliced(w, p, drop, put, lse);
    SplicedTail(w, p, drop, put, lse, n);
    SplicedSlices(w, p, drop, put, lse);
    forall k | to <= k < n && k < |r|
      ensures r[k] == 0
    {
      if k < lse + 1 + d {
        assert r[k] == r[p + |put|..lse + 1 + d][k - p - |put|] == w[p + drop..lse + 1][k - p - |put|] == w[k - d];
      }
    }
  }

  /** After a write the words more than a chunk behind the segment are still zero, and the words behind
      the buffer are as they were. */
  lemma WriteTail(r: seq<u32>, w': seq<u32>, pos: nat, n: nat, items: seq<Item>, tag: u32, data: Bytes)
    requires |data| < WORD32 && !Reserved(tag) && 0 < n < |r| && pos < n
    requires SegmentAt(r, pos, items, n - 1) && Rewritten(r, w', pos, n - 1, items, MakeItem(tag, data))
    requires Fits(items, MakeItem(tag, data), LastEnd(r, pos, pos, n - 1), n - 1)
    requires ZeroFrom(r, pos + Max(CHUNK, UsedWords(items)), n)
    ensures var put := PutItem(items, MakeItem(tag, data));
      ZeroFrom(w', pos + UsedWords(put) + CHUNK, n) && w'[n..] == r[n..]
  {
    hide *;
    ChunkIs();
    var it := MakeItem(tag, data);
    var v := RewrittenHas(r, w', pos, n - 1, items, it);
    MadeItem(tag, data);
    ReservedIs(tag);
    ViaParts(r, v, w', pos, n - 1, items, it);
    SplicedTailOf(r, v, pos, n, items, it, LastEnd(r, pos, pos, n - 1));
    SealedTail(v, w', pos, PutItem(items, it), n, pos + UsedWords(PutItem(items, it)) + CHUNK);
  }

  lemma RewrittenHas(w: seq<u32>, w': seq<u32>, base: nat, limit: nat, items: seq<Item>, it: Item) returns (r: seq<u32>)
    requires Rewritten(w, w', base, limit, items, it)
    ensures RewrittenVia(w, r, w', base, limit, items, it)
  {
    hide RewrittenVia;
    r :| RewrittenVia(w, r, w', base, limit, items, it);
  }

  lemma ViaParts(w: seq<u32>, r: seq<u32>, w': seq<u32>, base: nat, limit: nat, items: seq<Item>, it: Item)
    requires RewrittenVia(w, r, w', base, limit, items, it)
    ensures Framed(items) && WrittenTo(w, r, base, items, it, LastEnd(w, base, base, limit))
    ensures Framed(PutItem(items, it)) && 4 * UsedWords(PutItem(items, it)) < WORD32
    ensures Sealed(r, w', base, PutItem(items, it), limit)
  {
  }

  lemma SplicedTailOf(r: seq<u32>, v: seq<u32>, pos: nat, n: nat, items: seq<Item>, it: Item, lse: nat)
    requires 0 < n < |r| && pos < n && SegmentAt(r, pos, items, n - 1) && Framed(items) && ItemOk(it)
    requires lse == LastEnd(r, pos, pos, n - 1) && WrittenTo(r, v, pos, items, it, lse) && Fits(items, it, lse, n - 1)
    requires ZeroFrom(r, pos + Max(CHUNK, UsedWords(items)), n)
    ensures var put := PutItem(items, it);
      ZeroFrom(v, pos + UsedWords(put) + CHUNK, n) && v[n..] == r[n..] && pos + UsedWords(put) <= n < |v|
  {
    hide *;
    var tag := it.tag;
    FramedLacksHeader(items);
    var p, freed := pos + Place(items, Target(items, tag).0), Freed(items, tag);
    WrittenToIs(r, v, pos, items, it, lse);
    FitsIs(items, it, lse, n - 1);
    WrittenSegment(r, v, pos, items, it, n - 1, lse);
    TargetFacts(r, pos, n - 1, items, tag);
    UsedIs(items);
    UsedIs(PutItem(items, it));
    SplicedTailFrom(r, v, pos, n, pos + |Enc(items)|, p, freed, EncItem(it), lse);
  }

  lemma SplicedTailFrom(r: seq<u32>, v: seq<u32>, pos: nat, n: nat, e: nat, p: nat, freed: nat, put: seq<u32>, lse: nat)
    requires pos <= p && p + freed <= e <= lse < n <= |r| && ZeroFrom(r, pos + Max(CHUNK, e + 1 - pos), n)
    requires lse + 1 + |put| - freed <= |r| && v == Spliced(r, p, freed, put, lse)
    requires |put| <= freed || lse + 1 + |put| - freed <= n - 1
    ensures e + 1 + |put| - freed <= n <= |r| == |v| && ZeroFrom(v, e + 1 + |put| - freed + CHUNK, n) && v[n..] == r[n..]
  {
    SplicedZeros(r, p, freed, put, lse, pos + Max(CHUNK, e + 1 - pos), n, e + 1 + |put| - freed + CHUNK);
    TailKept(r, p, freed, put, lse, n);
  }

  lemma SealedTail(v: seq<u32>, w': seq<u32>, pos: nat, items: seq<Item>, n: nat, to: nat)
    requires 0 < n && Framed(items) && 4 * UsedWords(items) < WORD32 && Sealed(v, w', pos, items, n - 1)
    requires n <= |v| && pos + UsedWords(items) <= to && pos + UsedWords(items) <= n
    ensures w'[n..] == v[n..] && (ZeroFrom(v, to, n) ==> ZeroFrom(w', to, n))
  {
    var e := pos + |Enc(items)|;
    assert forall k :: e <= k < |v| ==> w'[k] == w'[e..][k - e] == v[e..][k - e] == v[k];
  }

  /** The buffer with a segment read to pos, as far as it matters there: the words read, then zeros. */
  function Loaded(part: seq<u32>, offset: nat, pos: nat): (r: seq<u32>)
    requires Readable(part, offset)
    ensures |r| == |part|
  {
    (Zeros(pos) + part[offset..offset + ReadWords(part, offset)] + Zeros(|part|))[..|part|]
  }

  /** From p to the limit the words are the same. */
  ghost predicate SameFrom(w: seq<u32>, w': seq<u32>, p: nat, limit: nat) {
    limit < |w| && limit < |w'| && forall k :: p <= k <= limit ==> w[k] == w'[k]
  }

  lemma LoadedIs(w: seq<u32>, part: seq<u32>, offset: nat, pos: nat)
    requires Readable(part, offset) && |part| <= |w| && HasMemory(w, part, offset, pos) && ZeroFrom(w, pos + CHUNK, |part|)
    ensures 0 < |part| && SameFrom(ReadInto(w, part, offset, pos), Loaded(part, offset, pos), pos, |part| - 1)
  {
  }

  /** What a walk finds depends only on the words from its start to the limit. */
  lemma {:induction false} SameChain(w: seq<u32>, w': seq<u32>, p: nat, limit: nat)
    requires SameFrom(w, w', p, limit)
    ensures ChainEnd(w, p, limit) == ChainEnd(w', p, limit)
    decreases limit - p
  {
    if ValidAt(w, p, limit) && w[p] != END {
      SameChain(w, w', NextAt(w, p), limit);
    }
  }

  lemma {:induction false} SameFind(w: seq<u32>, w': seq<u32>, p: nat, tag: u32, limit: nat)
    requires SameFrom(w, w', p, limit)
    ensures FindAt(w, p, tag, -1, limit) == FindAt(w', p, tag, -1, limit)
    decreases limit - p
  {
    if ValidAt(w, p, limit) && w[p] != tag {
      SameFind(w, w', NextAt(w, p), tag, limit);
    }
  }

  lemma {:induction false} SameLast(w: seq<u32>, w': seq<u32>, start: nat, last: nat, limit: nat)
    requires SameFrom(w, w', start, limit)
    ensures LastEnd(w, start, last, limit) == LastEnd(w', start, last, limit)
    decreases limit + 1 - start
  {
    SameChain(w, w', start, limit);
    var r := ChainEnd(w, start, limit);
    if r.Some? {
      SameLast(w, w', r.value + 1, r.value, limit);
    }
  }

  /** The search for the tag stays in the segment that has been read to pos. */
  ghost predicate StrayFree(part: seq<u32>, offset: nat, pos: nat, seg: seq<Item>, tag: u32) {
    Readable(part, offset) && pos < |part| ==> Reaches(Loaded(part, offset, pos), pos, seg, tag, |part| - 1)
  }

  /** It does when the segment has the tag already, or no word of the first chunk behind it is the tag. */
  lemma ClearIsStrayFree(part: seq<u32>, offset: nat, pos: nat, seg: seq<Item>, tag: u32)
    requires Readable(part, offset) ==> ReadWords(part, offset) == Max(CHUNK, UsedWords(seg))
    requires FirstTag(seg, tag) < |seg| || (tag != 0
      && forall k :: offset + UsedWords(seg) <= k < offset + CHUNK && k < |part| ==> part[k] != tag)
    ensures StrayFree(part, offset, pos, seg, tag)
  {
    hide Readable, ReadWords, Loaded, Enc, FindAt;
    if Readable(part, offset) && pos < |part| && FirstTag(seg, tag) >= |seg| {
      var r := Loaded(part, offset, pos);
      forall k | pos + UsedWords(seg) <= k < |part|
        ensures r[k] != tag
      {
        LoadedAt(part, offset, pos, k);
      }
      ForeignTailIsClean(r, pos + |Enc(seg)| + 2, tag, -1, |part| - 1);
    }
  }

  lemma LoadedAt(part: seq<u32>, offset: nat, pos: nat, k: nat)
    requires Readable(part, offset) && pos <= k < |part|
    ensures k < pos + ReadWords(part, offset) ==>
      offset + k - pos < |part| && Loaded(part, offset, pos)[k] == part[offset + k - pos]
    ensures k >= pos + ReadWords(part, offset) ==> Loaded(part, offset, pos)[k] == 0
  {
    hide ReadWords;
  }

  lemma ReadIsWritable(w: seq<u32>, part: seq<u32>, offset: nat, pos: nat, items: seq<Item>, limit: nat, tag: u32)
    requires Readable(part, offset) && |part| <= |w| && HasMemory(w, part, offset, pos) && ZeroFrom(w, pos + CHUNK, |part|)
    requires SegmentAt(ReadInto(w, part, offset, pos), pos, items, limit) && Framed(items)
    requires StrayFree(part, offset, pos, items, tag)
    ensures 0 < |part| && Writable(ReadInto(w, part, offset, pos), pos, |part| - 1, tag)
  {
    hide *;
    ReadableFits(part, offset);
    var r, v := ReadInto(w, part, offset, pos), Loaded(part, offset, pos);
    WritableIf(r, pos, |part| - 1, tag);
    if ChainEnd(r, pos, |part| - 1).Some? {
      FoundIsSegment(r, pos, |part| - 1);
      HeaderStands(r, pos, items, limit);
      FoundNonEmpty(r, pos, |part| - 1);
      FramedLacksHeader(items);
      SameSegment(r, pos, ItemsAt(r, pos, |part| - 1), |part| - 1, items, limit);
      StrayFreeIs(part, offset, pos, items, tag);
      ReachesIs(v, pos, items, tag, |part| - 1);
      ReachesIs(r, pos, items, tag, |part| - 1);
      LoadedIs(w, part, offset, pos);
      SameLater(r, v, pos, pos + |Enc(items)| + 2, |part| - 1);
      SameFind(r, v, pos + |Enc(items)| + 2, tag, |part| - 1);
    }
  }

  lemma SameLater(w: seq<u32>, w': seq<u32>, p: nat, q: nat, limit: nat)
    ensures SameFrom(w, w', p, limit) && p <= q ==> SameFrom(w, w', q, limit)
  {
  }

  lemma StrayFreeIs(part: seq<u32>, offset: nat, pos: nat, seg: seq<Item>, tag: u32)
    requires Readable(part, offset) && pos < |part| && StrayFree(part, offset, pos, seg, tag)
    ensures Reaches(Loaded(part, offset, pos), pos, seg, tag, |part| - 1)
  {
  }

  lemma ReadableFits(part: seq<u32>, offset: nat)
    ensures Readable(part, offset) ==> CHUNK == 32 && offset + CHUNK <= |part|
  {
  }

  lemma WritableIf(w: seq<u32>, base: nat, limit: nat, tag: u32)
    ensures ChainEnd(w, base, limit) == None ==> Writable(w, base, limit, tag)
    ensures (&& ChainEnd(w, base, limit).Some? && Framed(ItemsAt(w, base, limit))
             && Reaches(w, base, ItemsAt(w, base, limit), tag, limit)) ==> Writable(w, base, limit, tag)
  {
    hide ChainEnd, ItemsAt, Reaches, Framed;
  }

  lemma HeaderStands(r: seq<u32>, pos: nat, seg: seq<Item>, limit: nat)
    requires SegmentAt(r, pos, seg, limit) && Framed(seg)
    ensures pos < |r| && r[pos] == HEADER
  {
    FrameWords(r, pos, seg, limit);
  }

  lemma FoundNonEmpty(w: seq<u32>, p: nat, limit: nat)
    ensures ChainEnd(w, p, limit).Some? && w[p] == HEADER ==> ItemsAt(w, p, limit) != []
  {
  }

  /** What a segment becomes in the output: itself, or the same with the item written to it. */
  ghost predicate OutputOf(seg: seq<Item>, out: seq<Item>, write: bool, it: Item) {
    if write then
      && Framed(seg) && Framed(PutItem(seg, it)) && 4 * UsedWords(PutItem(seg, it)) < WORD32
      && out == Stamped(PutItem(seg, it))
    else out == seg
  }

  /** A segment's output stands at pos, inside the first n words if it was written to, and more than a chunk
      behind it these are zero. */
  ghost predicate Placed(w: seq<u32>, pos: nat, n: nat, seg: seq<Item>, out: seq<Item>, write: bool, it: Item) {
    && OutputOf(seg, out, write, it) && (write ==> pos + UsedWords(out) <= n)
    && At(w, pos, Enc(out) + [END]) && ZeroFrom(w, pos + UsedWords(out) + CHUNK, n)
  }

  /** The segment at offset is read, checked and found to be in balance. */
  ghost predicate Taken(part: seq<u32>, offset: nat, segs: seq<seq<Item>>, ok: (bool, bool)) {
    && offset < |part| && ok.0 && Readable(part, offset) && (ReadWords(part, offset) > CHUNK ==> ok.1)
    && segs != [] && Framed(segs[0]) && Balanced(segs[0]) && UsedWords(segs[0]) < |part| - offset
  }

  /** Reading and checking one segment, the first half of ef10_nvram_segment_write_tlv. */
  method TakeSegment(part: seq<u32>, block: array<u32>, offset: nat, pos: nat, ok: (bool, bool), ghost segs: seq<seq<Item>>)
    returns (rc: Rc, size: nat)
    requires HasMemory(block[..], part, offset, pos) && pos + 5 <= block.Length && 4 * block.Length < WORD32
    requires Holds(part, offset, segs)
    modifies block
    ensures rc == Ok <==> Taken(part, offset, segs, ok)
    ensures rc == Ok ==> (block[..] == ReadInto(old(block[..]), part, offset, pos) && size == 4 * UsedWords(segs[0])
      && SegmentAt(block[..], pos, segs[0], pos + |part| - offset - 1)
      && ReadWords(part, offset) == Max(CHUNK, UsedWords(segs[0])))
    ensures block[..] == WrittenWords(old(block[..]), pos, part[offset..offset + Fetched(part, offset, ok)])
  {
    hide Accepted, SizeAccepted, ReadInto, ReadWords, Readable, SegmentAt, Holds, Framed, Balanced, ItemsAt, Enc, ChainEnd,
         WrittenWords, Fetched;
    size := 0;
    var remain := |part| - offset;
    ghost var w := block[..];
    if remain > 0 && Readable(part, offset) {
      AcceptedIff(w, part, offset, pos, segs);
    }
    rc := ReadSegment(part, offset, block, pos, remain, ok);
    if rc != Ok {
      return EINVAL, size;
    }
    rc, size := SegmentSize(block, pos, remain);
    if rc != Ok {
      return EINVAL, size;
    }
    SegmentIsFound(block[..], pos, segs[0], pos + remain - 1);
  }

  lemma CanWriteParts(r: seq<u32>, pos: nat, limit: nat, tag: u32, data: Bytes)
    requires |data| < WORD32 && CanWrite(r, pos, limit, tag, data)
    ensures ChainEnd(r, pos, limit).Some? && ItemsAt(r, pos, limit) != []
    ensures Fits(ItemsAt(r, pos, limit), MakeItem(tag, data), LastEnd(r, pos, pos, limit), limit)
  {
  }

  /** The segment found at pos has been rewritten. */
  ghost predicate RewrittenFound(r: seq<u32>, w': seq<u32>, pos: nat, limit: nat, it: Item) {
    ChainEnd(r, pos, limit).Some? && Rewritten(r, w', pos, limit, ItemsAt(r, pos, limit), it)
  }

  lemma RewrittenFoundIs(r: seq<u32>, w': seq<u32>, pos: nat, limit: nat, it: Item)
    requires ChainEnd(r, pos, limit).Some?
    ensures RewrittenFound(r, w', pos, limit, it) <==> Rewritten(r, w', pos, limit, ItemsAt(r, pos, limit), it)
  {
  }

  /** The chain that is found is the segment that stands there. */
  lemma FoundIsThat(r: seq<u32>, pos: nat, n: nat, seg: seq<Item>, limit: nat, tag: u32, data: Bytes)
    requires |data| < WORD32 && pos < n && CanWrite(r, pos, n - 1, tag, data)
    requires SegmentAt(r, pos, seg, limit) && Framed(seg)
    ensures ChainEnd(r, pos, n - 1).Some? && ItemsAt(r, pos, n - 1) == seg
  {
    hide *;
    CanWriteParts(r, pos, n - 1, tag, data);
    FoundIsSegment(r, pos, n - 1);
    FramedLacksHeader(seg);
    SameSegment(r, pos, ItemsAt(r, pos, n - 1), n - 1, seg, limit);
  }

  /** A segment that was written to, as it stands in the buffer then. */
  lemma WroteSegment(r: seq<u32>, w': seq<u32>, pos: nat, n: nat, seg: seq<Item>, limit: nat, tag: u32, data: Bytes)
    requires |data| < WORD32 && !Reserved(tag) && 0 < n < |r| && pos < n && CanWrite(r, pos, n - 1, tag, data)
    requires SegmentAt(r, pos, seg, limit) && Framed(seg) && ZeroFrom(r, pos + Max(CHUNK, UsedWords(seg)), n)
    requires RewrittenFound(r, w', pos, n - 1, MakeItem(tag, data))
    ensures var put := PutItem(seg, MakeItem(tag, data));
      && Framed(put) && 4 * UsedWords(put) < WORD32 && UsedWords(Stamped(put)) == UsedWords(put)
      && Placed(w', pos, n, seg, Stamped(put), true, MakeItem(tag, data))
    ensures Outside(r, w', pos, n)
  {
    hide *;
    CanWriteParts(r, pos, n - 1, tag, data);
    RewrittenFoundIs(r, w', pos, n - 1, MakeItem(tag, data));
    FoundIsThat(r, pos, n, seg, limit, tag, data);
    FoundIsSegment(r, pos, n - 1);
    FramedLacksHeader(seg);
    var items := ItemsAt(r, pos, n - 1);
    WrittenAndSealed(r, w', pos, n - 1, items, tag, data);
    var put := PutItem(seg, MakeItem(tag, data));
    StampBalances(put);
    SegmentIsAt(w', pos, Stamped(put), n - 1);
    FramedLacksHeader(Stamped(put));
    UsedIs(Stamped(put));
    WriteTail(r, w', pos, n, seg, tag, data);
    WrittenIsOutput(seg, MakeItem(tag, data));
    PlacedIs(w', pos, n, seg, Stamped(put), true, MakeItem(tag, data));
    OutsideIs(r, w', pos, n);
  }

  lemma PlacedIs(w: seq<u32>, pos: nat, n: nat, seg: seq<Item>, out: seq<Item>, write: bool, it: Item)
    ensures Placed(w, pos, n, seg, out, write, it) <==>
      (OutputOf(seg, out, write, it) && (write ==> pos + UsedWords(out) <= n)
       && At(w, pos, Enc(out) + [END]) && ZeroFrom(w, pos + UsedWords(out) + CHUNK, n))
  {
  }

  lemma OutsideIs(w: seq<u32>, w': seq<u32>, lo: nat, hi: nat)
    requires lo <= |w| && hi <= |w|
    ensures |w'| == |w| && w'[..lo] == w[..lo] && w'[hi..] == w[hi..] ==> Outside(w, w', lo, hi)
  {
    if |w'| == |w| && w'[..lo] == w[..lo] && w'[hi..] == w[hi..] {
      forall k | 0 <= k < |w| && (k < lo || hi <= k)
        ensures w'[k] == w[k]
      {
        assert if k < lo then w'[..lo][k] == w[..lo][k] else w'[hi..][k - hi] == w[hi..][k - hi];
      }
    }
  }

  lemma WrittenIsOutput(seg: seq<Item>, it: Item)
    requires Framed(seg) && Framed(PutItem(seg, it)) && 4 * UsedWords(PutItem(seg, it)) < WORD32
    ensures OutputOf(seg, Stamped(PutItem(seg, it)), true, it)
  {
  }

  lemma KeptIsOutput(r: seq<u32>, part: seq<u32>, offset: nat, pos: nat, seg: seq<Item>, limit: nat, it: Item, w: seq<u32>)
    requires Readable(part, offset) && HasMemory(w, part, offset, pos) && ZeroFrom(w, pos + CHUNK, |part|)
    requires r == ReadInto(w, part, offset, pos) && SegmentAt(r, pos, seg, limit) && Framed(seg)
    requires ReadWords(part, offset) == Max(CHUNK, UsedWords(seg))
    ensures Placed(r, pos, |part|, seg, seg, false, it) && ZeroFrom(r, pos + Max(CHUNK, UsedWords(seg)), |part|)
  {
    SegmentIsAt(r, pos, seg, limit);
  }

  lemma TakenParts(part: seq<u32>, offset: nat, segs: seq<seq<Item>>, ok: (bool, bool))
    requires Taken(part, offset, segs, ok)
    ensures segs != [] && Framed(segs[0]) && Balanced(segs[0]) && Readable(part, offset)
    ensures offset + UsedWords(segs[0]) < |part| && offset + CHUNK <= |part|
  {
  }

  // ---------------------------------------------------------------- lengths that wrap

  const SIZES := 0x4000_0000_0000_0000     // a size_t counts bytes; in words it wraps there

  /** What is left of n words at pos, in a size_t. */
  function Left(n: nat, pos: nat): (r: nat)
    ensures r < SIZES
  {
    (n - pos) % SIZES
  }

  /** Subtracting what has been put out is right also below zero, and so is the pointer to the end. */
  lemma LeftWraps(n: nat, pos: nat, put: nat)
    requires n < SIZES
    ensures (Left(n, pos) - put) % SIZES == Left(n, pos + put)
    ensures (pos + Left(n, pos)) % SIZES == n
  {
    var q := (n - pos) / SIZES;
    assert n - pos == SIZES * q + Left(n, pos);
    var q', r' := (n - pos - put) / SIZES, Left(n, pos + put);
    assert Left(n, pos) - put == SIZES * (q' - q) + r';
    DivModUnique(Left(n, pos) - put, SIZES, q' - q, r');
    assert pos + Left(n, pos) == SIZES * (-q) + n;
    DivModUnique(pos + Left(n, pos), SIZES, -q, n);
  }

  /** The write half of ef10_nvram_segment_write_tlv, on a segment that has been taken.  The size_t dest and the
      pointer to the last word both wrap when pos lies behind the buffer of n words; then nothing is found. */
  method WriteTaken(block: array<u32>, n: nat, pos: nat, dest: nat, tag: u32, data: Bytes, ghost seg: seq<Item>, ghost limit: nat)
    returns (rc: Rc, total: nat, ghost out: seq<Item>)
    requires dest == Left(n, pos) && 0 < n && 2 * n <= block.Length && 4 * block.Length < WORD32
    requires |data| < WORD32 && !Reserved(tag) && Writable(block[..], pos, n - 1, tag)
    requires SegmentAt(block[..], pos, seg, limit) && Framed(seg) && ZeroFrom(block[..], pos + Max(CHUNK, UsedWords(seg)), n)
    modifies block
    ensures rc == Ok <==> CanWrite(old(block[..]), pos, n - 1, tag, data)
    ensures rc == Ok ==> total == 4 * UsedWords(out) && Placed(block[..], pos, n, seg, out, true, MakeItem(tag, data))
    ensures Outside(old(block[..]), block[..], pos, n)
  {
    hide *;
    ghost var r := block[..];
    HeaderStands(r, pos, seg, limit);
    FramedLacksHeader(seg);
    OutsideSame(r, pos, n);
    out := [];
    TwiceIsInside(r, pos, n - 1, tag, data, block.Length);
    SizesAre();
    LeftWraps(n, pos, 0);
    CannotWriteBehind(r, pos, n - 1, tag, data);
    rc, total := WriteTlv(block, pos, (pos + dest) % SIZES - pos, tag, data);
    if rc == Ok {
      FoundIsThat(r, pos, n, seg, limit, tag, data);
      RewrittenFoundIs(r, block[..], pos, n - 1, MakeItem(tag, data));
      WroteSegment(r, block[..], pos, n, seg, limit, tag, data);
      out := Stamped(PutItem(seg, MakeItem(tag, data)));
    }
  }

  lemma SizesAre()
    ensures SIZES == 0x4000_0000_0000_0000 && WORD32 == 0x1_0000_0000
  {
  }

  lemma CannotWriteBehind(w: seq<u32>, pos: nat, limit: nat, tag: u32, data: Bytes)
    requires |data| < WORD32
    ensures CanWrite(w, pos, limit, tag, data) ==> pos <= limit
  {
  }

  /** The item fits into the segment once that has been read to pos. */
  ghost predicate HasRoom(part: seq<u32>, offset: nat, pos: nat, seg: seq<Item>, it: Item)
    requires Readable(part, offset)
  {
    && pos + UsedWords(seg) < |part| && seg != []
    && Fits(seg, it, LastEnd(Loaded(part, offset, pos), pos, pos, |part| - 1), |part| - 1)
  }

  /** When a segment is taken: both reads are answered, it is in balance, it does not end flush with the
      partition and, if it is to be written, it has room for the item.  This does not depend on the buffer. */
  ghost predicate Accepts(part: seq<u32>, offset: nat, pos: nat, seg: seq<Item>, write: bool, it: Item, ok: (bool, bool)) {
    && offset < |part| && ok.0 && Readable(part, offset) && (ReadWords(part, offset) > CHUNK ==> ok.1)
    && Framed(seg) && Balanced(seg) && UsedWords(seg) < |part| - offset
    && (write ==> HasRoom(part, offset, pos, seg, it))
  }

  lemma AcceptsIs(part: seq<u32>, offset: nat, pos: nat, segs: seq<seq<Item>>, write: bool, it: Item, ok: (bool, bool))
    requires segs != []
    ensures Taken(part, offset, segs, ok) ==> Readable(part, offset)
    ensures Accepts(part, offset, pos, segs[0], write, it, ok) <==>
      Taken(part, offset, segs, ok) && (write ==> HasRoom(part, offset, pos, segs[0], it))
  {
    hide Readable, ReadWords, Framed, Balanced, HasRoom;
  }

  /** The write finds room in the buffer exactly when the segment has room as it was read. */
  lemma CanWriteIff(w: seq<u32>, part: seq<u32>, offset: nat, pos: nat, seg: seq<Item>, limit: nat, tag: u32, data: Bytes)
    requires Readable(part, offset) && |part| < |w| && HasMemory(w, part, offset, pos) && ZeroFrom(w, pos + CHUNK, |part|)
    requires |data| < WORD32
    requires SegmentAt(ReadInto(w, part, offset, pos), pos, seg, limit) && Framed(seg)
    ensures 0 < |part|
    ensures CanWrite(ReadInto(w, part, offset, pos), pos, |part| - 1, tag, data)
      <==> HasRoom(part, offset, pos, seg, MakeItem(tag, data))
  {
    hide *;
    ReadableFits(part, offset);
    var r, n, it := ReadInto(w, part, offset, pos), |part|, MakeItem(tag, data);
    LoadedIs(w, part, offset, pos);
    SameLast(r, Loaded(part, offset, pos), pos, pos, n - 1);
    FramedLacksHeader(seg);
    UsedIs(seg);
    HasRoomIs(part, offset, pos, seg, it);
    CannotWriteBehind(r, pos, n - 1, tag, data);
    if CanWrite(r, pos, n - 1, tag, data) {
      FoundIsThat(r, pos, n, seg, limit, tag, data);
      CanWriteParts(r, pos, n - 1, tag, data);
      FoundIsSegment(r, pos, n - 1);
      SegmentIsAt(r, pos, seg, n - 1);
    }
    if HasRoom(part, offset, pos, seg, it) {
      SegmentIsAt(r, pos, seg, limit);
      SegmentIsAt(r, pos, seg, n - 1);
      SegmentIsFound(r, pos, seg, n - 1);
      CanWriteIf(r, pos, n - 1, tag, data);
    }
  }

  lemma HasRoomIs(part: seq<u32>, offset: nat, pos: nat, seg: seq<Item>, it: Item)
    requires Readable(part, offset)
    ensures HasRoom(part, offset, pos, seg, it) <==>
      (pos + UsedWords(seg) < |part| && seg != []
       && Fits(seg, it, LastEnd(Loaded(part, offset, pos), pos, pos, |part| - 1), |part| - 1))
  {
    hide Fits, LastEnd, UsedWords, Loaded;
  }

  lemma CanWriteIf(r: seq<u32>, pos: nat, limit: nat, tag: u32, data: Bytes)
    requires |data| < WORD32 && ChainEnd(r, pos, limit).Some? && ItemsAt(r, pos, limit) != []
    requires Fits(ItemsAt(r, pos, limit), MakeItem(tag, data), LastEnd(r, pos, pos, limit), limit)
    ensures CanWrite(r, pos, limit, tag, data)
  {
  }

  /** The buffer of |part| words and enough memory behind it. */
  predicate Memory(part: seq<u32>, offset: nat, pos: nat, len: nat) {
    offset <= |part| && pos <= |part| + offset && 2 * |part| + CHUNK <= len && 4 * len < WORD32
  }

  lemma MemoryIs(part: seq<u32>, offset: nat, pos: nat, w: seq<u32>)
    ensures CHUNK == 32 && WORD32 < SIZES
    ensures Memory(part, offset, pos, |w|) <==>
      offset <= |part| && pos <= |part| + offset && 2 * |part| + CHUNK <= |w| && 4 * |w| < WORD32
    ensures Memory(part, offset, pos, |w|) ==> HasMemory(w, part, offset, pos)
  {
  }

  /** Reading a segment and, when asked, writing the item to it; size and total are its length before
      and after. */
  method TakeAndWrite(part: seq<u32>, block: array<u32>, tag: u32, data: Bytes, pos: nat, offset: nat, dest: nat,
                      write: bool, ok: (bool, bool), ghost segs: seq<seq<Item>>)
    returns (rc: Rc, size: nat, total: nat, ghost out: seq<Item>)
    requires Memory(part, offset, pos, block.Length) && dest == Left(|part|, pos)
    requires |data| < WORD32 && !Reserved(tag)
    requires Holds(part, offset, segs) && ZeroFrom(block[..], pos + CHUNK, |part|)
    requires write && segs != [] ==> StrayFree(part, offset, pos, segs[0], tag)
    modifies block
    ensures rc == Ok <==> segs != [] && Accepts(part, offset, pos, segs[0], write, MakeItem(tag, data), ok)
    ensures rc == Ok ==> size == 4 * UsedWords(segs[0]) && total == 4 * UsedWords(out)
    ensures rc == Ok ==> Placed(block[..], pos, |part|, segs[0], out, write, MakeItem(tag, data))
    ensures Outside(old(block[..]), block[..], pos, Max(pos + Fetched(part, offset, ok), |part|))
  {
    hide *;
    total, out := 0, [];
    ghost var w := block[..];
    MemoryIs(part, offset, pos, w);
    rc, size := TakeSegment(part, block, offset, pos, ok, segs);
    if segs != [] {
      AcceptsIs(part, offset, pos, segs, write, MakeItem(tag, data), ok);
    }
    NotTaken(part, offset, segs, ok);
    ghost var r := block[..];
    FetchedOutside(w, part, offset, pos, ok);
    OutsideSame(r, pos, |part|);
    OutsideTrans(w, r, r, pos, pos, pos + Fetched(part, offset, ok), |part|);
    if rc != Ok {
      return;
    }
    TakenFacts(w, r, part, offset, pos, segs, write, tag, data, ok);
    if write {
      rc, total, out := WriteTaken(block, |part|, pos, dest, tag, data, segs[0], pos + |part| - offset - 1);
      OutsideTrans(w, r, block[..], pos, pos, pos + Fetched(part, offset, ok), |part|);
    } else {
      total, out := size, segs[0];
    }
  }

  lemma FetchedOutside(w: seq<u32>, part: seq<u32>, offset: nat, pos: nat, ok: (bool, bool))
    requires HasMemory(w, part, offset, pos)
    ensures var n := Fetched(part, offset, ok);
      Outside(w, WrittenWords(w, pos, part[offset..offset + n]), pos, pos + n)
  {
    WrittenOutside(w, pos, part[offset..offset + Fetched(part, offset, ok)]);
  }

  lemma NotTaken(part: seq<u32>, offset: nat, segs: seq<seq<Item>>, ok: (bool, bool))
    ensures segs == [] ==> !Taken(part, offset, segs, ok)
  {
  }

  /** ef10_nvram_segment_write_tlv.  ok is what the firmware makes of the two reads, which fill the memory at
      pos whether that lies in the buffer or not; dest is a size_t and wraps when more has been put out than
      the buffer holds. */
  method SegmentWriteTlv(part: seq<u32>, block: array<u32>, tag: u32, data: Bytes, pos: nat, offset: nat, src: nat, dest: nat,
                         write: bool, ok: (bool, bool), ghost segs: seq<seq<Item>>)
    returns (rc: Rc, pos': nat, offset': nat, src': nat, dest': nat, ghost out: seq<Item>)
    requires Memory(part, offset, pos, block.Length) && offset + src == |part| && dest == Left(|part|, pos)
    requires |data| < WORD32 && !Reserved(tag)
    requires Holds(part, offset, segs) && ZeroFrom(block[..], pos + CHUNK, |part|)
    requires write && segs != [] ==> StrayFree(part, offset, pos, segs[0], tag)
    modifies block
    ensures rc == Ok <==> segs != [] && Accepts(part, offset, pos, segs[0], write, MakeItem(tag, data), ok)
    ensures rc == Ok ==> Placed(block[..], pos, |part|, segs[0], out, write, MakeItem(tag, data))
    ensures rc == Ok ==> offset < offset' == offset + UsedWords(segs[0]) && pos' == pos + UsedWords(out)
    ensures Memory(part, offset', pos', block.Length) && offset' + src' == |part| && dest' == Left(|part|, pos')
    ensures rc == Ok && write ==> pos' <= |part|
    ensures rc != Ok ==> pos' == pos && offset' == offset && src' == src && dest' == dest
    ensures Outside(old(block[..]), block[..], pos, Max(pos + Fetched(part, offset, ok), |part|))
  {
    hide *;
    MemoryIs(part, offset, pos, block[..]);
    pos', offset', src', dest' := pos, offset, src, dest;
    var size, total;
    rc, size, total, out := TakeAndWrite(part, block, tag, data, pos, offset, dest, write, ok, segs);
    if rc == Ok {
      AcceptsIs(part, offset, pos, segs, write, MakeItem(tag, data), ok);
      TakenParts(part, offset, segs, ok);
      UsedIs(segs[0]);
      PlacedFits(block[..], pos, |part|, segs[0], out, write, MakeItem(tag, data));
      var put, taken := InWords(total, UsedWords(out)), InWords(size, UsedWords(segs[0]));
      LeftWraps(|part|, pos, put);
      dest', pos', offset', src' := (dest - put) % SIZES, pos + put, offset + taken, src - taken;
      MemoryIs(part, offset', pos', block[..]);
    }
  }

  /** A length in bytes, in words. */
  function InWords(bytes: nat, ghost n: nat): (r: nat)
    requires bytes == 4 * n
    ensures r == n
  {
    bytes / 4
  }

  lemma PlacedFits(w: seq<u32>, pos: nat, n: nat, seg: seq<Item>, out: seq<Item>, write: bool, it: Item)
    ensures Placed(w, pos, n, seg, out, write, it) ==> if write then pos + UsedWords(out) <= n else out == seg
  {
  }

  lemma TakenFacts(w: seq<u32>, r: seq<u32>, part: seq<u32>, offset: nat, pos: nat, segs: seq<seq<Item>>, write: bool, tag: u32,
                   data: Bytes, ok: (bool, bool))
    requires Taken(part, offset, segs, ok) && |part| < |w| && HasMemory(w, part, offset, pos)
    requires ZeroFrom(w, pos + CHUNK, |part|)
    requires Readable(part, offset) && r == ReadInto(w, part, offset, pos)
    requires SegmentAt(r, pos, segs[0], pos + |part| - offset - 1) && ReadWords(part, offset) == Max(CHUNK, UsedWords(segs[0]))
    requires |data| < WORD32 && (write ==> StrayFree(part, offset, pos, segs[0], tag))
    ensures segs != [] && Framed(segs[0]) && 0 < |part| && offset + UsedWords(segs[0]) < |part|
    ensures write ==> Writable(r, pos, |part| - 1, tag)
    ensures Readable(part, offset)
    ensures CanWrite(r, pos, |part| - 1, tag, data) <==> HasRoom(part, offset, pos, segs[0], MakeItem(tag, data))
    ensures Placed(r, pos, |part|, segs[0], segs[0], false, MakeItem(tag, data))
    ensures ZeroFrom(r, pos + Max(CHUNK, UsedWords(segs[0])), |part|)
  {
    hide *;
    TakenParts(part, offset, segs, ok);
    var limit := pos + |part| - offset - 1;
    if write {
      ReadIsWritable(w, part, offset, pos, segs[0], limit, tag);
    }
    CanWriteIff(w, part, offset, pos, segs[0], limit, tag, data);
    KeptIsOutput(r, part, offset, pos, segs[0], limit, MakeItem(tag, data), w);
    UsedIs(segs[0]);
  }

  // ---------------------------------------------------------------- the whole partition

  /** Segments one behind the other, each with its END. */
  function Image(segs: seq<seq<Item>>): seq<u32> {
    if segs == [] then [] else Image(segs[..|segs| - 1]) + (Enc(segs[|segs| - 1]) + [END])
  }

  /** The words up to pos are these segments. */
  ghost predicate HoldsImage(w: seq<u32>, pos: nat, segs: seq<seq<Item>>) {
    pos <= |w| && w[..pos] == Image(segs)
  }

  lemma ImageSnoc(segs: seq<seq<Item>>, out: seq<Item>)
    ensures Image(segs + [out]) == Image(segs) + (Enc(out) + [END])
  {
    assert (segs + [out])[..|segs|] == segs;
  }

  lemma SameImage(w: seq<u32>, w': seq<u32>, pos: nat, n: nat, outs: seq<seq<Item>>)
    ensures Outside(w, w', pos, n) && HoldsImage(w, pos, outs) ==> HoldsImage(w', pos, outs)
  {
    if Outside(w, w', pos, n) && HoldsImage(w, pos, outs) {
      assert w'[..pos] == w[..pos];
    }
  }

  lemma AppendImage(w: seq<u32>, w': seq<u32>, pos: nat, n: nat, outs: seq<seq<Item>>, out: seq<Item>)
    requires Outside(w, w', pos, n) && HoldsImage(w, pos, outs) && At(w', pos, Enc(out) + [END])
    ensures HoldsImage(w', pos + UsedWords(out), outs + [out])
  {
    SameImage(w, w', pos, n, outs);
    ImageSnoc(outs, out);
    JoinSlices(w', 0, pos, pos + UsedWords(out));
  }

  /** What is to be written, to the first segment or to all of them, and what the firmware answers to the
      reads of each. */
  datatype Job = Job(it: Item, all: bool, answers: nat -> (bool, bool))

  /** Segment i of the partition is written to. */
  predicate Writes(job: Job, i: nat) {
    job.all || i == 0
  }

  /** Words of a segment in the output. */
  function OutputWords(seg: seq<Item>, write: bool, it: Item): nat {
    if write && seg != [] then UsedWords(PutItem(seg, it)) else UsedWords(seg)
  }

  /** Where segment i starts in the partition. */
  function OffsetOf(segs: seq<seq<Item>>, i: nat): nat
    requires i <= |segs|
  {
    if i == 0 then 0 else OffsetOf(segs, i - 1) + UsedWords(segs[i - 1])
  }

  /** Where it starts in the output. */
  function PosOf(segs: seq<seq<Item>>, job: Job, i: nat): nat
    requires i <= |segs|
  {
    if i == 0 then 0 else PosOf(segs, job, i - 1) + OutputWords(segs[i - 1], Writes(job, i - 1), job.it)
  }

  /** Segment i is taken, if the loop comes to it. */
  ghost predicate Takes(part: seq<u32>, segs: seq<seq<Item>>, job: Job, i: nat)
    requires i < |segs|
  {
    Accepts(part, OffsetOf(segs, i), PosOf(segs, job, i), segs[i], Writes(job, i), job.it, job.answers(i))
  }

  /** The first n segments are taken, and no more. */
  ghost predicate Stops(part: seq<u32>, segs: seq<seq<Item>>, job: Job, n: nat) {
    n <= |segs| && (forall i :: 0 <= i < n ==> Takes(part, segs, job, i)) && (n < |segs| ==> !Takes(part, segs, job, n))
  }

  /** Wherever the loop comes to a segment that it writes to, the search for the tag stays in it. */
  ghost predicate NoStrays(part: seq<u32>, segs: seq<seq<Item>>, job: Job) {
    forall i :: 0 <= i < |segs| && Writes(job, i) && (forall j :: 0 <= j < i ==> Takes(part, segs, job, j)) ==>
      StrayFree(part, OffsetOf(segs, i), PosOf(segs, job, i), segs[i], job.it.tag)
  }

  /** A last segment that ends flush with the partition is never taken; when it is not the only one, the
      loop ends without an error all the same, and the segment is missing from the output. */
  lemma FlushIsLost(part: seq<u32>, segs: seq<seq<Item>>, job: Job, n: nat)
    requires segs != [] && OffsetOf(segs, |segs|) == |part| && Stops(part, segs, job, n)
    ensures !Takes(part, segs, job, |segs| - 1) && n < |segs|
    ensures (forall i :: 0 <= i < |segs| - 1 ==> Takes(part, segs, job, i)) ==> n == |segs| - 1
  {
    hide Readable, ReadWords, Framed, Balanced, HasRoom;
    assert !Takes(part, segs, job, |segs| - 1);
  }

  // ---------------------------------------------------------------- how far the reads reach

  /** Behind the last word that the read of segment i writes, if the loop comes to it; 0 if it writes none.
      At i == |segs| it is the read at the place behind the last segment. */
  function ReadEnd(part: seq<u32>, segs: seq<seq<Item>>, job: Job, i: nat): nat
    requires i <= |segs|
  {
    var n := Fetched(part, OffsetOf(segs, i), job.answers(i));
    if n == 0 then 0 else PosOf(segs, job, i) + n
  }

  /** Behind the last word of the buffer, and of what the first n reads write. */
  function Furthest(part: seq<u32>, segs: seq<seq<Item>>, job: Job, n: nat): nat
    requires n <= |segs| + 1
  {
    if n == 0 then |part| else Max(Furthest(part, segs, job, n - 1), ReadEnd(part, segs, job, n - 1))
  }

  lemma {:induction false} FurthestIs(part: seq<u32>, segs: seq<seq<Item>>, job: Job, n: nat)
    requires n <= |segs| + 1
    ensures Furthest(part, segs, job, n) >= |part|
    ensures Furthest(part, segs, job, n) == |part| <==> forall i :: 0 <= i < n ==> ReadEnd(part, segs, job, i) <= |part|
  {
    hide ReadEnd;
    if n > 0 {
      FurthestIs(part, segs, job, n - 1);
    }
  }

  /** A segment that is taken has been read in full. */
  lemma TakenIsFetched(part: seq<u32>, offset: nat, pos: nat, seg: seq<Item>, write: bool, it: Item, ok: (bool, bool))
    requires Accepts(part, offset, pos, seg, write, it, ok) && At(part, offset, Enc(seg) + [END])
    ensures Fetched(part, offset, ok) == Max(CHUNK, UsedWords(seg))
  {
    AtInBigger(part, offset, seg, |part| + 1);
    FrameWords(part, offset, seg, |part| + 1);
    ReadWordsOf(part, offset, seg);
    hide At, SegmentAt, Framed, Balanced, HasRoom, UsedWords;
  }

  lemma {:induction false} HoldsAt(part: seq<u32>, segs: seq<seq<Item>>, i: nat)
    requires i <= |segs| && Holds(part, 0, segs)
    ensures Holds(part, OffsetOf(segs, i), segs[i..])
    ensures i < |segs| ==> Framed(segs[i]) && At(part, OffsetOf(segs, i), Enc(segs[i]) + [END])
  {
    hide Framed, At, UsedWords, Enc;
    if i == 0 {
      assert segs[0..] == segs;
    } else {
      HoldsAt(part, segs, i - 1);
      HoldsParts(part, OffsetOf(segs, i - 1), segs[i - 1..]);
      assert segs[i - 1..][1..] == segs[i..] && segs[i - 1..][0] == segs[i - 1];
    }
    HoldsParts(part, OffsetOf(segs, i), segs[i..]);
  }

  /** All reads stay inside the buffer exactly when each segment that is taken fits there, by itself and by
      a chunk, behind what was put out before it, and so does what is read at the place where the loop ends. */
  lemma ReadsStayInside(part: seq<u32>, segs: seq<seq<Item>>, job: Job, n: nat)
    requires Holds(part, 0, segs) && Stops(part, segs, job, n)
    ensures Furthest(part, segs, job, n + 1) == |part| <==>
      (forall i :: 0 <= i < n ==> PosOf(segs, job, i) + Max(CHUNK, UsedWords(segs[i])) <= |part|)
      && ReadEnd(part, segs, job, n) <= |part|
  {
    hide UsedWords, Max, Accepts, OffsetOf, PosOf, Holds, Framed, At, Enc, Fetched;
    ChunkIs();
    FurthestIs(part, segs, job, n + 1);
    forall i | 0 <= i < n
      ensures ReadEnd(part, segs, job, i) == PosOf(segs, job, i) + Max(CHUNK, UsedWords(segs[i]))
    {
      assert Takes(part, segs, job, i);
      HoldsAt(part, segs, i);
      TakenIsFetched(part, OffsetOf(segs, i), PosOf(segs, job, i), segs[i], Writes(job, i), job.it, job.answers(i));
    }
  }

  // ---------------------------------------------------------------- the loop

  /** The outputs so far are the first segments in order, each written to exactly when asked. */
  ghost predicate Outputs(segs: seq<seq<Item>>, outs: seq<seq<Item>>, job: Job) {
    && |outs| <= |segs|
    && forall i :: 0 <= i < |outs| ==> OutputOf(segs[i], outs[i], Writes(job, i), job.it)
  }

  lemma OutputsAre(segs: seq<seq<Item>>, outs: seq<seq<Item>>, job: Job)
    requires Outputs(segs, outs, job) && (job.it.tag != END ==> ItemOk(job.it)) && !Reserved(job.it.tag)
    ensures |outs| <= |segs| && forall i :: 0 <= i < |outs| ==>
      if job.all || i == 0 then Updated(segs[i], outs[i], job.it) else outs[i] == segs[i]
  {
    hide Updated, Framed, PutItem, Stamped, UsedWords;
    ReservedIs(job.it.tag);
    forall i | 0 <= i < |outs| && (job.all || i == 0)
      ensures Updated(segs[i], outs[i], job.it)
    {
      WriteUpdates(segs[i], job.it);
    }
  }

  /** The state of the loop: the first segments have been taken and stand in the memory from the start of the
      buffer on, which no read has left further than the last of them did. */
  ghost predicate Progress(part: seq<u32>, w0: seq<u32>, w: seq<u32>, offset: nat, pos: nat, segs: seq<seq<Item>>,
                           outs: seq<seq<Item>>, job: Job) {
    && Outputs(segs, outs, job) && (forall i :: 0 <= i < |outs| ==> Takes(part, segs, job, i))
    && offset == OffsetOf(segs, |outs|) && pos == PosOf(segs, job, |outs|) && Holds(part, offset, segs[|outs|..])
    && (job.all ==> pos <= |part|)
    && ZeroFrom(w, pos + CHUNK, |part|) && HoldsImage(w, pos, outs) && Outside(w0, w, 0, Furthest(part, segs, job, |outs|))
  }

  lemma ProgressStart(part: seq<u32>, w: seq<u32>, segs: seq<seq<Item>>, job: Job)
    requires Holds(part, 0, segs) && ZeroFrom(w, 0, |part|) && |part| <= |w|
    ensures Progress(part, w, w, 0, 0, segs, [], job)
  {
    assert segs[0..] == segs;
  }

  lemma ProgressParts(part: seq<u32>, w0: seq<u32>, w: seq<u32>, offset: nat, pos: nat, segs: seq<seq<Item>>,
                      outs: seq<seq<Item>>, job: Job)
    requires Progress(part, w0, w, offset, pos, segs, outs, job) && NoStrays(part, segs, job)
    ensures |outs| <= |segs| && offset == OffsetOf(segs, |outs|) && pos == PosOf(segs, job, |outs|)
    ensures Holds(part, offset, segs[|outs|..]) && ZeroFrom(w, pos + CHUNK, |part|)
    ensures Writes(job, |outs|) && segs[|outs|..] != [] ==> StrayFree(part, offset, pos, segs[|outs|..][0], job.it.tag)
  {
    hide Takes, StrayFree, Holds, ZeroFrom, HoldsImage, Outside, OffsetOf, PosOf, Furthest;
  }

  /** Offset 0 is that of the first segment, which is always written to. */
  lemma FirstOffset(segs: seq<seq<Item>>, job: Job, k: nat)
    ensures k <= |segs| ==> (OffsetOf(segs, k) == 0 <==> k == 0) && (Writes(job, k) <==> job.all || OffsetOf(segs, k) == 0)
    ensures Writes(job, k) <== job.all
  {
  }

  /** What one round leaves alone, in terms of how far the reads reach. */
  lemma RoundOutside(part: seq<u32>, w0: seq<u32>, w: seq<u32>, w': seq<u32>, offset: nat, pos: nat, segs: seq<seq<Item>>,
                     job: Job, k: nat)
    requires k <= |segs| && offset == OffsetOf(segs, k) && pos == PosOf(segs, job, k)
    requires Outside(w0, w, 0, Furthest(part, segs, job, k))
    requires Outside(w, w', pos, Max(pos + Fetched(part, offset, job.answers(k)), |part|))
    ensures Outside(w0, w', 0, Furthest(part, segs, job, k + 1))
  {
    hide OffsetOf, PosOf, Fetched;
    FurthestIs(part, segs, job, k);
  }

  lemma ProgressStep(part: seq<u32>, w0: seq<u32>, w: seq<u32>, w': seq<u32>, offset: nat, pos: nat, segs: seq<seq<Item>>,
                     outs: seq<seq<Item>>, out: seq<Item>, job: Job)
    requires Progress(part, w0, w, offset, pos, segs, outs, job) && segs[|outs|..] != []
    requires Outside(w, w', pos, Max(pos + Fetched(part, offset, job.answers(|outs|)), |part|))
    requires Accepts(part, offset, pos, segs[|outs|..][0], Writes(job, |outs|), job.it, job.answers(|outs|))
    requires Placed(w', pos, |part|, segs[|outs|..][0], out, Writes(job, |outs|), job.it)
    ensures Progress(part, w0, w', offset + UsedWords(segs[|outs|..][0]), pos + UsedWords(out), segs, outs + [out], job)
  {
    hide At, ZeroFrom, Outside, Enc, HoldsImage, Framed, Stamped, PutItem, OutputOf, Accepts, UsedWords, Fetched, Furthest, Max;
    var k := |outs|;
    var seg := segs[k..][0];
    assert seg == segs[k] && segs[k..][1..] == segs[k + 1..];
    AppendImage(w, w', pos, Max(pos + Fetched(part, offset, job.answers(k)), |part|), outs, out);
    RoundOutside(part, w0, w, w', offset, pos, segs, job, k);
    OutputSize(seg, out, Writes(job, k), job.it);
    assert forall i :: 0 <= i < k ==> (outs + [out])[i] == outs[i];
  }

  lemma OutputSize(seg: seq<Item>, out: seq<Item>, write: bool, it: Item)
    requires OutputOf(seg, out, write, it)
    ensures UsedWords(out) == OutputWords(seg, write, it)
  {
    if write {
      StampBalances(PutItem(seg, it));
    }
  }

  /** The loop has stopped; what has been put out stays. */
  ghost predicate Stopped(part: seq<u32>, w0: seq<u32>, w: seq<u32>, pos: nat, segs: seq<seq<Item>>,
                          outs: seq<seq<Item>>, job: Job) {
    && Stops(part, segs, job, |outs|) && Outputs(segs, outs, job) && pos == PosOf(segs, job, |outs|)
    && (job.all ==> pos <= |part|)
    && HoldsImage(w, pos, outs) && Outside(w0, w, 0, Furthest(part, segs, job, |outs| + 1))
  }

  lemma ProgressEnds(part: seq<u32>, w0: seq<u32>, w: seq<u32>, w': seq<u32>, offset: nat, pos: nat, segs: seq<seq<Item>>,
                     outs: seq<seq<Item>>, job: Job)
    requires Progress(part, w0, w, offset, pos, segs, outs, job)
    requires Outside(w, w', pos, Max(pos + Fetched(part, offset, job.answers(|outs|)), |part|))
    requires segs[|outs|..] == []
      || !Accepts(part, offset, pos, segs[|outs|..][0], Writes(job, |outs|), job.it, job.answers(|outs|))
    ensures Stopped(part, w0, w', pos, segs, outs, job)
  {
    hide Holds, ZeroFrom, Outside, HoldsImage, Accepts, OutputOf, OffsetOf, PosOf, Fetched, Furthest, Max;
    RoundOutside(part, w0, w, w', offset, pos, segs, job, |outs|);
    SameImage(w, w', pos, Max(pos + Fetched(part, offset, job.answers(|outs|)), |part|), outs);
  }

  /** At the end of the partition no segment is left. */
  lemma NoneLeft(part: seq<u32>, w0: seq<u32>, w: seq<u32>, offset: nat, pos: nat, segs: seq<seq<Item>>,
                 outs: seq<seq<Item>>, job: Job)
    requires Progress(part, w0, w, offset, pos, segs, outs, job) && offset >= |part|
    ensures |outs| <= |segs| && segs[|outs|..] == []
  {
    HoldsParts(part, offset, segs[|outs|..]);
  }

  /** One round of the loop. */
  method Round(part: seq<u32>, block: array<u32>, tag: u32, data: Bytes, job: Job, pos: nat, offset: nat, src: nat, dest: nat,
               ghost w0: seq<u32>, ghost segs: seq<seq<Item>>, k: nat, ghost outs: seq<seq<Item>>)
    returns (rc: Rc, pos': nat, offset': nat, src': nat, dest': nat, ghost outs': seq<seq<Item>>)
    requires Memory(part, offset, pos, block.Length) && offset + src == |part| && dest == Left(|part|, pos)
    requires |data| < WORD32 && !Reserved(tag)
    requires job.it == MakeItem(tag, data) && NoStrays(part, segs, job) && k == |outs|
    requires Progress(part, w0, block[..], offset, pos, segs, outs, job)
    modifies block
    ensures Memory(part, offset', pos', block.Length) && offset' + src' == |part| && dest' == Left(|part|, pos')
    ensures rc == Ok ==> Progress(part, w0, block[..], offset', pos', segs, outs', job)
    ensures rc == Ok ==> |outs'| == |outs| + 1 && offset < offset'
    ensures rc != Ok ==> pos' == pos && offset' == offset && outs' == outs && Stopped(part, w0, block[..], pos, segs, outs, job)
  {
    hide *;
    ghost var w := block[..];
    ProgressParts(part, w0, w, offset, pos, segs, outs, job);
    FirstOffset(segs, job, k);
    MadeItem(tag, data);
    var write := job.all || offset == 0;
    ghost var out;
    rc, pos', offset', src', dest', out :=
      SegmentWriteTlv(part, block, tag, data, pos, offset, src, dest, write, job.answers(k), segs[k..]);
    outs' := outs;
    if rc != Ok {
      ProgressEnds(part, w0, w, block[..], offset, pos, segs, outs, job);
    } else {
      ProgressStep(part, w0, w, block[..], offset, pos, segs, outs, out, job);
      outs' := outs + [out];
    }
  }

  /** The loop of ef10_nvram_partn_write_segment_tlv and the size check that follows it, over a partition that
      holds framed segments; the buffer, the first |part| words, starts out zero.  In the end the memory holds
      the first segments of the partition in order, each with the item written to it exactly when that was
      asked for, up to the first one that is not taken.  Nothing stops the loop when they outgrow the buffer;
      the size check then reports it. */
  method PartitionWriteTlv(part: seq<u32>, block: array<u32>, tag: u32, data: Bytes, job: Job, ghost segs: seq<seq<Item>>)
    returns (rc: Rc, total: nat, ghost outs: seq<seq<Item>>)
    requires 2 * |part| + CHUNK <= block.Length && 4 * block.Length < WORD32
    requires |data| < WORD32 && !Reserved(tag) && job.it == MakeItem(tag, data)
    requires Holds(part, 0, segs) && NoStrays(part, segs, job) && ZeroFrom(block[..], 0, |part|)
    modifies block
    ensures Stops(part, segs, job, |outs|)
    ensures |outs| == |segs| <==> forall i :: 0 <= i < |segs| ==> Takes(part, segs, job, i)
    ensures Outputs(segs, outs, job)
    ensures |outs| <= |segs| && forall i :: 0 <= i < |outs| ==>
      if job.all || i == 0 then Updated(segs[i], outs[i], job.it) else outs[i] == segs[i]
    ensures total == PosOf(segs, job, |outs|) && (job.all ==> total <= |part|)
    ensures rc == Ok <==> |outs| > 0 && total <= |part|
    ensures |outs| > 0 && total > |part| ==> rc == ENOSPC
    ensures HoldsImage(block[..], total, outs)
    ensures Outside(old(block[..]), block[..], 0, Furthest(part, segs, job, |outs| + 1))
  {
    hide *;
    var offset: nat, src: nat, pos: nat, k := 0, |part|, 0, 0;
    var dest := Left(|part|, 0);
    ghost var w0 := block[..];
    outs := [];
    MemoryIs(part, 0, 0, w0);
    ProgressStart(part, w0, segs, job);
    while true
      invariant Memory(part, offset, pos, block.Length) && offset + src == |part| && dest == Left(|part|, pos) && k == |outs|
      invariant Progress(part, w0, block[..], offset, pos, segs, outs, job)
      invariant offset == 0 <==> outs == []
      decreases src
    {
      rc, pos, offset, src, dest, outs := Round(part, block, tag, data, job, pos, offset, src, dest, w0, segs, k, outs);
      if rc != Ok {
        break;
      }
      k := k + 1;
      if offset >= |part| {
        NoneLeft(part, w0, block[..], offset, pos, segs, outs, job);
        OutsideSame(block[..], pos, Max(pos + Fetched(part, offset, job.answers(k)), |part|));
        ProgressEnds(part, w0, block[..], block[..], offset, pos, segs, outs, job);
        break;
      }
    }
    StoppedParts(part, w0, block[..], pos, segs, outs, job);
    MadeItem(tag, data);
    OutputsAre(segs, outs, job);
    total := pos;
    if offset != 0 {
      rc := if total > |part| then ENOSPC else Ok;
    }
  }

  lemma StoppedParts(part: seq<u32>, w0: seq<u32>, w: seq<u32>, pos: nat, segs: seq<seq<Item>>,
                     outs: seq<seq<Item>>, job: Job)
    requires Stopped(part, w0, w, pos, segs, outs, job)
    ensures Stops(part, segs, job, |outs|) && Outputs(segs, outs, job) && HoldsImage(w, pos, outs)
    ensures pos == PosOf(segs, job, |outs|) && (job.all ==> pos <= |part|)
    ensures Outside(w0, w, 0, Furthest(part, segs, job, |outs| + 1))
    ensures |outs| == |segs| <==> forall i :: 0 <= i < |segs| ==> Takes(part, segs, job, i)
  {
  }
}
