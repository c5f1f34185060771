/** Building, editing, sealing and checking a partition image in memory (common/ef10_nvram.c:586-1105).
    Sizes and offsets are in words; the limit of a cursor is the last word of the buffer. */
module NvramBuffer {
  import opened Options
  import opened Words
  import opened TlvFormat
  import opened TlvSplice
  import opened TlvCursor
  import opened TlvImage

  // ---------------------------------------------------------------- the frame in the words

  /** Rewriting the four bookkeeping words of a framed segment. */
  function Restamped(w: seq<u32>, base: nat, e: nat, generation: u32, total: u32, checksum: u32): (r: seq<u32>)
    requires base + 9 <= e < |w|
    ensures |r| == |w|
  {
    w[base + 3 := generation][base + 4 := total][e - 2 := generation][e - 1 := checksum]
  }

  lemma RestampedFrame(w: seq<u32>, base: nat, items: seq<Item>, limit: nat, generation: u32, total: u32, checksum: u32)
    requires SegmentAt(w, base, items, limit) && Framed(items)
    ensures base + 9 <= base + |Enc(items)| < |w|
    ensures var e := base + |Enc(items)|; var r := Restamped(w, base, e, generation, total, checksum);
      var f := Frame(items[0].body[0], generation, total, Inner(items), checksum);
      SegmentAt(r, base, f, limit) && |Enc(f)| == |Enc(items)|
  {
    hide *;
    FrameParts(items, generation, total, checksum);
    FrameWords(w, base, items, limit);
    var e := base + |Enc(items)|;
    var h, mid, t := items[0], Inner(items), items[|items| - 1];
    var h', t' := Header(h.body[0], generation, total), Trailer(generation, checksum);
    var f := Frame(h.body[0], generation, total, mid, checksum);
    EncFrame(h', mid, t');
    SegmentIsAt(w, base, items, limit);
    SegmentIsAt(Restamped(w, base, e, generation, total, checksum), base, f, limit);
    RestampedWords(w, base, e, EncItem(h), Enc(mid), EncItem(t), EncItem(h'), EncItem(t'));
  }

  /** The encoded parts of a framed chain, and of the same chain with other bookkeeping. */
  lemma FrameParts(items: seq<Item>, generation: u32, total: u32, checksum: u32)
    requires Framed(items)
    ensures |items| >= 2 && |items[0].body| == 3
    ensures var h, mid, t := items[0], Inner(items), items[|items| - 1];
      var h', t' := Header(h.body[0], generation, total), Trailer(generation, checksum);
      && Enc(items) == EncItem(h) + Enc(mid) + EncItem(t) && |Enc(items)| == |Enc(mid)| + 9
      && EncItem(h') == [HEADER, HEADER_LEN, h.body[0], generation, total] && EncItem(t') == [TRAILER, TRAILER_LEN, generation, checksum]
      && |EncItem(h)| == 5 && |EncItem(t)| == 4 && EncItem(h)[..3] == EncItem(h')[..3] && EncItem(t)[..2] == EncItem(t')[..2]
      && Frame(h.body[0], generation, total, mid, checksum) == [h'] + mid + [t'] && ItemsOk([h'] + mid + [t'])
  {
    FramedParts(items);
    var h, t := items[0], items[|items| - 1];
    FrameOk(items, Header(h.body[0], generation, total), Trailer(generation, checksum));
  }

  /** Where the bookkeeping words of a framed segment are. */
  lemma FrameWords(w: seq<u32>, base: nat, items: seq<Item>, limit: nat)
    requires SegmentAt(w, base, items, limit) && Framed(items)
    ensures var e := base + |Enc(items)|; var t := items[|items| - 1];
      && |items[0].body| == 3 && |t.body| == 2
      && base + 9 <= e < |w| && w[base] == HEADER && w[base + 2] == items[0].body[0] && w[base + 3] == Generation(items)
      && w[base + 4] == items[0].body[2] && w[e - 2] == t.body[0] && w[e - 1] == t.body[1]
  {
    hide Enc;
    FramedParts(items);
    var e := base + |Enc(items)|;
    var h, mid, t := items[0], Inner(items), items[|items| - 1];
    var v := w[base..e + 1];
    assert v == EncItem(h) + Enc(mid) + EncItem(t) + [END];
    assert v[0] == HEADER && v[2] == h.body[0] && v[3] == h.body[1] && v[4] == h.body[2];
    assert v[e - 2 - base] == EncItem(t)[2] && v[e - 1 - base] == EncItem(t)[3];
  }

  lemma FrameOk(items: seq<Item>, h': Item, t': Item)
    requires Framed(items) && ItemOk(h') && ItemOk(t')
    ensures ItemsOk([h'] + Inner(items) + [t'])
  {
    FramedParts(items);
  }

  lemma RestampedWords(w: seq<u32>, base: nat, e: nat, h: seq<u32>, m: seq<u32>, t: seq<u32>, h': seq<u32>, t': seq<u32>)
    requires |h| == |h'| == 5 && |t| == |t'| == 4 && e == base + |m| + 9
    requires At(w, base, h + m + t + [END]) && e < |w|
    requires h'[..3] == h[..3] && t'[..2] == t[..2] && t'[2] == h'[3]
    ensures At(Restamped(w, base, e, h'[3], h'[4], t'[3]), base, h' + m + t' + [END])
  {
    FourParts(w, base, h, m, t, [END]);
    var r := Restamped(w, base, e, h'[3], h'[4], t'[3]);
    FourParts(r, base, h', m, t', [END]);
    Pieces(w, r, base, e, h, m, t, h', t');
  }

  lemma FourParts(w: seq<u32>, p: nat, a: seq<u32>, b: seq<u32>, c: seq<u32>, d: seq<u32>)
    ensures At(w, p, a + b + c + d) <==>
      At(w, p, a) && At(w, p + |a|, b) && At(w, p + |a| + |b|, c) && At(w, p + |a| + |b| + |c|, d)
  {
    assert a + b + c + d == a + (b + (c + d));
    AtConcat(w, p, a, b + (c + d));
    AtConcat(w, p + |a|, b, c + d);
    AtConcat(w, p + |a| + |b|, c, d);
  }

  lemma Pieces(w: seq<u32>, r: seq<u32>, base: nat, e: nat, h: seq<u32>, m: seq<u32>, t: seq<u32>, h': seq<u32>, t': seq<u32>)
    requires |h| == |h'| == 5 && |t| == |t'| == 4 && e == base + |m| + 9 && e < |w|
    requires At(w, base, h) && At(w, base + 5, m) && At(w, e - 4, t) && At(w, e, [END])
    requires h'[..3] == h[..3] && t'[..2] == t[..2] && t'[2] == h'[3]
    requires r == Restamped(w, base, e, h'[3], h'[4], t'[3])
    ensures At(r, base, h') && At(r, base + 5, m) && At(r, e - 4, t') && At(r, e, [END])
  {
    assert r[base + 5..base + 5 + |m|] == w[base + 5..base + 5 + |m|];
    assert forall k :: 0 <= k < 3 ==> h'[k] == h'[..3][k] == h[..3][k] == h[k] == w[base..base + 5][k] == r[base + k];
    assert forall k :: 0 <= k < 2 ==> t'[k] == t'[..2][k] == t[..2][k] == t[k] == w[e - 4..e][k] == r[e - 4 + k];
    assert r[base..base + 5] == h';
    assert r[e - 4..e] == t';
    assert r[e..e + 1] == w[e..e + 1];
  }

  // ---------------------------------------------------------------- checksums

  /** The loop over the words of a segment (common/ef10_nvram.c:602-606, 724-730). */
  method SumWords(block: array<u32>, base: nat, n: nat) returns (sum: u32)
    requires base + n <= block.Length
    ensures sum == WordSum(block[base..base + n])
  {
    sum := 0;
    var pos := 0;
    while pos < n
      invariant 0 <= pos <= n
      invariant sum == WordSum(block[base..base + pos])
    {
      TotalSnoc(block[base..base + pos], block[base + pos]);
      assert block[base..base + pos + 1] == block[base..base + pos] + [block[base + pos]];
      WrapAdd(Total(block[base..base + pos]), block[base + pos]);
      sum := Add32(sum, block[base + pos]);
      pos := pos + 1;
    }
  }

  lemma SegmentSum(w: seq<u32>, base: nat, items: seq<Item>, limit: nat)
    requires SegmentAt(w, base, items, limit)
    ensures WordSum(w[base..base + UsedWords(items)]) == WordSum(Enc(items) + [END])
  {
  }

  /** Item positions do not move when only header and trailer values change. */
  lemma SamePlaces(items: seq<Item>, f: seq<Item>, k: nat)
    requires Framed(items) && k < |items| == |f| && |f[0].body| == 3 && Inner(f) == Inner(items)
    ensures |Enc(f[..k])| == |Enc(items[..k])|
  {
    if k == 0 {
      assert f[..0] == items[..0];
    } else {
      var mid := Inner(items)[..k - 1];
      assert items[..k] == [items[0]] + mid;
      assert f[..k] == [f[0]] + Inner(f)[..k - 1];
      EncFirst(items[0], mid);
      EncFirst(f[0], mid);
    }
  }

  /** A cursor stands on item k of the segment at its base. */
  ghost predicate OnItemOf(w: seq<u32>, base: nat, current: int, limit: nat, k: nat) {
    && ChainEnd(w, base, limit).Some?
    && var items := ItemsAt(w, base, limit);
      k < |items| && current == base + |Enc(items[..k])|
  }

  /** checksum_tlv_partition, for a cursor that stands on item k. */
  method PartitionSum(c: Cursor, ghost k: nat) returns (sum: u32)
    requires c.Sound() && c.Readable(c.base) && c.Readable(c.current) && c.EndOk()
    requires OnItemOf(c.W(), c.base, c.current, c.limit, k)
    modifies c`current, c`end
    ensures c.W() == old(c.W())
    ensures var items := ItemsAt(c.W(), c.base, c.limit);
      sum == WordSum(Enc(items) + [END])
  {
    hide FindAt, ChainEnd, ItemsAt, WordSum, Enc, SegmentAt;
    ghost var items := ItemsAt(c.W(), c.base, c.limit);
    FoundIsSegment(c.W(), c.base, c.limit);
    ItemInWords(c.W(), c.base, items, c.limit, k);
    var n := c.LengthUsed();
    SegmentSum(c.W(), c.base, items, c.limit);
    sum := SumWords(c.block, c.base, n);
  }

  // ---------------------------------------------------------------- sealing

  /** A segment sealed by the update: its bookkeeping is right, and no other word has changed. */
  ghost predicate Sealed(w: seq<u32>, w': seq<u32>, base: nat, items: seq<Item>, limit: nat)
    requires Framed(items) && 4 * UsedWords(items) < WORD32
  {
    && base + UsedWords(items) <= |w| == |w'|
    && SegmentAt(w', base, Stamped(items), limit)
    && w'[..base] == w[..base] && w'[base + |Enc(items)|..] == w[base + |Enc(items)|..]
  }

  lemma RestampedIsSealed(w: seq<u32>, base: nat, items: seq<Item>, limit: nat, checksum: u32)
    requires SegmentAt(w, base, items, limit) && Framed(items) && 4 * |w| < WORD32
    requires 4 * UsedWords(items) < WORD32
    requires checksum ==
      Negate(RestSum(items[0].body[0], Add32(Generation(items), 1), 4 * UsedWords(items), Inner(items)))
    ensures base + 9 <= base + |Enc(items)| < |w|
    ensures Sealed(w, Restamped(w, base, base + |Enc(items)|, Add32(Generation(items), 1), 4 * UsedWords(items), checksum),
                   base, items, limit)
  {
    hide SegmentAt, Frame, Enc, RestSum, Negate, Inner, Framed, Restamped;
    var generation, total := Add32(Generation(items), 1), 4 * UsedWords(items);
    FrameWords(w, base, items, limit);
    RestampedFrame(w, base, items, limit, generation, total, checksum);
    RestampedOutside(w, base, base + |Enc(items)|, generation, total, checksum);
  }

  lemma RestampedOutside(w: seq<u32>, base: nat, e: nat, generation: u32, total: u32, checksum: u32)
    requires base + 9 <= e < |w|
    ensures var r := Restamped(w, base, e, generation, total, checksum); r[..base] == w[..base] && r[e..] == w[e..]
  {
  }

  /** Writing the lengths and generations, all but the checksum. */
  method WriteCounts(block: array<u32>, base: nat, e: nat, total: u32)
    requires base + 9 <= e < block.Length
    modifies block
    ensures var w := old(block[..]);
      block[..] == Restamped(w, base, e, Add32(w[base + 3], 1), total, w[e - 1])
  {
    block[base + 4] := total;
    block[base + 3] := Add32(block[base + 3], 1);
    block[e - 2] := block[base + 3];
  }

  method WriteChecksum(block: array<u32>, ghost w: seq<u32>, base: nat, e: nat, ghost generation: u32, ghost total: u32,
                       ghost before: u32, checksum: u32)
    requires base + 9 <= e < |w| && block[..] == Restamped(w, base, e, generation, total, before)
    modifies block
    ensures block[..] == Restamped(w, base, e, generation, total, checksum)
  {
    block[e - 1] := checksum;
  }

  lemma StillOnItem(w: seq<u32>, base: nat, items: seq<Item>, limit: nat, k: nat, generation: u32, total: u32, checksum: u32)
    requires SegmentAt(w, base, items, limit) && Framed(items) && k < |items|
    ensures base + 9 <= base + |Enc(items)| < |w|
    ensures var e := base + |Enc(items)|; var r := Restamped(w, base, e, generation, total, checksum);
      var f := Frame(items[0].body[0], generation, total, Inner(items), checksum);
      && ChainEnd(r, base, limit) == Some(e) && ItemsAt(r, base, limit) == f
      && OnItemOf(r, base, base + |Enc(items[..k])|, limit, k) && r[e - 1] == checksum
  {
    hide SegmentAt, Enc, EncItem, ChainEnd, ItemsAt, ValidAt;
    var e := base + |Enc(items)|;
    FrameWords(w, base, items, limit);
    RestampedFrame(w, base, items, limit, generation, total, checksum);
    var f := Frame(items[0].body[0], generation, total, Inner(items), checksum);
    SegmentIsFound(Restamped(w, base, e, generation, total, checksum), base, f, limit);
    assert Inner(f) == Inner(items);
    SamePlaces(items, f, k);
  }

  /** The second half of tlv_update_partition_len_and_cks, once the n words used are known.  The
      trailer is taken to be the last item before END. */
  method Seal(partition: Cursor, n: nat, ghost items: seq<Item>, ghost k: nat)
    requires partition.Sound() && partition.Readable(partition.base) && partition.Readable(partition.current)
    requires partition.EndOk() && 4 * partition.block.Length < WORD32
    requires SegmentAt(partition.W(), partition.base, items, partition.limit) && Framed(items) && n == UsedWords(items)
    requires k < |items| && partition.current == partition.base + |Enc(items[..k])|
    modifies partition, partition.block
    ensures 4 * n < WORD32 && Sealed(old(partition.W()), partition.W(), partition.base, items, partition.limit)
  {
    hide SegmentAt, ItemsAt, ChainEnd, Framed, Frame, RestSum, Restamped, Sealed, Enc, EncItem, ValidAt, Stamped, Inner,
         Negate, Sub32, NextAt;
    var block, base := partition.block, partition.base;
    ghost var w, limit := block[..], partition.limit;
    SegmentIsFound(w, base, items, limit);
    FrameWords(w, base, items, limit);
    var e := base + n - 1;
    WriteCounts(block, base, e, 4 * n);
    ghost var generation, kind, oldSum := Add32(Generation(items), 1), items[0].body[0], w[e - 1];
    StillOnItem(w, base, items, limit, k, generation, 4 * n, oldSum);
    var sum := PartitionSum(partition, k);
    FrameSum(kind, generation, 4 * n, Inner(items), oldSum);
    ChecksumCloses(RestSum(kind, generation, 4 * n, Inner(items)), oldSum);
    WriteChecksum(block, w, base, e, generation, 4 * n, oldSum, Sub32(block[e - 1], sum));
    RestampedIsSealed(w, base, items, limit, Sub32(oldSum, sum));
  }

  /** tlv_update_partition_len_and_cks */
  method UpdateLenAndChecksum(c: Cursor, ghost k: nat) returns (rc: Rc)
    requires c.Sound() && c.Readable(c.base) && c.Readable(c.current) && c.EndOk()
    requires c.base < c.block.Length && 4 * c.block.Length < WORD32
    requires c.FirstEnd().Some? && c.W()[c.base] == HEADER ==>
      OnItemOf(c.W(), c.base, c.current, c.limit, k) && Framed(ItemsAt(c.W(), c.base, c.limit))
    modifies c.block
    ensures rc == Ok <==> old(c.FirstEnd().Some? && c.W()[c.base] == HEADER)
    ensures rc == Ok ==> (var items := old(ItemsAt(c.W(), c.base, c.limit));
      4 * UsedWords(items) < WORD32 && Sealed(old(c.W()), c.W(), c.base, items, c.limit))
    ensures rc != Ok ==> c.W() == old(c.W())
  {
    hide SegmentAt, ChainEnd, ItemsAt, Framed, Sealed, Enc, EncItem, ValidAt;
    if c.block[c.base] != HEADER {
      return EFAULT;
    }
    ghost var w := c.W();
    var partition := new Cursor(c.block, c.base, c.limit, c.current);
    partition.end := c.end;
    if c.FirstEnd().Some? {
      FoundIsSegment(w, c.base, c.limit);
      ItemInWords(w, c.base, ItemsAt(w, c.base, c.limit), c.limit, k);
    }
    var n := partition.LengthUsed();
    if n == 0 {
      return EFAULT;
    }
    Seal(partition, n, ItemsAt(w, c.base, c.limit), k);
    return Ok;
  }

  // ---------------------------------------------------------------- validating

  /** A header first, and a trailer at t that is followed by END. */
  ghost predicate FramedAt(w: seq<u32>, base: nat, n: nat, t: nat) {
    && 1 <= n && base + n <= |w| && base + 5 <= |w| && ValidAt(w, base, base + n - 1) && w[base] == HEADER
    && w[base + 4] <= 4 * n
    && FindAt(w, base, TRAILER, -1, base + n - 1) == Some(t) && w[t] != END
    && ValidAt(w, NextAt(w, t), base + n - 1) && w[NextAt(w, t)] == END
  }

  /** What the validation accepts in the n words at base: that, equal generations, and words up to the
      stated length that sum to zero. */
  ghost predicate Accepted(w: seq<u32>, base: nat, n: nat) {
    && 1 <= n && FindAt(w, base, TRAILER, -1, base + n - 1).Some?
    && var t := FindAt(w, base, TRAILER, -1, base + n - 1).value;
      FramedAt(w, base, n, t) && w[t + 2] == w[base + 3] && WordSum(w[base..base + BodyWords(w[base + 4])]) == 0
  }

  lemma AcceptedIs(w: seq<u32>, n: nat)
    requires (n == 0 || 5 <= n) && n <= |w|
    ensures Accepted(w, 0, n) <==>
      && n > 0 && ValidAt(w, 0, n - 1) && w[0] == HEADER && w[4] <= 4 * n
      && var r := FindAt(w, 0, TRAILER, -1, n - 1);
        r.Some? && ValidAt(w, NextAt(w, r.value), n - 1) && w[NextAt(w, r.value)] == END
        && w[r.value + 2] == w[3] && WordSum(w[..BodyWords(w[4])]) == 0
  {
    hide FindAt, WordSum;
  }

  /** tlv_find for the trailer, then the check that END follows it. */
  method TrailerThenEnd(c: Cursor) returns (rc: Rc, t: nat)
    requires c.Sound() && c.Readable(c.base) && c.limit < c.block.Length && c.end == -1
    modifies c`current
    ensures var r := FindAt(c.W(), c.base, TRAILER, -1, c.limit);
      rc == Ok <==> r.Some? && ValidAt(c.W(), NextAt(c.W(), r.value), c.limit) && c.W()[NextAt(c.W(), r.value)] == END
    ensures rc == Ok ==> (FindAt(c.W(), c.base, TRAILER, -1, c.limit) == Some(t)
      && c.base <= t && t + 2 < c.limit + 1 && c.current == NextAt(c.W(), t))
    ensures rc == Ok || rc == EINVAL
  {
    t := 0;
    rc := c.Find(TRAILER);
    if rc != Ok {
      return EINVAL, t;
    }
    t := c.current;
    rc := c.Advance();
    if rc != Ok || c.block[c.current] != END {
      return EINVAL, t;
    }
  }

  /** ef10_nvram_buffer_validate; n is the size in words.  Reading the header's total_length needs
      a buffer that can hold a header. */
  method Validate(block: array<u32>, n: nat) returns (rc: Rc)
    requires (n == 0 || 5 <= n) && n <= block.Length
    ensures rc == Ok <==> (var w, limit := block[..], n - 1;
      && n > 0 && ValidAt(w, 0, limit) && w[0] == HEADER && w[4] <= 4 * n
      && var r := FindAt(w, 0, TRAILER, -1, limit);
        && r.Some? && ValidAt(w, NextAt(w, r.value), limit) && w[NextAt(w, r.value)] == END
        && w[r.value + 2] == w[3] && WordSum(w[..BodyWords(w[4])]) == 0)
    ensures rc == Ok <==> Accepted(block[..], 0, n)
    ensures rc == EFAULT <==> n > 0 && !ValidAt(block[..], 0, n - 1)
    ensures rc == EFBIG <==> n > 0 && ValidAt(block[..], 0, n - 1) && block[0] == HEADER && block[4] > 4 * n
    ensures rc in {Ok, EFAULT, EFBIG, EINVAL}
  {
    hide Accepted, FramedAt, FindAt, WordSum, ValidAt, NextAt;
    AcceptedIs(block[..], n);
    if n == 0 {
      return EINVAL;
    }
    var c := new Cursor(block, 0, n - 1, 0);
    rc := c.ValidateState();
    if rc != Ok {
      return EFAULT;
    }
    if block[0] != HEADER {
      return EINVAL;
    }
    var total := block[4];
    if total > 4 * n {
      return EFBIG;
    }
    var t;
    rc, t := TrailerThenEnd(c);
    if rc != Ok {
      return EINVAL;
    }
    if block[t + 2] != block[3] {
      return EINVAL;
    }
    var sum := SumWords(block, 0, BodyWords(total));
    assert block[0..0 + BodyWords(total)] == block[..][0..0 + BodyWords(total)];
    if sum != 0 {
      return EINVAL;
    }
    return Ok;
  }

  // ---------------------------------------------------------------- editing

  /** A buffer of n words that holds one framed segment and no further END. */
  ghost predicate Licensed(w: seq<u32>, n: nat, items: seq<Item>) {
    && 1 <= n <= |w|
    && SegmentAt(w, 0, items, n - 1) && Framed(items) && NoEnd(w, UsedWords(items), n - 1)
  }

  lemma LicensedIs(w: seq<u32>, n: nat, items: seq<Item>)
    ensures Licensed(w, n, items) <==>
      1 <= n <= |w| && SegmentAt(w, 0, items, n - 1) && Framed(items) && NoEnd(w, |Enc(items)| + 1, n - 1)
    ensures Licensed(w, n, items) ==> |items| >= 2 && ItemsOk(items)
  {
  }

  lemma OneSegment(w: seq<u32>, n: nat, items: seq<Item>)
    requires Licensed(w, n, items)
    ensures ChainEnd(w, 0, n - 1) == Some(|Enc(items)|) && ItemsAt(w, 0, n - 1) == items
    ensures LastEnd(w, 0, 0, n - 1) == |Enc(items)| < n
  {
    SegmentIsFound(w, 0, items, n - 1);
    var e := |Enc(items)|;
    UnfoldLast(w, 0, 0, n - 1);
    NoEndNoChain(w, e + 1, e, n - 1);
  }

  /** The items with drop of them at k replaced by others. */
  function Edited(items: seq<Item>, k: nat, drop: nat, put: seq<Item>): seq<Item>
    requires k + drop <= |items|
  {
    items[..k] + put + items[k + drop..]
  }

  /** An edit between header and trailer leaves a buffer of the same kind. */
  lemma EditedBuffer(w: seq<u32>, n: nat, items: seq<Item>, k: nat, drop: nat, put: seq<Item>)
    requires Licensed(w, n, items) && 0 < k && k + drop < |items| && ItemsOk(put)
    requires forall j :: 0 <= j < |put| ==> !Reserved(put[j].tag)
    requires |Enc(items)| + 1 + |Enc(put)| - |Enc(items[k..k + drop])| <= n - 1
    ensures |Enc(items[..k])| + |Enc(items[k..k + drop])| <= |Enc(items)| < n
    ensures var r := Spliced(w, |Enc(items[..k])|, |Enc(items[k..k + drop])|, Enc(put), |Enc(items)|);
      Licensed(r, n, Edited(items, k, drop, put)) && r[n..] == w[n..]
  {
    hide *;
    LicensedIs(w, n, items);
    EditedParts(items, k, drop, put);
    FramedEdit(items, k, drop, put);
    EditedSplit(w, n, items[..k], items[k..k + drop], put, items[k + drop..]);
  }

  lemma EditedSplit(w: seq<u32>, n: nat, a: seq<Item>, gone: seq<Item>, put: seq<Item>, c: seq<Item>)
    requires Licensed(w, n, a + gone + c) && Framed(a + put + c) && ItemsOk(put)
    requires |Enc(a + gone + c)| + 1 + |Enc(put)| - |Enc(gone)| <= n - 1
    ensures |Enc(a)| + |Enc(gone)| <= |Enc(a + gone + c)| < n <= |w|
    ensures var r := Spliced(w, |Enc(a)|, |Enc(gone)|, Enc(put), |Enc(a + gone + c)|);
      Licensed(r, n, a + put + c) && r[n..] == w[n..]
  {
    hide *;
    var e := |Enc(a + gone + c)|;
    LicensedIs(w, n, a + gone + c);
    OneSegment(w, n, a + gone + c);
    EncThree(a, gone, c);
    EncThree(a, put, c);
    SplicedItems(w, n - 1, 0, a, gone, put, c, e);
    TailKept(w, |Enc(a)|, |Enc(gone)|, Enc(put), e, n);
    LicensedIs(Spliced(w, |Enc(a)|, |Enc(gone)|, Enc(put), e), n, a + put + c);
  }

  lemma EditedParts(items: seq<Item>, k: nat, drop: nat, put: seq<Item>)
    requires k + drop <= |items|
    ensures items == items[..k] + items[k..k + drop] + items[k + drop..]
    ensures Edited(items, k, drop, put) == items[..k] + put + items[k + drop..]
  {
  }

  lemma TailKept(w: seq<u32>, p: nat, drop: nat, put: seq<u32>, lse: nat, n: nat)
    requires p + drop <= lse + 1 <= n <= |w| && lse + 1 + |put| - drop <= n
    ensures Spliced(w, p, drop, put, lse)[n..] == w[n..]
  {
  }

  lemma FramedEdit(items: seq<Item>, k: nat, drop: nat, put: seq<Item>)
    requires Framed(items) && 0 < k && k + drop < |items| && ItemsOk(put)
    requires forall j :: 0 <= j < |put| ==> !Reserved(put[j].tag)
    ensures Framed(Edited(items, k, drop, put))
  {
    var r := items[..k] + put + items[k + drop..];
    forall j | 0 <= j < |r|
      ensures r[j] == if j < k then items[j] else if j < k + |put| then put[j - k] else items[j - |put| + drop]
    {
    }
  }

  /** Inserting a licence item in front of item k. */
  lemma InsertedKey(w: seq<u32>, n: nat, items: seq<Item>, k: nat, key: Bytes)
    requires Licensed(w, n, items) && 0 < k < |items| && |key| < WORD32
    requires |Enc(items)| + 1 + ItemWords(|key|) <= n - 1
    ensures var q := Place(items, k); var it := MakeItem(LICENSE, key);
      && q <= |Enc(items)| < n && |EncItem(it)| == ItemWords(|key|)
      && var r := Spliced(w, q, 0, EncItem(it), |Enc(items)|);
        Licensed(r, n, Edited(items, k, 0, [it])) && r[q + 1] == |key| && r[n..] == w[n..]
  {
    hide *;
    var q := Place(items, k);
    var it := MakeItem(LICENSE, key);
    PlaceIs(items, k);
    NothingAt(items, k);
    EncOne(it);
    KeyItem(key);
    EditedBuffer(w, n, items, k, 0, [it]);
    LicensedIs(w, n, items);
    SplicedSlices(w, q, 0, EncItem(it), |Enc(items)|);
    SecondWord(Spliced(w, q, 0, EncItem(it), |Enc(items)|), q, EncItem(it));
  }

  lemma PlaceIs(items: seq<Item>, k: nat)
    requires k <= |items|
    ensures Place(items, k) == |Enc(items[..k])|
  {
  }

  lemma NothingAt(items: seq<Item>, k: nat)
    requires k <= |items|
    ensures items[k..k + 0] == [] && Enc(items[k..k + 0]) == []
  {
  }

  lemma KeyItem(key: Bytes)
    requires |key| < WORD32
    ensures var it := MakeItem(LICENSE, key);
      && ItemOk(it) && !Reserved(it.tag) && |EncItem(it)| == ItemWords(|key|) >= 2 && EncItem(it)[1] == |key|
      && ItemsOk([it])
  {
    hide Pack;
    EncodedWords(LICENSE, key);
  }

  lemma SecondWord(r: seq<u32>, q: nat, s: seq<u32>)
    requires q + |s| <= |r| && r[q..q + |s|] == s && |s| >= 2
    ensures r[q + 1] == s[1]
  {
    assert r[q..q + |s|][1] == s[1];
  }

  /** The word offset of item k. */
  function Place(items: seq<Item>, k: nat): nat
    requires k <= |items|
  {
    |Enc(items[..k])|
  }

  /** What a cursor on item k of the buffer sees. */
  lemma CursorFacts(w: seq<u32>, n: nat, items: seq<Item>, k: nat)
    requires Licensed(w, n, items) && k < |items|
    ensures var q := Place(items, k); var e := |Enc(items)|;
      && 1 <= n <= |w| && ValidAt(w, q, n - 1) && w[q] == items[k].tag != END
      && NextAt(w, q) == q + |EncItem(items[k])| <= e < n
      && ChainEnd(w, 0, n - 1) == Some(e) && LastEnd(w, 0, 0, n - 1) == e
  {
    OneSegment(w, n, items);
    ItemInWords(w, 0, items, n - 1, k);
    assert ItemOk(items[k]);
  }

  /** A cursor on item k of the buffer that has not looked for the END yet. */
  ghost predicate OnKey(c: Cursor, n: nat, items: seq<Item>, k: nat)
    reads c, c.block
  {
    && c.base == 0 && c.limit == n - 1 && c.end == -1 && k < |items| && c.current == Place(items, k)
    && Licensed(c.block[..], n, items)
  }

  lemma OnKeySees(c: Cursor, n: nat, items: seq<Item>, k: nat)
    requires OnKey(c, n, items, k)
    ensures c.Sound() && c.Readable(c.base) && c.Readable(c.current) && c.EndOk() && c.OnItem() && c.Here()
    ensures c.W() == c.block[..] && c.limit < c.block.Length && c.FirstEnd() == Some(|Enc(items)|) && c.Last() == |Enc(items)|
    ensures c.base <= c.current <= |Enc(items)| && ValidAt(c.W(), c.current, c.limit)
    ensures NextAt(c.W(), c.current) == c.current + |EncItem(items[k])| <= |Enc(items)|
  {
    CursorFacts(c.block[..], n, items, k);
    hide Licensed, ChainEnd, LastEnd, Enc, Place, EncItem;
  }

  /** ef10_nvram_buffer_insert_item, at the offset of item k. */
  method InsertItem(block: array<u32>, n: nat, offset: nat, key: Bytes, ghost items: seq<Item>, ghost k: nat)
    returns (rc: Rc, length: nat)
    requires n <= block.Length && |key| < WORD32
    requires Licensed(block[..], n, items) && 0 < k < |items| && offset == Place(items, k)
    modifies block
    ensures rc == Ok <==> |Enc(items)| + 1 + ItemWords(|key|) <= n - 1
    ensures rc == Ok ==> length == 4 * ItemWords(|key|)
    ensures rc == Ok ==> Licensed(block[..], n, Edited(items, k, 0, [MakeItem(LICENSE, key)]))
    ensures rc != Ok ==> block[..] == old(block[..])
    ensures block[n..] == old(block[n..])
  {
    hide *;
    ghost var w := block[..];
    LicensedIs(w, n, items);
    var c := new Cursor(block, 0, n - 1, offset);
    length := 0;
    OnKeyIs(c, n, items, k);
    OnKeySees(c, n, items, k);
    rc := c.ValidateState();
    if rc != Ok {
      return;
    }
    OnKeyIs(c, n, items, k);
    OnKeySees(c, n, items, k);
    TagsDiffer();
    rc := c.Insert(LICENSE, key);
    WordsIs(c);
    if rc != Ok {
      return;
    }
    InsertedKey(w, n, items, k, key);
    length := 4 * ItemWords(block[c.current + 1]);
  }

  lemma OnKeyIs(c: Cursor, n: nat, items: seq<Item>, k: nat)
    requires k <= |items|
    ensures OnKey(c, n, items, k) <==>
      && c.base == 0 && c.limit == n - 1 && c.end == -1 && k < |items| && c.current == Place(items, k)
      && Licensed(c.block[..], n, items)
  {
    hide Place, Licensed;
  }

  lemma WordsIs(c: Cursor)
    ensures c.W() == c.block[..]
  {
  }

  lemma DeletedKey(w: seq<u32>, n: nat, items: seq<Item>, k: nat)
    requires Licensed(w, n, items) && 0 < k < |items| - 1
    ensures var q := Place(items, k); var drop := |EncItem(items[k])|;
      && q + drop <= |Enc(items)| < n <= |w|
      && var r := Spliced(w, q, drop, [], |Enc(items)|);
        Licensed(r, n, Edited(items, k, 1, [])) && r[n..] == w[n..]
  {
    EncOne(items[k]);
    assert items[k..k + 1] == [items[k]] && Enc([]) == [];
    OneSegment(w, n, items);
    ItemInWords(w, 0, items, n - 1, k);
    EditedBuffer(w, n, items, k, 1, []);
  }

  /** What a deletion reads is at most as long as the buffer again. */
  lemma DeleteReads(w: seq<u32>, n: nat, items: seq<Item>, k: nat)
    requires Licensed(w, n, items) && k < |items|
    ensures |Enc(items)| + |EncItem(items[k])| < 2 * n
  {
    hide Licensed, Enc, EncItem, ValidAt, NextAt, ChainEnd, LastEnd, Place;
    CursorFacts(w, n, items, k);
  }

  /** ef10_nvram_buffer_delete_item, at the offset of item k.  The move reads as many words behind the
      last END as the item has, and these must be there; they are not changed. */
  method DeleteItem(block: array<u32>, n: nat, offset: nat, ghost items: seq<Item>, ghost k: nat) returns (rc: Rc)
    requires n <= block.Length
    requires Licensed(block[..], n, items) && 0 < k < |items| - 1 && offset == Place(items, k)
    requires |Enc(items)| + |EncItem(items[k])| < block.Length
    modifies block
    ensures rc == Ok && Licensed(block[..], n, Edited(items, k, 1, []))
    ensures block[n..] == old(block[n..])
  {
    hide *;
    ghost var w := block[..];
    LicensedIs(w, n, items);
    var c := new Cursor(block, 0, n - 1, offset);
    OnKeyIs(c, n, items, k);
    OnKeySees(c, n, items, k);
    rc := c.ValidateState();
    if rc != Ok {
      return;
    }
    OnKeyIs(c, n, items, k);
    OnKeySees(c, n, items, k);
    rc := c.Delete();
    WordsIs(c);
    DeletedKey(w, n, items, k);
  }

  // ---------------------------------------------------------------- finishing

  lemma SealedIsLicensed(w: seq<u32>, w': seq<u32>, n: nat, items: seq<Item>)
    requires Licensed(w, n, items) && 4 * UsedWords(items) < WORD32 && Sealed(w, w', 0, items, n - 1)
    ensures Licensed(w', n, Stamped(items)) && w'[n..] == w[n..]
  {
    StampBalances(items);
    SameTail(w, w', |Enc(items)|, n);
  }

  lemma SameTail(w: seq<u32>, w': seq<u32>, e: nat, n: nat)
    requires e < n <= |w| == |w'| && w'[e..] == w[e..]
    ensures w'[n..] == w[n..]
    ensures NoEnd(w, e + 1, n - 1) ==> NoEnd(w', e + 1, n - 1)
  {
    assert forall k :: e <= k < |w| ==> w'[k] == w'[e..][k - e] == w[e..][k - e] == w[k];
  }

  lemma FirstTrailer(items: seq<Item>)
    requires Framed(items)
    ensures FirstTag(items, TRAILER) == |items| - 1 && |items| >= 2
    ensures |Enc(items[..|items| - 1])| == |Enc(items)| - 4 && |EncItem(items[|items| - 1])| == 4
  {
    var f, k := FirstTag(items, TRAILER), |items| - 1;
    assert items[k].tag == TRAILER && ItemOk(items[k]);
    assert forall j :: 0 < j < |items| - 1 ==> !Reserved(items[j].tag);
    assert items[..k] + [items[k]] == items;
    EncConcat(items[..k], [items[k]]);
    EncOne(items[k]);
  }

  lemma NonEmptyRoom(w: seq<u32>, base: nat, items: seq<Item>, limit: nat)
    ensures SegmentAt(w, base, items, limit) && items != [] ==> base + |Enc(items)| < limit && TRAILER != END
  {
  }

  /** Where the trailer of a framed segment is, and the room the segment has. */
  lemma TrailerFacts(w: seq<u32>, base: nat, limit: nat, items: seq<Item>)
    requires SegmentAt(w, base, items, limit) && Framed(items)
    ensures var e := base + |Enc(items)|;
      && FindAt(w, base, TRAILER, -1, limit) == FindAt(w, base, TRAILER, e, limit) == Some(e - 4)
      && ChainEnd(w, base, limit) == Some(e) && base + 9 <= e < limit && e < |w| && w[e] == END
      && ValidAt(w, base, limit) && w[base] == HEADER && w[base + 3] == Generation(items)
      && ValidAt(w, e - 4, limit) && w[e - 4] != END && NextAt(w, e - 4) == e && ValidAt(w, e, limit)
  {
    hide *;
    FirstTrailer(items);
    NonEmptyRoom(w, base, items, limit);
    var k := |items| - 1;
    FrameWords(w, base, items, limit);
    SegmentIsFound(w, base, items, limit);
    FindInSegment(w, base, items, limit, TRAILER, -1);
    FindInSegment(w, base, items, limit, TRAILER, base + |Enc(items)|);
    ItemInWords(w, base, items, limit, k);
    FirstIsValid(w, base, limit);
  }

  lemma FirstIsValid(w: seq<u32>, base: nat, limit: nat)
    ensures ChainEnd(w, base, limit).Some? ==> ValidAt(w, base, limit)
  {
  }

  lemma BalancedParts(items: seq<Item>)
    requires Framed(items) && Balanced(items)
    ensures items[0].body[2] == 4 * UsedWords(items) && BodyWords(items[0].body[2]) == UsedWords(items) == |Enc(items)| + 1
    ensures items[|items| - 1].body[0] == Generation(items) && WordSum(Enc(items) + [END]) == 0
  {
  }

  /** A segment in balance is accepted by the validation. */
  lemma BalancedIsAccepted(w: seq<u32>, base: nat, n: nat, items: seq<Item>)
    requires 1 <= n && base + n <= |w| && SegmentAt(w, base, items, base + n - 1) && Framed(items) && Balanced(items)
    ensures Accepted(w, base, n)
  {
    hide SegmentAt, Framed, Balanced, FindAt, ValidAt, NextAt, WordSum, Enc, BodyWords, UsedWords, Generation, ChainEnd;
    TrailerFacts(w, base, base + n - 1, items);
    FrameWords(w, base, items, base + n - 1);
    SegmentSum(w, base, items, base + n - 1);
    BalancedParts(items);
    TagsDiffer();
  }

  lemma TagsDiffer()
    ensures TRAILER != END && HEADER != END && TRAILER != HEADER && LICENSE != END
  {
  }

  /** ef10_nvram_buffer_finish */
  method Finish(block: array<u32>, n: nat, ghost items: seq<Item>) returns (rc: Rc)
    requires n <= block.Length && 4 * block.Length < WORD32
    requires Licensed(block[..], n, items)
    modifies block
    ensures rc == Ok && 4 * UsedWords(items) < WORD32 && Licensed(block[..], n, Stamped(items))
    ensures block[n..] == old(block[n..])
  {
    hide *;
    ghost var w := block[..];
    LicensedIs(w, n, items);
    OneSegment(w, n, items);
    FrameWords(w, 0, items, n - 1);
    FirstPlace(items);
    var c := new Cursor(block, 0, n - 1, 0);
    OnKeyIs(c, n, items, 0);
    OnKeySees(c, n, items, 0);
    OnItemIs(w, 0, 0, n - 1, 0);
    rc := c.ValidateState();
    if rc != Ok {
      return EFAULT;
    }
    OnKeyIs(c, n, items, 0);
    OnKeySees(c, n, items, 0);
    rc := c.RequireEnd();
    WordsIs(c);
    if rc != Ok {
      return;
    }
    rc := UpdateLenAndChecksum(c, 0);
    WordsIs(c);
    SealedIsLicensed(w, block[..], n, items);
  }

  lemma FirstPlace(items: seq<Item>)
    ensures Place(items, 0) == |Enc(items[..0])| == 0
  {
  }

  lemma OnItemIs(w: seq<u32>, base: nat, current: int, limit: nat, k: nat)
    ensures OnItemOf(w, base, current, limit, k) <==>
      ChainEnd(w, base, limit).Some? && k < |ItemsAt(w, base, limit)|
      && current == base + |Enc(ItemsAt(w, base, limit)[..k])|
  {
  }

  // ---------------------------------------------------------------- creating

  const FILL: u32 := 0xFFFF_FFFF

  /** A buffer being created: a segment, then only fill up to word n. */
  ghost predicate Fresh(w: seq<u32>, n: nat, items: seq<Item>, limit: nat) {
    && SegmentAt(w, 0, items, limit) && UsedWords(items) < n <= |w| && 4 * n < WORD32 && limit <= n
    && forall k :: UsedWords(items) <= k < n ==> w[k] == FILL
  }

  /** The fill is not taken for an item. */
  lemma FreshEnd(w: seq<u32>, n: nat, items: seq<Item>, limit: nat)
    requires Fresh(w, n, items, limit)
    ensures ChainEnd(w, 0, limit) == Some(|Enc(items)|) && LastEnd(w, 0, 0, limit) == |Enc(items)|
    ensures ItemsAt(w, 0, limit) == items && ValidAt(w, |Enc(items)|, limit)
  {
    hide SegmentAt, Enc, ChainEnd, LastEnd, ItemsAt;
    var e := |Enc(items)|;
    SegmentIsFound(w, 0, items, limit);
    EndOfSegment(w, 0, items, limit);
    UnfoldLast(w, 0, 0, limit);
    FillIsNoChain(w, e + 1, n, limit);
    UnfoldLast(w, e + 1, e, limit);
  }

  lemma EndOfSegment(w: seq<u32>, p: nat, items: seq<Item>, limit: nat)
    ensures SegmentAt(w, p, items, limit) ==> ValidAt(w, p + |Enc(items)|, limit) && w[p + |Enc(items)|] == END
  {
    if SegmentAt(w, p, items, limit) {
      hide Enc;
      assert w[p..p + |Enc(items)| + 1][|Enc(items)|] == END;
    }
  }

  lemma FillIsNoChain(w: seq<u32>, p: nat, n: nat, limit: nat)
    requires p < n <= |w| && limit <= n && 4 * n < WORD32 && forall k :: p <= k < n ==> w[k] == FILL
    ensures ChainEnd(w, p, limit) == None
  {
  }

  /** Inserting at END appends an item. */
  lemma FreshInsert(w: seq<u32>, n: nat, items: seq<Item>, limit: nat, it: Item)
    requires Fresh(w, n, items, limit) && ItemOk(it) && |Enc(items)| + 1 + |EncItem(it)| <= limit
    ensures |Enc(items + [it])| == |Enc(items)| + |EncItem(it)|
    ensures var r := Spliced(w, |Enc(items)|, 0, EncItem(it), |Enc(items)|);
      && SegmentAt(r, 0, items + [it], limit) && r[n..] == w[n..]
      && forall k :: UsedWords(items + [it]) <= k < n ==> r[k] == FILL
  {
    hide *;
    FreshIs(w, n, items, limit);
    var e := |Enc(items)|;
    var r := Spliced(w, e, 0, EncItem(it), e);
    EncConcat(items, [it]);
    EncOne(it);
    NoItems();
    assert items + [] + [] == items && items + [it] + [] == items + [it];
    assert ItemsOk([it]) by {
      OneItemOk(it);
    }
    SplicedSlices(w, e, 0, EncItem(it), e);
    EditedSegment(w, r, limit, 0, items, [], [it], [], e);
    TailKept(w, e, 0, EncItem(it), e, n);
    FillStays(w, n, items, it);
  }

  lemma FreshIs(w: seq<u32>, n: nat, items: seq<Item>, limit: nat)
    ensures Fresh(w, n, items, limit) <==>
      && SegmentAt(w, 0, items, limit) && |Enc(items)| + 1 < n <= |w| && 4 * n < WORD32 && limit <= n
      && forall k :: |Enc(items)| + 1 <= k < n ==> w[k] == FILL
  {
    hide SegmentAt, Enc;
  }

  lemma NoItems()
    ensures Enc([]) == []
  {
  }

  lemma OneItemOk(it: Item)
    ensures ItemOk(it) ==> ItemsOk([it])
  {
  }

  /** The fill behind an inserted item. */
  lemma FillStays(w: seq<u32>, n: nat, items: seq<Item>, it: Item)
    requires |Enc(items)| + 1 + |EncItem(it)| <= n <= |w| && |Enc(items + [it])| == |Enc(items)| + |EncItem(it)|
    requires forall k :: |Enc(items)| + 1 <= k < n ==> w[k] == FILL
    ensures var r := Spliced(w, |Enc(items)|, 0, EncItem(it), |Enc(items)|);
      forall k :: UsedWords(items + [it]) <= k < n ==> r[k] == FILL
  {
    hide Enc, EncItem;
    SplicedTail(w, |Enc(items)|, 0, EncItem(it), |Enc(items)|, n);
  }

  function HeaderBytes(partnType: u16): Bytes {
    [partnType % 0x100, partnType / 0x100, 0, 0, 1, 0, 0, 0, 0, 0, 0, 0]
  }

  function TrailerBytes(): Bytes {
    [1, 0, 0, 0, 0, 0, 0, 0]
  }

  /** The bytes of the two structures are the header and trailer items. */
  lemma FrameBytes(partnType: u16)
    ensures MakeItem(HEADER, HeaderBytes(partnType)) == Header(partnType, 1, 0)
    ensures MakeItem(TRAILER, TrailerBytes()) == Trailer(1, 0)
  {
    var h := HeaderBytes(partnType);
    assert h[..4] == [partnType % 0x100, partnType / 0x100, 0, 0] && h[4..][..4] == [1, 0, 0, 0] && h[4..][4..] == [0, 0, 0, 0];
    assert WordOf(h[..4]) == partnType;
    assert Pack(h[4..][4..]) == [0];
    assert Pack(h[4..]) == [1, 0];
    assert TrailerBytes()[..4] == [1, 0, 0, 0] && TrailerBytes()[4..] == [0, 0, 0, 0];
    assert Pack(TrailerBytes()[4..]) == [0];
  }

  function NewFrame(partnType: u16): seq<Item> {
    [Header(partnType, 1, 0), Trailer(1, 0)]
  }

  /** The state in which the header has just been inserted: the cursor can step over it. */
  lemma HeaderInserted(w: seq<u32>, n: nat, partnType: u16)
    requires 9 <= n <= |w| && Fresh(w, n, [Header(partnType, 1, 0)], n)
    ensures var h := [Header(partnType, 1, 0)];
      && |Enc(h)| == 5 && ChainEnd(w, 0, n) == Some(5) && LastEnd(w, 0, 0, n) == 5
      && ValidAt(w, 0, n) && w[0] != END && NextAt(w, 0) == 5 && ValidAt(w, 5, n)
  {
    var h := [Header(partnType, 1, 0)];
    EncOne(h[0]);
    FreshEnd(w, n, h, n);
    ItemInWords(w, 0, h, n, 0);
    assert h[..0] == [];
  }

  lemma FrameInserted(w: seq<u32>, n: nat, partnType: u16)
    requires 10 <= n <= |w| && SegmentAt(w, 0, NewFrame(partnType), n)
    ensures |Enc(NewFrame(partnType))| == 9 && Framed(NewFrame(partnType))
    ensures ChainEnd(w, 0, n) == Some(9) && ItemsAt(w, 0, n) == NewFrame(partnType) && w[0] == HEADER
    ensures ValidAt(w, 5, n) && OnItemOf(w, 0, 5, n, 1)
  {
    var f := NewFrame(partnType);
    EncFrame(Header(partnType, 1, 0), [], Trailer(1, 0));
    assert [Header(partnType, 1, 0)] + [] + [Trailer(1, 0)] == f && Enc([]) == [];
    SegmentIsFound(w, 0, f, n);
    EncOne(Header(partnType, 1, 0));
    assert f[..0] == [] && f[..1] == [Header(partnType, 1, 0)];
    ItemInWords(w, 0, f, n, 0);
    ItemInWords(w, 0, f, n, 1);
  }

  lemma {:induction false} EncAtLeast(items: seq<Item>)
    ensures |Enc(items)| >= 2 * |items|
  {
    if items != [] {
      EncAtLeast(items[1..]);
    }
  }

  /** With ten words the trailer and END fill the buffer, and the validation refuses that. */
  lemma TenWordsRefused(w: seq<u32>, items: seq<Item>)
    requires |w| >= 10 && SegmentAt(w, 0, items, 10) && Framed(items) && |Enc(items)| == 9
    ensures !Accepted(w, 0, 10)
  {
    FramedParts(items);
    ItemInWords(w, 0, items, 10, 0);
    assert items[..0] == [] && items[..1] == [items[0]];
    EncOne(items[0]);
    EncAtLeast(Inner(items));
    ItemInWords(w, 0, items, 10, 1);
    assert !ValidAt(w, 5, 9);
    assert FindAt(w, 5, TRAILER, -1, 9) == None;
  }

  lemma BlankIsFresh(w: seq<u32>, n: nat)
    requires 9 <= n <= |w| && 4 * n < WORD32 && w[0] == END && forall k :: 1 <= k < n ==> w[k] == FILL
    ensures Fresh(w, n, [], n) && ValidAt(w, 0, n) && ChainEnd(w, 0, n) == Some(0) && LastEnd(w, 0, 0, n) == 0
  {
    assert w[0..1] == [END];
    FreshEnd(w, n, [], n);
  }

  lemma HeaderStep(w: seq<u32>, n: nat, partnType: u16)
    requires 9 <= n <= |w| && Fresh(w, n, [], n)
    ensures var h := MakeItem(HEADER, HeaderBytes(partnType));
      && |EncItem(h)| == 5
      && var r := Spliced(w, 0, 0, EncItem(h), 0);
        && Fresh(r, n, [Header(partnType, 1, 0)], n) && r[n..] == w[n..]
        && ChainEnd(r, 0, n) == Some(5) && LastEnd(r, 0, 0, n) == 5
        && ValidAt(r, 0, n) && r[0] != END && NextAt(r, 0) == 5 && ValidAt(r, 5, n)
  {
    FrameBytes(partnType);
    var h := Header(partnType, 1, 0);
    FreshInsert(w, n, [], n, h);
    assert [] + [h] == [h];
    HeaderInserted(Spliced(w, 0, 0, EncItem(h), 0), n, partnType);
  }

  lemma TrailerStep(w: seq<u32>, n: nat, partnType: u16)
    requires 10 <= n <= |w| && Fresh(w, n, [Header(partnType, 1, 0)], n)
    ensures var t := MakeItem(TRAILER, TrailerBytes());
      && |EncItem(t)| == 4
      && var r := Spliced(w, 5, 0, EncItem(t), 5);
        SegmentAt(r, 0, NewFrame(partnType), n) && r[n..] == w[n..] && forall k :: 10 <= k < n ==> r[k] == FILL
  {
    FrameBytes(partnType);
    var h, t := Header(partnType, 1, 0), Trailer(1, 0);
    EncOne(h);
    FreshInsert(w, n, [h], n, t);
    assert [h] + [t] == NewFrame(partnType);
  }

  /** memset to the fill, then tlv_init_block. */
  method Blank(block: array<u32>, n: nat)
    requires 9 <= n <= block.Length && 4 * block.Length < WORD32
    modifies block
    ensures Fresh(block[..], n, [], n) && ValidAt(block[..], 0, n)
    ensures ChainEnd(block[..], 0, n) == Some(0) && LastEnd(block[..], 0, 0, n) == 0
    ensures block[n..] == old(block[n..])
  {
    forall k | 0 <= k < n {
      block[k] := FILL;
    }
    block[0] := END;
    BlankIsFresh(block[..], n);
  }

  /** The first half of ef10_nvram_buffer_create: a blank buffer, then header and trailer.  The limit
      is one word past the end here. */
  method InsertFrame(block: array<u32>, n: nat, partnType: u16) returns (rc: Rc, c: Cursor)
    requires 9 <= n <= block.Length && 4 * block.Length < WORD32
    modifies block
    ensures fresh(c) && c.block == block && c.base == 0 && c.limit == n
    ensures rc == Ok <==> 10 <= n
    ensures rc == Ok ==> SegmentAt(block[..], 0, NewFrame(partnType), n) && c.current == 5 && c.end == 9
    ensures rc == Ok ==> forall k :: 10 <= k < n ==> block[k] == FILL
    ensures block[n..] == old(block[n..])
  {
    hide SegmentAt, Spliced, EncItem, Pack, MakeItem, LastEnd, ChainEnd, NoEnd, Enc, ValidAt, NextAt, Fresh, ItemsAt, NewFrame;
    Blank(block, n);
    ghost var w0 := block[..];
    HeaderStep(w0, n, partnType);
    EncodedWords(HEADER, HeaderBytes(partnType));
    EncodedWords(TRAILER, TrailerBytes());
    c := new Cursor(block, 0, n, 0);
    rc := c.ValidateState();
    if rc != Ok {
      return;
    }
    rc := c.Insert(HEADER, HeaderBytes(partnType));
    if rc != Ok {
      return;
    }
    ghost var w1 := block[..];
    rc := c.Advance();
    if rc != Ok {
      return;
    }
    rc := c.Insert(TRAILER, TrailerBytes());
    if rc != Ok {
      return;
    }
    TrailerStep(w1, n, partnType);
  }

  /** What creation leaves: header and trailer in balance, already at generation 2. */
  function Created(partnType: u16): seq<Item> {
    Frame(partnType, 2, 40, [], Negate(RestSum(partnType, 2, 40, [])))
  }

  lemma CreatedIsStamped(partnType: u16)
    ensures var f := NewFrame(partnType);
      Framed(f) && UsedWords(f) == 10 && Stamped(f) == Created(partnType) && Balanced(Stamped(f))
  {
    var f := NewFrame(partnType);
    EncFrame(Header(partnType, 1, 0), [], Trailer(1, 0));
    assert [Header(partnType, 1, 0)] + [] + [Trailer(1, 0)] == f && Enc([]) == [];
    assert Inner(f) == [];
    StampBalances(f);
  }

  /** ef10_nvram_buffer_create succeeds from 44 bytes on, although it asks for only 36. */
  method Create(block: array<u32>, n: nat, partnType: u16) returns (rc: Rc)
    requires n <= block.Length && 4 * block.Length < WORD32
    modifies block
    ensures rc == Ok <==> 44 <= 4 * n
    ensures rc == Ok ==> Licensed(block[..], n, Created(partnType))
    ensures block[n..] == old(block[n..])
  {
    if 4 * n < 36 {
      return EINVAL;
    }
    var c;
    rc, c := InsertFrame(block, n, partnType);
    if rc != Ok {
      return;
    }
    ghost var w := block[..];
    FrameInserted(w, n, partnType);
    rc := UpdateLenAndChecksum(c, 1);
    if rc != Ok {
      return;
    }
    StampBalances(NewFrame(partnType));
    CreatedIsStamped(partnType);
    if n == 10 {
      TenWordsRefused(block[..], Stamped(NewFrame(partnType)));
    } else {
      SealedFill(w, block[..], n, NewFrame(partnType));
      BalancedIsAccepted(block[..], 0, n, Stamped(NewFrame(partnType)));
    }
    rc := Validate(block, n);
  }

  lemma SealedFill(w: seq<u32>, w': seq<u32>, n: nat, items: seq<Item>)
    requires Framed(items) && 4 * UsedWords(items) < WORD32 && Sealed(w, w', 0, items, n) && UsedWords(items) < n <= |w|
    requires forall k :: UsedWords(items) <= k < n ==> w[k] == FILL
    ensures Licensed(w', n, Stamped(items)) && w'[n..] == w[n..]
  {
    StampBalances(items);
    var e := |Enc(items)|;
    assert forall k :: e <= k < |w| ==> w'[k] == w'[e..][k - e] == w[e..][k - e] == w[k];
  }

  // ---------------------------------------------------------------- whole runs

  /** One call on the buffer: insert a key in front of item k, or delete item k, at the item's offset. */
  datatype Edit = Put(k: nat, offset: nat, key: Bytes) | Drop(k: nat, offset: nat)

  /** The caller keeps strictly between header and trailer. */
  predicate Between(items: seq<Item>, e: Edit) {
    match e
    case Put(k, offset, key) => 0 < k < |items| && offset == Place(items, k) && |key| < WORD32
    case Drop(k, offset) => 0 < k < |items| - 1 && offset == Place(items, k)
  }

  /** The list an edit leaves; an insert that does not fit changes nothing. */
  function EditOne(items: seq<Item>, n: nat, e: Edit): seq<Item>
    requires Between(items, e)
  {
    match e
    case Put(k, _, key) =>
      if |Enc(items)| + 1 + ItemWords(|key|) <= n - 1 then Edited(items, k, 0, [MakeItem(LICENSE, key)]) else items
    case Drop(k, _) => Edited(items, k, 1, [])
  }

  predicate AllBetween(items: seq<Item>, n: nat, edits: seq<Edit>)
    decreases |edits|
  {
    edits == [] || (Between(items, edits[0]) && AllBetween(EditOne(items, n, edits[0]), n, edits[1..]))
  }

  function EditAll(items: seq<Item>, n: nat, edits: seq<Edit>): seq<Item>
    requires AllBetween(items, n, edits)
    decreases |edits|
  {
    if edits == [] then items else EditAll(EditOne(items, n, edits[0]), n, edits[1..])
  }

  method EditBuffer(block: array<u32>, n: nat, edits: seq<Edit>, ghost items: seq<Item>)
    requires 2 * n <= block.Length && Licensed(block[..], n, items) && AllBetween(items, n, edits)
    modifies block
    ensures Licensed(block[..], n, EditAll(items, n, edits))
    ensures block[n..] == old(block[n..])
  {
    hide Licensed, Edited, Place, MakeItem, Enc;
    ghost var now := items;
    var i := 0;
    while i < |edits|
      invariant 0 <= i <= |edits|
      invariant Licensed(block[..], n, now) && AllBetween(now, n, edits[i..])
      invariant EditAll(now, n, edits[i..]) == EditAll(items, n, edits)
      invariant block[n..] == old(block[n..])
    {
      ghost var rest := edits[i..];
      assert rest[0] == edits[i] && rest[1..] == edits[i + 1..];
      match edits[i] {
        case Put(k, offset, key) =>
          var rc, _ := InsertItem(block, n, offset, key, now, k);
        case Drop(k, offset) =>
          DeleteReads(block[..], n, now, k);
          var rc := DeleteItem(block, n, offset, now, k);
      }
      now := EditOne(now, n, edits[i]);
      i := i + 1;
    }
  }

  /** A whole licence session: every run of inserts and deletes between header and trailer, in a
      buffer that could be created, ends in an image that the validation accepts and that holds
      exactly the edited list, with the generation one up. */
  method Session(block: array<u32>, n: nat, partnType: u16, edits: seq<Edit>) returns (rc: Rc)
    requires 2 * n <= block.Length && 4 * block.Length < WORD32
    requires AllBetween(Created(partnType), n, edits)
    modifies block
    ensures rc == Ok <==> 44 <= 4 * n
    ensures rc == Ok ==> (var end := EditAll(Created(partnType), n, edits);
      && Framed(end) && 4 * UsedWords(end) < WORD32
      && Licensed(block[..], n, Stamped(end)) && Accepted(block[..], 0, n))
    ensures block[n..] == old(block[n..])
  {
    hide Licensed, Accepted, EditAll, AllBetween, Stamped, Created, Framed, Enc;
    rc := Create(block, n, partnType);
    if rc != Ok {
      return;
    }
    EditBuffer(block, n, edits, Created(partnType));
    ghost var end := EditAll(Created(partnType), n, edits);
    LicensedIs(block[..], n, end);
    rc := Finish(block, n, end);
    StampBalances(end);
    LicensedIs(block[..], n, Stamped(end));
    BalancedIsAccepted(block[..], 0, n, Stamped(end));
    rc := Validate(block, n);
  }
}
