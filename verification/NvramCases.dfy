/** Partitions on which rewriting does not do what one might expect (common/ef10_nvram.c:1697-1781). */
module NvramCases {
  import opened Options
  import opened Words
  import opened TlvFormat
  import opened TlvSplice
  import opened TlvCursor
  import opened TlvImage
  import opened NvramBuffer
  import opened NvramTlv
  import opened NvramSegments

  const FILLER: u32 := 1
  const TAG: u32 := 2
  const DATA: Bytes := [0, 0, 0, 0]

  /** A segment in balance with one item, of 12 + k words. */
  function Sized(k: nat): seq<Item>
    requires k < 1000
  {
    var mid := [Item(FILLER, 4 * k, Zeros(k))];
    Frame(0, 2, 4 * (12 + k), mid, Negate(RestSum(0, 2, 4 * (12 + k), mid)))
  }

  /** The same segment before it was sealed. */
  function Unsealed(k: nat): seq<Item>
    requires k < 1000
  {
    [Header(0, 1, 0), Item(FILLER, 4 * k, Zeros(k)), Trailer(1, 0)]
  }

  lemma UnsealedIs(k: nat)
    requires k < 1000
    ensures var f := Unsealed(k);
      Framed(f) && Inner(f) == [Item(FILLER, 4 * k, Zeros(k))] && Generation(f) == 1 && FirstTag(f, TAG) == |f|
  {
    hide FirstTag;
    var f := Unsealed(k);
    assert ItemOk(f[1]);
  }

  lemma UnsealedLength(k: nat)
    requires k < 1000
    ensures |Enc(Unsealed(k))| == 11 + k && UsedWords(Unsealed(k)) == 12 + k
  {
    var it := Item(FILLER, 4 * k, Zeros(k));
    EncFrame(Header(0, 1, 0), [it], Trailer(1, 0));
    EncOne(it);
    assert [Header(0, 1, 0)] + [it] + [Trailer(1, 0)] == Unsealed(k);
    hide Enc;
  }

  lemma SizedIs(k: nat)
    requires k < 1000
    ensures var s := Sized(k);
      Framed(s) && Balanced(s) && UsedWords(s) == 12 + k && FirstTag(s, TAG) == |s| && |Enc(s)| == 11 + k
  {
    hide Enc, FirstTag, Framed, Balanced, RestSum, Negate, Frame, Inner, Generation;
    var f := Unsealed(k);
    UnsealedIs(k);
    UnsealedLength(k);
    StampBalances(f);
    FirstTagStamped(f, TAG);
    assert Stamped(f) == Sized(k);
    SameLength(f, k);
  }

  lemma SameLength(items: seq<Item>, k: nat)
    requires k < 1000 && Framed(items) && 4 * UsedWords(items) < WORD32
    ensures |Stamped(items)| == |items|
  {
    hide Enc, RestSum, Negate;
  }

  /** Two segments, one behind the other, and some words that are zero. */
  function TwoSegments(a: seq<Item>, b: seq<Item>, rest: nat): seq<u32> {
    (Enc(a) + [END]) + (Enc(b) + [END]) + Zeros(rest)
  }

  lemma TwoAreHeld(a: seq<Item>, b: seq<Item>, rest: nat)
    requires Framed(a) && Framed(b)
    ensures var part := TwoSegments(a, b, rest);
      && |part| == UsedWords(a) + UsedWords(b) + rest && Holds(part, 0, [a, b])
      && At(part, 0, Enc(a) + [END]) && At(part, UsedWords(a), Enc(b) + [END])
  {
    hide Enc, Framed;
    var part := TwoSegments(a, b, rest);
    assert [a, b][1..] == [b] && [b][1..] == [];
    assert part[..UsedWords(a)] == Enc(a) + [END];
    assert part[UsedWords(a)..UsedWords(a) + UsedWords(b)] == Enc(b) + [END];
    assert Holds(part, UsedWords(a) + UsedWords(b), []);
    assert Holds(part, UsedWords(a), [b]);
  }

  /** Reading a segment in balance reads all of it. */
  lemma BalancedReads(part: seq<u32>, offset: nat, seg: seq<Item>)
    requires At(part, offset, Enc(seg) + [END]) && Framed(seg) && Balanced(seg) && CHUNK <= UsedWords(seg)
    ensures Readable(part, offset) && ReadWords(part, offset) == UsedWords(seg)
  {
    AtInBigger(part, offset, seg, |part| + 1);
    FrameWords(part, offset, seg, |part| + 1);
    ReadWordsOf(part, offset, seg);
  }

  lemma ZerosHaveNoEnd(r: seq<u32>, from: nat, limit: nat)
    requires forall k :: from <= k < |r| ==> r[k] == 0
    ensures NoEnd(r, from, limit)
  {
  }

  /** With only zeros behind it a segment is the last one. */
  lemma LastBeforeZeros(r: seq<u32>, seg: seq<Item>)
    requires At(r, 0, Enc(seg) + [END]) && ItemsOk(seg) && seg != [] && UsedWords(seg) < |r|
    requires forall k :: UsedWords(seg) <= k < |r| ==> r[k] == 0
    ensures LastEnd(r, 0, 0, |r| - 1) == UsedWords(seg) - 1
  {
    hide *;
    var u, limit := UsedWords(seg), |r| - 1;
    UsedIs(seg);
    ZerosHaveNoEnd(r, u, limit);
    SegmentIsAt(r, 0, seg, limit);
    SegmentIsFound(r, 0, seg, limit);
    UnfoldLast(r, 0, 0, limit);
    NoEndNoChain(r, u, u - 1, limit);
  }

  lemma LoadedStart(part: seq<u32>, seg: seq<Item>)
    requires Readable(part, 0) && ReadWords(part, 0) == UsedWords(seg) && At(part, 0, Enc(seg) + [END])
    ensures var r := Loaded(part, 0, 0);
      |r| == |part| && At(r, 0, Enc(seg) + [END]) && forall k :: UsedWords(seg) <= k < |part| ==> r[k] == 0
  {
    hide Enc;
    assert Loaded(part, 0, 0)[..UsedWords(seg)] == part[..UsedWords(seg)];
  }

  lemma FreedNone(seg: seq<Item>, tag: u32)
    requires seg != [] && FirstTag(seg, tag) == |seg|
    ensures Freed(seg, tag) == 0
  {
    PutIsEdited(seg, Item(tag, 0, []));
  }

  /** The first segment has room when the partition is that much longer, and the search stays in it. */
  lemma FirstHasRoom(part: seq<u32>, seg: seq<Item>, it: Item)
    requires At(part, 0, Enc(seg) + [END]) && Framed(seg) && Balanced(seg) && CHUNK <= UsedWords(seg)
    requires FirstTag(seg, it.tag) == |seg| && it.tag != 0 && UsedWords(seg) + |EncItem(it)| < |part|
    ensures Readable(part, 0) && HasRoom(part, 0, 0, seg, it) && StrayFree(part, 0, 0, seg, it.tag)
  {
    hide *;
    BalancedReads(part, 0, seg);
    ClearIsStrayFree(part, 0, 0, seg, it.tag);
    LoadedStart(part, seg);
    FramedLacksHeader(seg);
    FreedNone(seg, it.tag);
    LastBeforeZeros(Loaded(part, 0, 0), seg);
    FitsIs(seg, it, UsedWords(seg) - 1, |part| - 1);
    HasRoomIs(part, 0, 0, seg, it);
  }

  /** A job for the first segment only, with every read answered. */
  function FirstOnly(): Job {
    Job(MakeItem(TAG, DATA), false, _ => (true, true))
  }

  lemma JobIs()
    ensures |EncItem(FirstOnly().it)| == 3 && FirstOnly().it.tag == TAG && !Reserved(TAG) && TAG != 0
    ensures forall i :: Writes(FirstOnly(), i) <==> i == 0
  {
    EncodedWords(TAG, DATA);
  }

  lemma TwoPlaces(segs: seq<seq<Item>>)
    requires |segs| == 2 && Framed(segs[0]) && FirstTag(segs[0], TAG) == |segs[0]|
    ensures OffsetOf(segs, 0) == PosOf(segs, FirstOnly(), 0) == 0 && OffsetOf(segs, 1) == UsedWords(segs[0])
    ensures OffsetOf(segs, 2) == UsedWords(segs[0]) + UsedWords(segs[1])
    ensures PosOf(segs, FirstOnly(), 1) == UsedWords(segs[0]) + 3
    ensures PosOf(segs, FirstOnly(), 2) == UsedWords(segs[0]) + 3 + UsedWords(segs[1])
  {
    JobIs();
    var it := FirstOnly().it;
    var n := |segs[0]| - 1;
    PutNew(segs[0], it);
    EncConcat(segs[0][..n] + [it], segs[0][n..]);
    EncConcat(segs[0][..n], [it]);
    EncConcat(segs[0][..n], segs[0][n..]);
    assert segs[0][..n] + segs[0][n..] == segs[0];
    EncOne(it);
    hide Enc, EncItem, FirstTag, PutItem, FirstOnly;
    assert OffsetOf(segs, 2) == OffsetOf(segs, 1) + UsedWords(segs[1]);
  }

  /** Segments of 40 and 87 words in 128, and a 3-word item for the first of them. */
  lemma OutgrownFacts()
    ensures var a, b, job := Sized(28), Sized(75), FirstOnly(); var part := TwoSegments(a, b, 1);
      && |part| == 128 && UsedWords(b) == 87 && Holds(part, 0, [a, b]) && NoStrays(part, [a, b], job)
      && Stops(part, [a, b], job, 2) && PosOf([a, b], job, 2) == 130
  {
    hide Sized, Framed, Balanced, HasRoom, Readable, ReadWords, UsedWords, OffsetOf, PosOf, TwoSegments, StrayFree, Enc, At,
         Holds, FirstTag, EncItem;
    SizedIs(28);
    SizedIs(75);
    JobIs();
    var a, b, job := Sized(28), Sized(75), FirstOnly();
    var part := TwoSegments(a, b, 1);
    TwoAreHeld(a, b, 1);
    TwoPlaces([a, b]);
    ChunkIs();
    BalancedReads(part, 0, a);
    BalancedReads(part, 40, b);
    FirstHasRoom(part, a, job.it);
    assert job.answers(0) == job.answers(1) == (true, true);
    hide Writes, FirstOnly;
    assert Takes(part, [a, b], job, 0) && Takes(part, [a, b], job, 1);
  }

  /** All segments are taken, and the last one ends two words behind the buffer of 128 words: memory there, zero
      before, holds its END afterwards, and only then the call fails. */
  method Outgrows() returns (rc: Rc, block: array<u32>)
    ensures fresh(block) && block.Length > 129 && rc == ENOSPC && block[129] == END
  {
    var a, b := Sized(28), Sized(75);
    var part := TwoSegments(a, b, 1);
    OutgrownFacts();
    JobIs();
    block := new u32[2 * 128 + CHUNK](_ => 0);
    assert block.Length == 288;
    hide *;
    ghost var outs;
    var total;
    rc, total, outs := PartitionWriteTlv(part, block, TAG, DATA, FirstOnly(), [a, b]);
    OneStop(part, [a, b], FirstOnly(), 2, |outs|);
    LastIsEnd(block[..], total, [a, b], outs, FirstOnly());
  }

  lemma OneStop(part: seq<u32>, segs: seq<seq<Item>>, job: Job, n: nat, m: nat)
    requires Stops(part, segs, job, n) && Stops(part, segs, job, m)
    ensures n == m
  {
    hide Takes;
  }

  lemma LastIsEnd(w: seq<u32>, total: nat, segs: seq<seq<Item>>, outs: seq<seq<Item>>, job: Job)
    requires HoldsImage(w, total, outs) && outs != [] && |outs| == |segs|
    ensures 0 < total <= |w| && w[total - 1] == END
  {
    var img := Image(outs);
    assert img[|img| - 1] == END;
    assert w[..total][total - 1] == w[total - 1];
  }

  /** Two segments of 40 words in 80. */
  lemma FlushFacts()
    ensures var a, job := Sized(28), FirstOnly(); var part := TwoSegments(a, a, 0);
      && |part| == 80 && Holds(part, 0, [a, a]) && NoStrays(part, [a, a], job)
      && Stops(part, [a, a], job, 1) && PosOf([a, a], job, 1) == 43
  {
    hide Sized, Framed, Balanced, HasRoom, Readable, ReadWords, UsedWords, OffsetOf, PosOf, TwoSegments, StrayFree, Enc, At,
         Holds, FirstTag, EncItem;
    SizedIs(28);
    JobIs();
    var a, job := Sized(28), FirstOnly();
    var part := TwoSegments(a, a, 0);
    TwoAreHeld(a, a, 0);
    TwoPlaces([a, a]);
    ChunkIs();
    BalancedReads(part, 0, a);
    FirstHasRoom(part, a, job.it);
    assert job.answers(0) == (true, true);
    hide Writes, FirstOnly;
    assert Takes(part, [a, a], job, 0) && !Takes(part, [a, a], job, 1);
  }

  /** The second segment, in balance like the first, ends flush with the partition: the call succeeds, and only
      the first segment is left. */
  method LosesFlush() returns (rc: Rc, ghost outs: seq<seq<Item>>, ghost segs: seq<seq<Item>>, ghost part: seq<u32>)
    ensures Holds(part, 0, segs) && |segs| == 2 && forall s :: s in segs ==> Framed(s) && Balanced(s)
    ensures rc == Ok && |outs| == 1
  {
    var a := Sized(28);
    var words := TwoSegments(a, a, 0);
    FlushFacts();
    JobIs();
    SizedIs(28);
    var block := new u32[2 * 80 + CHUNK](_ => 0);
    assert block.Length == 192;
    hide *;
    part, segs := words, [a, a];
    var total;
    rc, total, outs := PartitionWriteTlv(words, block, TAG, DATA, FirstOnly(), [a, a]);
    OneStop(words, [a, a], FirstOnly(), 1, |outs|);
  }
}
