/** What inserting, deleting and replacing items does to the words of a block and to the segments
    in it (common/ef10_nvram.c). */
module TlvSplice {
  import opened Options
  import opened Words
  import opened TlvFormat

  function Zeros(n: nat): (r: seq<u32>)
    ensures |r| == n && forall k :: 0 <= k < n ==> r[k] == 0
  {
    seq(n, _ => 0)
  }

  /** The net effect of an edit at p: drop words, put new words in their place, and move the rest of
      the block up to the last END at lse; freed words are zeroed, nothing else changes. */
  function Spliced(w: seq<u32>, p: nat, drop: nat, put: seq<u32>, lse: nat): (r: seq<u32>)
    requires p + drop <= lse + 1 <= |w| && lse + 1 + |put| - drop <= |w|
    ensures |r| == |w|
  {
    var moved := w[..p] + put + w[p + drop..lse + 1];
    if |put| >= drop then moved + w[|moved|..]
    else moved + Zeros(drop - |put|) + w[lse + 1..]
  }

  /** No END tag from position p to the limit: the words behind the last segment. */
  ghost predicate NoEnd(w: seq<u32>, p: nat, limit: nat) {
    forall k :: p <= k <= limit && k < |w| ==> w[k] != END
  }

  /** All segments of the block from position s on. */
  function Segments(w: seq<u32>, s: nat, limit: nat): seq<seq<Item>>
    decreases limit + 1 - s
  {
    match ChainEnd(w, s, limit)
    case None => []
    case Some(e) => [ItemsAt(w, s, limit)] + Segments(w, e + 1, limit)
  }

  // ---------------------------------------------------------------- the last END

  lemma {:induction false} LastEndBounds(w: seq<u32>, s: nat, last: nat, limit: nat)
    ensures ChainEnd(w, s, limit) == None ==> LastEnd(w, s, last, limit) == last
    ensures ChainEnd(w, s, limit).Some? ==>
      ChainEnd(w, s, limit).value <= LastEnd(w, s, last, limit) <= limit && LastEnd(w, s, last, limit) < |w|
    decreases limit + 1 - s
  {
    if ChainEnd(w, s, limit).Some? {
      var e := ChainEnd(w, s, limit).value;
      LastEndBounds(w, e + 1, e, limit);
    }
  }

  /** A chain that is moved as a whole is still a chain, with the same items. */
  lemma ChainShift(w: seq<u32>, w': seq<u32>, p: nat, p': nat, limit: nat, e: nat)
    requires ChainEnd(w, p, limit) == Some(e) && p' + (e - p) < |w'|
    requires w'[p'..p' + (e - p) + 1] == w[p..e + 1]
    requires p' + (e - p) <= limit - 1
    ensures ChainEnd(w', p', limit) == Some(p' + (e - p)) && ItemsAt(w', p', limit) == ItemsAt(w, p, limit)
  {
    hide *;
    FoundIsSegment(w, p, limit);
    var items := ItemsAt(w, p, limit);
    SegmentIsAt(w, p, items, limit);
    AtMoved(w, w', p, p', e + 1 - p, p, Enc(items) + [END]);
    SegmentIsAt(w', p', items, limit);
    SegmentIsFound(w', p', items, limit);
  }

  /** Segments that are moved as a whole are all found again, followed by whatever is found behind them. */
  lemma {:induction false} SegmentsShift(w: seq<u32>, w': seq<u32>, s: nat, s': nat, limit: nat, lse: nat, lse': nat)
    requires s >= 1 && s' >= 1 && lse' - s' == lse - s && lse + 1 >= s
    requires LastEnd(w, s, s - 1, limit) == lse < |w| && lse' < |w'| && lse' <= limit - 1
    requires w'[s'..lse' + 1] == w[s..lse + 1]
    ensures LastEnd(w', s', s' - 1, limit) == LastEnd(w', lse' + 1, lse', limit)
    ensures Segments(w', s', limit) == Segments(w, s, limit) + Segments(w', lse' + 1, limit)
    decreases limit + 1 - s
  {
    hide *;
    UnfoldLast(w, s, s - 1, limit);
    UnfoldLast(w', s', s' - 1, limit);
    Behind([], [], Segments(w', lse' + 1, limit));
    if ChainEnd(w, s, limit) != None {
      var e := ChainEnd(w, s, limit).value;
      LastEndBounds(w, e + 1, e, limit);
      var e' := s' + (e - s);
      SameSlice(w, w', s, s', lse + 1, s, e + 1);
      ChainShift(w, w', s, s', limit, e);
      SameSlice(w, w', s, s', lse + 1, e + 1, lse + 1);
      SegmentsShift(w, w', e + 1, e' + 1, limit, lse, lse');
      Behind([ItemsAt(w, s, limit)], Segments(w, e + 1, limit), Segments(w', lse' + 1, limit));
    }
  }

  lemma NoEndNoChain(w: seq<u32>, s: nat, last: nat, limit: nat)
    ensures NoEnd(w, s, limit) ==>
      ChainEnd(w, s, limit) == None && LastEnd(w, s, last, limit) == last && Segments(w, s, limit) == []
  {
  }

  /** One step of the walk over the segments. */
  lemma UnfoldLast(w: seq<u32>, s: nat, last: nat, limit: nat)
    ensures ChainEnd(w, s, limit) == None ==> LastEnd(w, s, last, limit) == last && Segments(w, s, limit) == []
    ensures ChainEnd(w, s, limit).Some? ==> (var e := ChainEnd(w, s, limit).value;
      && s <= e && LastEnd(w, s, last, limit) == LastEnd(w, e + 1, e, limit)
      && Segments(w, s, limit) == [ItemsAt(w, s, limit)] + Segments(w, e + 1, limit))
  {
  }

  /** Equal slices have equal parts. */
  lemma SameSlice(w: seq<u32>, w': seq<u32>, s: nat, s': nat, hi: nat, i: nat, j: nat)
    requires s <= i <= j <= hi <= |w| && s' + (hi - s) <= |w'|
    requires w'[s'..s' + (hi - s)] == w[s..hi]
    ensures w'[s' + (i - s)..s' + (j - s)] == w[i..j]
  {
    SliceOfSlice(w, s, hi, i - s, j - s);
    SliceOfSlice(w', s', s' + (hi - s), i - s, j - s);
  }

  // ---------------------------------------------------------------- the edit

  /** Where the words of an edited block come from: before the edit, at it, and behind it. */
  lemma SplicedSlices(w: seq<u32>, p: nat, drop: nat, put: seq<u32>, lse: nat)
    requires p + drop <= lse + 1 <= |w| && lse + 1 + |put| - drop <= |w|
    ensures var r := Spliced(w, p, drop, put, lse);
      && r[..p] == w[..p] && r[p..p + |put|] == put
      && r[p + |put|..lse + 1 + |put| - drop] == w[p + drop..lse + 1]
  {
    var moved := w[..p] + put + w[p + drop..lse + 1];
    var r := Spliced(w, p, drop, put, lse);
    assert r[..|moved|] == moved;
    SliceOfSlice(r, 0, |moved|, 0, p);
    SliceOfSlice(r, 0, |moved|, p, p + |put|);
    SliceOfSlice(r, 0, |moved|, p + |put|, |moved|);
  }

  /** Behind the last END: freed words are zero, the others are as they were. */
  lemma SplicedTail(w: seq<u32>, p: nat, drop: nat, put: seq<u32>, lse: nat, limit: nat)
    requires p + drop <= lse + 1 <= |w| && lse + 1 + |put| - drop <= |w|
    ensures var r := Spliced(w, p, drop, put, lse); var d := |put| - drop;
      && (forall k :: lse + 1 <= k < |w| && lse + 1 + d <= k ==> r[k] == w[k])
      && (forall k :: 0 <= k < |w| && lse + 1 + d <= k < lse + 1 ==> r[k] == 0)
      && (NoEnd(w, lse + 1, limit) ==> NoEnd(r, lse + 1 + d, limit))
  {
  }

  /** The edited segment holds exactly the edited items. */
  lemma SplicedFirst(w: seq<u32>, limit: nat, base: nat, a: seq<Item>, gone: seq<Item>, put: seq<Item>, c: seq<Item>, lse: nat)
    requires SegmentAt(w, base, a + gone + c, limit) && ItemsOk(put)
    requires LastEnd(w, base, base, limit) == lse
    requires lse + 1 + |Enc(put)| - |Enc(gone)| <= limit <= |w|
    ensures ChainEnd(w, base, limit) == Some(base + |Enc(a + gone + c)|) && base + |Enc(a + gone + c)| <= lse < |w|
    ensures |Enc(a + gone + c)| == |Enc(a)| + |Enc(gone)| + |Enc(c)|
    ensures |Enc(a + put + c)| == |Enc(a)| + |Enc(put)| + |Enc(c)|
    ensures SegmentAt(Spliced(w, base + |Enc(a)|, |Enc(gone)|, Enc(put), lse), base, a + put + c, limit)
  {
    hide *;
    EncThree(a, gone, c);
    EncThree(a, put, c);
    SegmentIsFound(w, base, a + gone + c, limit);
    LastEndBounds(w, base, base, limit);
    var p, gap, words := base + |Enc(a)|, |Enc(gone)|, Enc(put);
    SplicedSlices(w, p, gap, words, lse);
    EditedSegment(w, Spliced(w, p, gap, words, lse), limit, base, a, gone, put, c, lse);
  }

  /** The later segments keep their words and follow it, and then comes whatever is found behind the last of them:
      nothing, if no END was behind it before. */
  lemma SplicedItems(w: seq<u32>, limit: nat, base: nat, a: seq<Item>, gone: seq<Item>, put: seq<Item>, c: seq<Item>, lse: nat)
    requires SegmentAt(w, base, a + gone + c, limit) && ItemsOk(put)
    requires LastEnd(w, base, base, limit) == lse
    requires lse + 1 + |Enc(put)| - |Enc(gone)| <= limit <= |w|
    ensures base + |Enc(a)| + |Enc(gone)| <= base + |Enc(a + gone + c)| <= lse && lse + 1 <= |w|
    ensures |Enc(a + put + c)| == |Enc(a + gone + c)| + |Enc(put)| - |Enc(gone)|
    ensures var d := |Enc(put)| - |Enc(gone)|; var r := Spliced(w, base + |Enc(a)|, |Enc(gone)|, Enc(put), lse);
      && SegmentAt(r, base, a + put + c, limit)
      && Segments(r, base, limit) == [a + put + c] + Segments(w, base, limit)[1..] + Segments(r, lse + d + 1, limit)
      && LastEnd(r, base, base, limit) == LastEnd(r, lse + d + 1, lse + d, limit)
      && (NoEnd(w, lse + 1, limit) ==>
            && Segments(r, base, limit) == [a + put + c] + Segments(w, base, limit)[1..]
            && LastEnd(r, base, base, limit) == lse + d && NoEnd(r, lse + d + 1, limit))
  {
    hide *;
    SplicedFirst(w, limit, base, a, gone, put, c, lse);
    var p, gap, words := base + |Enc(a)|, |Enc(gone)|, Enc(put);
    var e, d := base + |Enc(a + gone + c)|, |words| - gap;
    var r := Spliced(w, p, gap, words, lse);
    UnfoldSegments(w, base, limit, e);
    SegmentIsFound(r, base, a + put + c, limit);
    UnfoldSegments(r, base, limit, e + d);
    SplicedSlices(w, p, gap, words, lse);
    LaterSegments(w, r, p, gap, |words|, e, limit, lse);
    SplicedTail(w, p, gap, words, lse, limit);
    NoEndNoChain(r, lse + d + 1, lse + d, limit);
    Behind([a + put + c], Segments(w, e + 1, limit), Segments(r, lse + d + 1, limit));
  }

  lemma Behind<T>(a: seq<T>, b: seq<T>, c: seq<T>)
    ensures a + (b + c) == a + b + c && (c == [] ==> a + b + c == a + b)
  {
  }

  lemma UnfoldSegments(w: seq<u32>, s: nat, limit: nat, e: nat)
    requires ChainEnd(w, s, limit) == Some(e)
    ensures LastEnd(w, s, s, limit) == LastEnd(w, e + 1, e, limit)
    ensures Segments(w, s, limit) == [ItemsAt(w, s, limit)] + Segments(w, e + 1, limit)
    ensures Segments(w, s, limit)[1..] == Segments(w, e + 1, limit)
  {
    hide *;
    UnfoldLast(w, s, s, limit);
  }

  lemma LaterSegments(w: seq<u32>, r: seq<u32>, p: nat, drop: nat, n: nat, e: nat, limit: nat, lse: nat)
    requires p + drop <= e <= lse < |w| && |r| == |w| && lse + 1 + n - drop <= limit <= |w|
    requires r[p + n..lse + 1 + n - drop] == w[p + drop..lse + 1]
    requires LastEnd(w, e + 1, e, limit) == lse
    ensures var e', lse' := e + n - drop, lse + n - drop;
      && LastEnd(r, e' + 1, e', limit) == LastEnd(r, lse' + 1, lse', limit)
      && Segments(r, e' + 1, limit) == Segments(w, e + 1, limit) + Segments(r, lse' + 1, limit)
  {
    hide *;
    SameSlice(w, r, p + drop, p + n, lse + 1, e + 1, lse + 1);
    SegmentsShift(w, r, e + 1, e + n - drop + 1, limit, lse, lse + n - drop);
  }

  lemma EncThree(a: seq<Item>, b: seq<Item>, c: seq<Item>)
    ensures Enc(a + b + c) == Enc(a) + Enc(b) + Enc(c)
  {
    EncConcat(a + b, c);
    EncConcat(a, b);
  }

  // ---------------------------------------------------------------- words at a position

  /** The words s stand in w from position p on. */
  predicate At(w: seq<u32>, p: nat, s: seq<u32>) {
    p + |s| <= |w| && w[p..p + |s|] == s
  }

  lemma AtConcat(w: seq<u32>, p: nat, s: seq<u32>, t: seq<u32>)
    ensures At(w, p, s + t) <==> At(w, p, s) && At(w, p + |s|, t)
  {
    if p + |s| + |t| <= |w| {
      JoinSlices(w, p, p + |s|, p + |s| + |t|);
      if At(w, p, s + t) {
        assert (s + t)[..|s|] == s && (s + t)[|s|..] == t;
      }
    }
  }

  /** What stands in a slice still stands in an equal slice elsewhere. */
  lemma AtMoved(w: seq<u32>, r: seq<u32>, q: nat, q': nat, n: nat, i: nat, s: seq<u32>)
    requires q + n <= |w| && q' + n <= |r| && r[q'..q' + n] == w[q..q + n]
    requires q <= i && i + |s| <= q + n
    ensures At(w, i, s) <==> At(r, q' + (i - q), s)
  {
    SameSlice(w, r, q, q', q + n, i, i + |s|);
  }

  lemma SegmentIsAt(w: seq<u32>, p: nat, items: seq<Item>, limit: nat)
    ensures SegmentAt(w, p, items, limit) <==>
      ItemsOk(items) && p + |Enc(items)| <= (if items == [] then limit else limit - 1) && At(w, p, Enc(items) + [END])
  {
  }

  lemma ItemsOkThree(a: seq<Item>, gone: seq<Item>, put: seq<Item>, c: seq<Item>)
    requires ItemsOk(a + gone + c) && ItemsOk(put)
    ensures ItemsOk(a + put + c)
  {
    var s, t := a + gone + c, a + put + c;
    forall k | 0 <= k < |t|
      ensures ItemOk(t[k])
    {
      if k < |a| {
        assert t[k] == s[k];
      } else if k < |a| + |put| {
        assert t[k] == put[k - |a|];
      } else {
        assert t[k] == s[k - |put| + |gone|];
      }
    }
  }

  lemma EditedSegment(w: seq<u32>, r: seq<u32>, limit: nat, base: nat, a: seq<Item>, gone: seq<Item>, put: seq<Item>,
                      c: seq<Item>, lse: nat)
    requires SegmentAt(w, base, a + gone + c, limit) && ItemsOk(put) && |r| == |w|
    requires base + |Enc(a + gone + c)| <= lse < |w| && lse + 1 + |Enc(put)| - |Enc(gone)| <= |w|
    requires base + |Enc(a + gone + c)| + |Enc(put)| - |Enc(gone)| <= limit - 1
    requires var p := base + |Enc(a)|; var d := |Enc(put)| - |Enc(gone)|;
      && p + |Enc(gone)| <= lse + 1
      && r[..p] == w[..p] && r[p..p + |Enc(put)|] == Enc(put)
      && r[p + |Enc(put)|..lse + 1 + d] == w[p + |Enc(gone)|..lse + 1]
    ensures SegmentAt(r, base, a + put + c, limit)
  {
    hide *;
    EncThree(a, gone, c);
    EncThree(a, put, c);
    SegmentIsAt(w, base, a + gone + c, limit);
    ItemsOkThree(a, gone, put, c);
    SegmentIsAt(r, base, a + put + c, limit);
    var p := base + |Enc(a)|;
    AtIsSlice(r, p, Enc(put));
    EditedWords(w, r, base, Enc(a), Enc(gone), Enc(put), Enc(c), lse);
  }

  lemma EditedWords(w: seq<u32>, r: seq<u32>, base: nat, ea: seq<u32>, eo: seq<u32>, en: seq<u32>, ec: seq<u32>, lse: nat)
    requires At(w, base, ea + eo + ec + [END]) && At(r, base + |ea|, en) && |r| == |w| && lse < |w|
    requires base + |ea| + |eo| + |ec| <= lse && lse + 1 + |en| - |eo| <= |r|
    requires r[..base + |ea|] == w[..base + |ea|]
    requires r[base + |ea| + |en|..lse + 1 + |en| - |eo|] == w[base + |ea| + |eo|..lse + 1]
    ensures At(r, base, ea + en + ec + [END])
  {
    hide At;
    var p := base + |ea|;
    assert ea + eo + ec + [END] == ea + (eo + (ec + [END]));
    assert ea + en + ec + [END] == ea + (en + (ec + [END]));
    AtConcat(w, base, ea, eo + (ec + [END]));
    AtConcat(w, p, eo, ec + [END]);
    AtConcat(r, base, ea, en + (ec + [END]));
    AtConcat(r, p, en, ec + [END]);
    AtMoved(w, r, 0, 0, p, base, ea);
    AtMoved(w, r, p + |eo|, p + |en|, lse + 1 - (p + |eo|), p + |eo|, ec + [END]);
  }

  lemma AtIsSlice(w: seq<u32>, p: nat, s: seq<u32>)
    ensures p + |s| <= |w| ==> (At(w, p, s) <==> w[p..p + |s|] == s)
  {
  }

  /** Inserting words and then deleting them again restores the block up to its last END. */
  lemma InsertThenDelete(w: seq<u32>, p: nat, ins: seq<u32>, lse: nat, lse2: nat)
    requires p <= lse + 1 && lse + 1 + |ins| <= |w| && lse + |ins| <= lse2 < |w|
    ensures var w1 := Spliced(w, p, 0, ins, lse);
      Spliced(w1, p, |ins|, [], lse2)[..lse + 1] == w[..lse + 1]
  {
    hide *;
    var w1 := Spliced(w, p, 0, ins, lse);
    var w2 := Spliced(w1, p, |ins|, [], lse2);
    SplicedSlices(w, p, 0, ins, lse);
    SplicedSlices(w1, p, |ins|, [], lse2);
    SameSlice(w1, w2, p + |ins|, p, lse2 + 1, p + |ins|, lse + 1 + |ins|);
    SamePrefix(w, w2, p, lse + 1);
  }

  lemma SamePrefix(w: seq<u32>, w2: seq<u32>, p: nat, n: nat)
    requires p <= n <= |w| && n <= |w2| && w2[..p] == w[..p] && w2[p..n] == w[p..n]
    ensures w2[..n] == w[..n]
  {
    JoinSlices(w, 0, p, n);
    JoinSlices(w2, 0, p, n);
  }
}
