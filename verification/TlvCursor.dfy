/** The cursor over a block of words: finding, inserting, deleting and modifying items in place
    (common/ef10_nvram.c).  Pointers into the block are word indexes; -1 stands for NULL. */
module TlvCursor {
  import opened Options
  import opened Words
  import opened TlvFormat
  import opened TlvSplice

  datatype Rc = Ok | EINVAL | EFAULT | ENOENT | ENOSPC | EFBIG | ENOMEM | EAGAIN | EIO

  lemma {:induction false} FindEndIsChainEnd(w: seq<u32>, p: nat, end: int, limit: nat)
    ensures FindAt(w, p, END, end, limit) == ChainEnd(w, p, limit) || p <= end
    ensures end < 0 || (ChainEnd(w, p, limit) == Some(end)) ==> FindAt(w, p, END, end, limit) == ChainEnd(w, p, limit)
    decreases limit - p
  {
    if ValidAt(w, p, limit) && w[p] != END && p != end {
      FindEndIsChainEnd(w, NextAt(w, p), end, limit);
    }
  }

  /** memmove on words. */
  function MovedWords(w: seq<u32>, dst: nat, src: nat, n: nat): (r: seq<u32>)
    requires dst + n <= |w| && src + n <= |w|
    ensures |r| == |w|
  {
    w[..dst] + w[src..src + n] + w[dst + n..]
  }

  /** memcpy of s to position p. */
  function WrittenWords(w: seq<u32>, p: nat, s: seq<u32>): (r: seq<u32>)
    requires p + |s| <= |w|
    ensures |r| == |w|
  {
    w[..p] + s + w[p + |s|..]
  }

  /** Moving the rest of the block up and writing over the gap is an exact splice. */
  lemma MovedUp(w: seq<u32>, p: nat, drop: nat, put: seq<u32>, lse: nat)
    requires p + drop <= lse + 1 && drop <= |put| && lse + 1 + |put| - drop <= |w|
    ensures WrittenWords(MovedWords(w, p + |put|, p + drop, lse + 1 - p - drop), p, put) == Spliced(w, p, drop, put, lse)
  {
  }

  /** Moving the rest of the block down reaches past the last END, but zeroing puts that right. */
  lemma MovedDown(w: seq<u32>, p: nat, drop: nat, lse: nat)
    requires p + drop <= lse + 1 && lse + drop < |w|
    ensures WrittenWords(MovedWords(w, p, p + drop, lse + 1 - p), lse + 1 - drop, Zeros(drop)) == Spliced(w, p, drop, [], lse)
  {
  }

  lemma MovedBack(w: seq<u32>, p: nat, drop: nat, put: seq<u32>, lse: nat)
    requires |put| <= drop && p + drop <= lse + 1 && lse + drop - |put| < |w|
    ensures var d := drop - |put|; var q := p + |put|;
      WrittenWords(WrittenWords(MovedWords(w, q, q + d, lse + 1 - q), lse + 1 - d, Zeros(d)), p, put)
        == Spliced(w, p, drop, put, lse)
  {
    hide *;
    MovedDown(w, p + |put|, drop - |put|, lse);
    WrittenSplice(w, p, drop, put, lse);
  }

  /** A splice that does not lengthen the chain, as three parts. */
  lemma SplicedShort(w: seq<u32>, p: nat, drop: nat, put: seq<u32>, lse: nat)
    requires |put| <= drop && p + drop <= lse + 1 <= |w|
    ensures Spliced(w, p, drop, put, lse) == w[..p] + put + (w[p + drop..lse + 1] + Zeros(drop - |put|) + w[lse + 1..])
  {
    hide Zeros;
    if |put| == drop {
      assert Zeros(0) == [];
      assert w[p + drop..lse + 1] + w[lse + 1..] == w[p + drop..];
    }
  }

  /** Writing put just before the words that a shorter removal took out is the whole splice. */
  lemma WrittenSplice(w: seq<u32>, p: nat, drop: nat, put: seq<u32>, lse: nat)
    requires |put| <= drop && p + drop <= lse + 1 && lse + drop - |put| < |w|
    ensures WrittenWords(Spliced(w, p + |put|, drop - |put|, [], lse), p, put) == Spliced(w, p, drop, put, lse)
  {
    hide Spliced, Zeros;
    SplicedShort(w, p + |put|, drop - |put|, [], lse);
    SplicedShort(w, p, drop, put, lse);
    WrittenBetween(w, p, put, w[p + drop..lse + 1] + Zeros(drop - |put|) + w[lse + 1..]);
  }

  lemma WrittenBetween(w: seq<u32>, p: nat, put: seq<u32>, tail: seq<u32>)
    requires p + |put| <= |w|
    ensures WrittenWords(w[..p + |put|] + [] + tail, p, put) == w[..p] + put + tail
  {
    var head := w[..p + |put|];
    assert head + [] == head && head[..p] == w[..p] && (head + tail)[p + |put|..] == tail;
  }

  lemma MovedNothing(w: seq<u32>, p: nat, put: seq<u32>, lse: nat)
    ensures p + |put| <= lse + 1 <= |w| ==> WrittenWords(w, p, put) == Spliced(w, p, |put|, put, lse)
  {
  }

  lemma EncodedWords(tag: u32, data: Bytes)
    ensures |data| < WORD32 ==> EncItem(MakeItem(tag, data)) == [tag, |data|] + Pack(data)
    ensures |data| < WORD32 ==> |EncItem(MakeItem(tag, data))| == ItemWords(|data|)
  {
  }

  /** Writing words one by one is writing them all. */
  lemma WrittenEach(w: seq<u32>, r: seq<u32>, p: nat, s: seq<u32>)
    requires |r| == |w| && p + |s| <= |w|
    requires forall k :: 0 <= k < |w| ==> r[k] == if p <= k < p + |s| then s[k - p] else w[k]
    ensures r == WrittenWords(w, p, s)
  {
  }

  /** Where the walk over the segments goes on behind an END. */
  lemma LastStep(w: seq<u32>, start: nat, lse: nat, limit: nat)
    ensures !ValidAt(w, start, limit) ==> ChainEnd(w, start, limit) == None
    ensures ChainEnd(w, start, limit) == None ==> LastEnd(w, start, lse, limit) == lse
    ensures ChainEnd(w, start, limit).Some? ==> (var e := ChainEnd(w, start, limit).value;
      start <= e <= LastEnd(w, start, lse, limit) && e <= limit && LastEnd(w, start, lse, limit) == LastEnd(w, e + 1, e, limit))
  {
    LastEndBounds(w, start, lse, limit);
    UnfoldLast(w, start, lse, limit);
  }

  class Cursor {
    const block: array<u32>
    const base: nat       // the cursor's block pointer
    const limit: nat      // the last word of the block
    var current: int
    var end: int

    /** The block pointer and the limit lie in the array.  A limit one past the last word, as
        ef10_nvram_buffer_create sets it, is allowed here. */
    ghost predicate Sound() {
      limit <= block.Length
    }

    /** tlv_init_cursor, without the validation that follows it. */
    constructor (block: array<u32>, base: nat, limit: nat, current: int)
      ensures this.block == block && this.base == base && this.limit == limit
      ensures this.current == current && end == -1
    {
      this.block, this.base, this.limit, this.current, end := block, base, limit, current, -1;
    }

    ghost function W(): seq<u32>
      reads block
    {
      block[..]
    }

    ghost function FirstEnd(): Option<nat>
      reads block
    {
      ChainEnd(block[..], base, limit)
    }

    /** The end pointer, if set, is at the END of the first segment. */
    ghost predicate EndOk()
      reads this, block
    {
      end != -1 ==> FirstEnd() == Some(end)
    }

    /** The END of the last sound segment. */
    ghost function Last(): nat
      reads block
    {
      LastEnd(block[..], base, base, limit)
    }

    /** The checks that every edit makes first: a sound cursor in a block whose first segment ends. */
    ghost predicate Here()
      reads this, block
    {
      base <= current && ValidAt(block[..], current, limit) && FirstEnd().Some?
    }

    ghost predicate OnItem()
      reads this, block
    {
      Here() && block[..][current] != END
    }

    /** The position may be read: the block does not stop short of it. */
    ghost predicate Readable(p: int) {
      base <= p <= limit ==> p < block.Length
    }

    /** tlv_validate_state */
    method ValidateState() returns (rc: Rc)
      requires Sound() && Readable(current)
      modifies this`current
      ensures rc == Ok <==> base <= old(current) && ValidAt(W(), old(current), limit)
      ensures rc == Ok ==> current == old(current)
      ensures rc == EFAULT ==> current == -1
      ensures rc == Ok || rc == EINVAL || rc == EFAULT
      ensures rc == EINVAL <==> old(current < base || current > limit)
    {
      if current < base {
        return EINVAL;
      }
      if current > limit {
        return EINVAL;
      }
      if block[current] != END {
        if current > limit - 2 {
          current := -1;
          return EFAULT;
        }
        if current + ItemWords(block[current + 1]) > limit - 1 {
          current := -1;
          return EFAULT;
        }
      }
      return Ok;
    }

    /** tlv_advance */
    method Advance() returns (rc: Rc)
      requires Sound() && Readable(current)
      requires 0 <= current < block.Length && block[current] == END ==> limit < block.Length || current == end
      modifies this`current
      ensures rc == Ok ==> base <= old(current) && ValidAt(W(), old(current), limit) && old(current) != end
      ensures rc == Ok ==> current == NextAt(W(), old(current)) && ValidAt(W(), current, limit)
      ensures (base <= old(current) && ValidAt(W(), old(current), limit) && old(current) != end
        && ValidAt(W(), NextAt(W(), old(current)), limit)) ==> rc == Ok
      ensures rc == ENOENT ==> old(current) == end >= base
      ensures base <= old(current) && ValidAt(W(), old(current), limit) && rc == EINVAL ==> W()[old(current)] == END
      ensures rc in {Ok, EINVAL, EFAULT, ENOENT}
    {
      rc := ValidateState();
      if rc != Ok {
        return;
      }
      if current == end {
        current := -1;
        return ENOENT;
      }
      current := NextAt(block[..], current);
      rc := ValidateState();
    }

    /** tlv_rewind */
    method Rewind() returns (rc: Rc)
      requires Sound() && Readable(base)
      modifies this`current
      ensures rc == Ok <==> ValidAt(W(), base, limit)
      ensures rc == Ok ==> current == base
      ensures rc in {Ok, EINVAL, EFAULT} && (base <= limit ==> rc != EINVAL)
    {
      current := base;
      rc := ValidateState();
    }

    /** tlv_find */
    method Find(tag: u32) returns (rc: Rc)
      requires Sound() && Readable(base) && (limit < block.Length || tag == END)
      modifies this`current
      ensures var r := FindAt(W(), base, tag, end, limit);
        (rc == Ok <==> r.Some?) && (rc == Ok ==> current == r.value)
      ensures rc in {Ok, EINVAL, EFAULT, ENOENT}
      ensures base <= limit && tag == END ==> rc != EINVAL
      ensures end < base ==> rc != ENOENT
    {
      rc := Rewind();
      while rc == Ok
        invariant rc in {Ok, EINVAL, EFAULT, ENOENT}
        invariant (base <= limit && tag == END ==> rc != EINVAL) && (end < base ==> rc != ENOENT)
        invariant rc == Ok ==> base <= current && ValidAt(W(), current, limit)
        invariant FindAt(W(), base, tag, end, limit) ==
          if rc == Ok then FindAt(W(), current, tag, end, limit) else None
        decreases if rc == Ok then limit + 1 - current else 0
      {
        if block[current] == tag {
          break;
        }
        rc := Advance();
      }
    }

    /** tlv_require_end */
    method RequireEnd() returns (rc: Rc)
      requires Sound() && Readable(base) && EndOk()
      modifies this`current, this`end
      ensures rc == Ok <==> FirstEnd().Some?
      ensures rc == Ok ==> current == old(current) && end == FirstEnd().value
      ensures rc != Ok ==> end == -1 && (rc == EFAULT || (rc == EINVAL && limit < base))
      ensures EndOk()
    {
      if end == -1 {
        var pos := current;
        FindEndIsChainEnd(W(), base, end, limit);
        rc := Find(END);
        if rc != Ok {
          return;
        }
        end := current;
        current := pos;
      }
      return Ok;
    }

    /** tlv_block_length_used, in words; 0 on failure. */
    method LengthUsed() returns (n: nat)
      requires Sound() && Readable(base) && Readable(current) && EndOk()
      modifies this`current, this`end
      ensures EndOk()
      ensures n != 0 <==> base <= old(current) && ValidAt(W(), old(current), limit) && FirstEnd().Some?
      ensures n != 0 ==> n == FirstEnd().value + 1 - base && current == old(current)
    {
      var rc := ValidateState();
      if rc != Ok {
        return 0;
      }
      rc := RequireEnd();
      if rc != Ok {
        return 0;
      }
      return end + 1 - base;
    }

    /** tlv_last_segment_end */
    method LastSegmentEnd() returns (lse: nat)
      requires Sound() && Readable(base)
      requires limit < block.Length || Last() + 1 < block.Length
      ensures lse == LastEnd(W(), base, base, limit)
    {
      hide ChainEnd, LastEnd, ValidAt;
      lse := base;
      var start := base;
      while true
        invariant base <= start <= limit + 1 || start == base
        invariant Readable(start)
        invariant LastEnd(W(), base, base, limit) == LastEnd(W(), start, lse, limit)
        decreases limit + 1 - start
      {
        LastStep(W(), start, lse, limit);
        var c := new Cursor(block, start, limit, start);
        var rc := c.ValidateState();
        if rc != Ok {
          break;
        }
        rc := c.RequireEnd();
        if rc != Ok {
          break;
        }
        lse := c.end;
        start := c.end + 1;
      }
    }

    // -------------------------------------------------------------- changing words

    /** memmove of n words. */
    method MoveWords(dst: nat, src: nat, n: nat)
      requires dst + n <= block.Length && src + n <= block.Length
      modifies block
      ensures block[..] == MovedWords(old(block[..]), dst, src, n)
    {
      forall k | 0 <= k < n {
        block[dst + k] := block[src + k];
      }
    }

    /** memset of n words to zero. */
    method ClearWords(p: nat, n: nat)
      requires p + n <= block.Length
      modifies block
      ensures block[..] == WrittenWords(old(block[..]), p, Zeros(n))
    {
      forall k | 0 <= k < n {
        block[p + k] := 0;
      }
    }

    /** tlv_write */
    method Write(tag: u32, data: Bytes) returns (next: nat)
      requires |data| < WORD32 && 0 <= current && current + ItemWords(|data|) <= block.Length
      modifies block
      ensures block[..] == WrittenWords(old(block[..]), current, EncItem(MakeItem(tag, data)))
      ensures next == current + ItemWords(|data|)
    {
      hide Pack, EncItem, MakeItem, WrittenWords;
      EncodedWords(tag, data);
      ghost var w := block[..];
      var ptr := current;
      block[ptr] := tag;
      block[ptr + 1] := |data|;
      ptr := ptr + 2;
      if |data| > 0 {
        block[ptr + (|data| - 1) / 4] := 0;
        forall k | 0 <= k < BodyWords(|data|) {
          block[ptr + k] := Pack(data)[k];
        }
        ptr := ptr + BodyWords(|data|);
      }
      WrittenEach(w, block[..], current, [tag, |data|] + Pack(data));
      return ptr;
    }

    /** tlv_insert */
    method Insert(tag: u32, data: Bytes) returns (rc: Rc)
      requires Sound() && Readable(base) && Readable(current) && EndOk() && |data| < WORD32
      requires limit < block.Length || Last() + 1 < block.Length
      requires FirstEnd().Some? ==> current <= FirstEnd().value
      modifies this`current, this`end, block
      ensures rc == Ok <==> old(Here()) && tag != END && old(Last()) + 1 + ItemWords(|data|) <= limit
      ensures rc == Ok ==> current == old(current) && end == old(FirstEnd().value) + ItemWords(|data|)
      ensures rc == Ok ==> (old(current <= Last() < block.Length)
        && W() == Spliced(old(W()), current, 0, EncItem(MakeItem(tag, data)), old(Last())))
      ensures rc != Ok ==> W() == old(W())
      ensures rc == ENOSPC <==> old(Here()) && tag != END && old(Last()) + 1 + ItemWords(|data|) > limit
      ensures rc in {Ok, EINVAL, EFAULT, ENOSPC}
    {
      hide Spliced, MovedWords, WrittenWords, ChainEnd, LastEnd, MakeItem, EncItem;
      ghost var w := W();
      EncodedWords(tag, data);
      rc := ValidateState();
      if rc != Ok {
        return;
      }
      rc := RequireEnd();
      if rc != Ok {
        return;
      }
      if tag == END {
        return EINVAL;
      }
      LastEndBounds(w, base, base, limit);
      var lse := LastSegmentEnd();
      var delta := ItemWords(|data|);
      if lse + 1 + delta > limit {
        return ENOSPC;
      }
      MoveWords(current + delta, current, lse + 1 - current);
      end := end + delta;
      var _ := Write(tag, data);
      MovedUp(w, current, 0, EncItem(MakeItem(tag, data)), lse);
    }

    /** tlv_delete */
    method Delete() returns (rc: Rc)
      requires Sound() && Readable(base) && Readable(current) && EndOk()
      requires limit < block.Length || Last() + 1 < block.Length
      requires OnItem() ==> (NextAt(W(), current) <= FirstEnd().value
        && Last() + NextAt(W(), current) - current < block.Length)
      modifies this`current, this`end, block
      ensures rc == Ok <==> old(OnItem())
      ensures rc == Ok ==> current == old(current) && end == old(FirstEnd().value - (NextAt(W(), current) - current))
      ensures rc == Ok ==> (old(NextAt(W(), current) <= Last() < block.Length)
        && W() == Spliced(old(W()), current, old(NextAt(W(), current) - current), [], old(Last())))
      ensures rc != Ok ==> W() == old(W())
    {
      hide Spliced, MovedWords, WrittenWords, ChainEnd, LastEnd, MakeItem, EncItem;
      ghost var w := W();
      rc := ValidateState();
      if rc != Ok {
        return;
      }
      if block[current] == END {
        return EINVAL;
      }
      var delta := ItemWords(block[current + 1]);
      rc := RequireEnd();
      if rc != Ok {
        return;
      }
      LastEndBounds(w, base, base, limit);
      var lse := LastSegmentEnd();
      MoveWords(current, current + delta, lse + 1 - current);
      ClearWords(lse + 1 - delta, delta);
      end := end - delta;
      MovedDown(w, current, delta, lse);
    }

    /** tlv_modify */
    method Modify(tag: u32, data: Bytes) returns (rc: Rc)
      requires Sound() && Readable(base) && Readable(current) && EndOk() && |data| < WORD32
      requires limit < block.Length || Last() + 1 < block.Length
      requires OnItem() ==> (NextAt(W(), current) <= FirstEnd().value
        && Last() + NextAt(W(), current) - current - ItemWords(|data|) < block.Length)
      modifies this`current, this`end, block
      ensures rc == Ok <==> old(OnItem() && W()[current] == tag
        && (ItemWords(|data|) <= NextAt(W(), current) - current
            || Last() + 1 + ItemWords(|data|) - (NextAt(W(), current) - current) <= limit))
      ensures rc == Ok ==> (current == old(current)
        && end == old(FirstEnd().value) + ItemWords(|data|) - old(NextAt(W(), current) - current))
      ensures rc == Ok ==> (old(NextAt(W(), current) <= Last() < block.Length)
        && old(Last() + 1 + ItemWords(|data|) - (NextAt(W(), current) - current) <= block.Length)
        && W() == Spliced(old(W()), current, old(NextAt(W(), current) - current), EncItem(MakeItem(tag, data)), old(Last())))
      ensures rc != Ok ==> W() == old(W())
      ensures rc == ENOSPC <==> old(OnItem() && W()[current] == tag && ItemWords(|data|) > NextAt(W(), current) - current
        && Last() + 1 + ItemWords(|data|) - (NextAt(W(), current) - current) > limit)
      ensures rc in {Ok, EINVAL, EFAULT, ENOSPC}
      ensures old(base <= current && ValidAt(W(), current, limit) && W()[current] == tag != END) ==> rc != EINVAL
    {
      hide Spliced, MovedWords, WrittenWords, ChainEnd, LastEnd, MakeItem, EncItem;
      ghost var w := W();
      EncodedWords(tag, data);
      rc := ValidateState();
      if rc != Ok {
        return;
      }
      if block[current] == END || block[current] != tag {
        return EINVAL;
      }
      var oldWords := ItemWords(block[current + 1]);
      var newWords := ItemWords(|data|);
      rc := RequireEnd();
      if rc != Ok {
        return;
      }
      LastEndBounds(w, base, base, limit);
      var lse := LastSegmentEnd();
      if newWords > oldWords && lse + 1 + newWords - oldWords > limit {
        return ENOSPC;
      }
      Resize(oldWords, newWords, lse, EncItem(MakeItem(tag, data)));
      var _ := Write(tag, data);
    }

    /** The part of tlv_modify that makes the item at the cursor longer or shorter by moving what is behind it. */
    method Resize(oldWords: nat, newWords: nat, lse: nat, ghost put: seq<u32>)
      requires 0 <= current && current + oldWords <= lse + 1 <= block.Length && |put| == newWords
      requires lse + 1 + newWords - oldWords <= block.Length && lse + oldWords - newWords < block.Length
      modifies this`end, block
      ensures current + newWords <= |W()| && end == old(end) + newWords - oldWords
      ensures WrittenWords(W(), current, put) == Spliced(old(W()), current, oldWords, put, lse)
    {
      hide Spliced, MovedWords, WrittenWords;
      ghost var w := W();
      if newWords > oldWords {
        var delta := newWords - oldWords;
        var pos := current + oldWords;
        MoveWords(pos + delta, pos, lse + 1 - pos);
        end := end + delta;
        MovedUp(w, current, oldWords, put, lse);
      } else if newWords < oldWords {
        var delta := oldWords - newWords;
        var pos := current + newWords;
        MoveWords(pos, pos + delta, lse + 1 - pos);
        ClearWords(lse + 1 - delta, delta);
        end := end - delta;
        MovedBack(w, current, oldWords, put, lse);
      } else {
        MovedNothing(w, current, put, lse);
      }
    }
  }
}
