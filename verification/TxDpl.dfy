/** The deferred packet list as linked packets: the put stack, the in-place reversal of
    sfxge_tx_qdpl_swizzle and the get list with its tail pointer (sfxge_tx.c). */
module TxDpl {
  import opened Options
  import opened DplQueue

  class Packet {
    var next: Packet?     // stp_next
    var putLen: nat       // stp_dpl_put_len

    constructor ()
      ensures next == null && putLen == 0
    {
      next, putLen := null, 0;
    }
  }

  /** The packets of s, linked in order from head. */
  ghost predicate Chain(head: Packet?, s: seq<Packet>)
    reads s
  {
    && (s == [] ==> head == null)
    && (s != [] ==> head == s[0] && s[|s| - 1].next == null)
    && forall k :: 0 <= k < |s| - 1 ==> s[k].next == s[k + 1]
  }

  ghost predicate Distinct(s: seq<Packet>) {
    forall j, k :: 0 <= j < k < |s| ==> s[j] != s[k]
  }

  datatype Rc = Ok | ENOSPC

  class Dpl {
    const lim: Limits
    var put: Packet?       // std_put
    var get: Packet?       // std_get
    var tail: Packet?      // std_getp: the last packet of the get list, or null for &std_get
    var count: nat         // std_count
    var getFull: nat       // get_full_count
    var putFull: nat       // put_full_count

    ghost var putList: seq<Packet>
    ghost var getList: seq<Packet>
    ghost var left: seq<Packet>

    ghost predicate Valid()
      reads this, putList, getList
    {
      && Chain(put, putList) && Chain(get, getList) && Distinct(putList + getList)
      && tail == (if getList == [] then null else getList[|getList| - 1])
      && count == |getList|
      && (forall k :: 0 <= k < |putList| ==> putList[k].putLen == |putList| - k)
    }

    /** The abstract state between two operations. */
    ghost function Abs(): State<Packet>
      reads this
    {
      State(putList, getList, None, left)
    }

    constructor (lim: Limits)
      ensures Valid() && Abs() == Init() && this.lim == lim
    {
      this.lim := lim;
      put, get, tail, count, getFull, putFull := null, null, null, 0, 0, 0;
      putList, getList, left := [], [], [];
    }

    static lemma ValidIs(d: Dpl)
      ensures d.Valid() <==>
        && Chain(d.put, d.putList) && Chain(d.get, d.getList) && Distinct(d.putList + d.getList)
        && d.tail == (if d.getList == [] then null else d.getList[|d.getList| - 1])
        && d.count == |d.getList|
        && (forall k :: 0 <= k < |d.putList| ==> d.putList[k].putLen == |d.putList| - k)
    {
      hide Chain, Distinct;
    }

    /** With an empty put list only the get list matters. */
    static lemma GetListOnly(d: Dpl)
      requires d.put == null && d.putList == []
      ensures d.Valid() <==>
        && Chain(d.get, d.getList) && Distinct(d.getList) && d.count == |d.getList|
        && d.tail == (if d.getList == [] then null else d.getList[|d.getList| - 1])
    {
      EmptyChain();
      assert d.putList + d.getList == d.getList;
      hide Chain, Distinct;
    }

    static lemma NullMeansEmpty(head: Packet?, s: seq<Packet>)
      requires Chain(head, s)
      ensures head == if s == [] then null else s[0]
    {
    }

    static lemma EmptyChain()
      ensures Chain(null, [])
    {
    }

    static lemma ChainPrepend(p: Packet, head: Packet?, s: seq<Packet>)
      requires Chain(head, s) && p !in s && p.next == head
      ensures Chain(p, [p] + s)
    {
      var t := [p] + s;
      forall k | 0 <= k < |t| - 1
        ensures t[k].next == t[k + 1]
      {
        if k > 0 {
          assert t[k] == s[k - 1] && t[k + 1] == s[k];
        }
      }
    }

    static lemma DistinctPrepend(p: Packet, s: seq<Packet>, t: seq<Packet>)
      requires Distinct(s + t) && p !in s && p !in t
      ensures Distinct(([p] + s) + t)
    {
      assert ([p] + s) + t == [p] + (s + t);
    }

    static lemma PushOutcome(s: State<Packet>, p: Packet, lim: Limits)
      ensures PushRefused(s, lim) <==> |s.put| + 1 >= lim.putMax
      ensures Next(s, DplQueue.Push(p), lim) ==
              if |s.put| + 1 >= lim.putMax then s else s.(put := [p] + s.put)
    {
    }

    /** The unlocked add: one successful compare-and-swap of the put stack. */
    method Push(p: Packet) returns (rc: Rc)
      requires Valid() && p !in putList && p !in getList && p.next == null
      modifies this`put, this`putFull, this`putList, p
      ensures Valid() && Abs() == Next(old(Abs()), DplQueue.Push(p), lim)
      ensures rc == ENOSPC <==> old(|putList|) + 1 >= lim.putMax
      ensures getList == old(getList) && putList == if rc == Ok then [p] + old(putList) else old(putList)
      ensures rc == ENOSPC ==> p.next == null && p.putLen == 0
      ensures putFull == old(putFull) + if rc == ENOSPC then 1 else 0
    {
      hide Next, PushRefused, Distinct, Chain, Reverse, Valid;
      ValidIs(this);
      NullMeansEmpty(put, putList);
      var oldHead := put;
      p.putLen := if oldHead != null then oldHead.putLen + 1 else 1;
      if p.putLen >= lim.putMax {
        p.next := null;
        p.putLen := 0;
        putFull := putFull + 1;
        ValidIs(this);
        PushOutcome(old(Abs()), p, lim);
        return ENOSPC;
      }
      p.next := oldHead;
      put := p;
      putList := [p] + putList;
      ChainPrepend(p, oldHead, old(putList));
      DistinctPrepend(p, old(putList), getList);
      assert Chain(get, getList);
      assert forall k :: 0 <= k < |putList| ==> putList[k].putLen == |putList| - k;
      ValidIs(this);
      PushOutcome(old(Abs()), p, lim);
      return Ok;
    }

    /** The reversal loop of sfxge_tx_qdpl_swizzle, on a chain that has been swapped out. */
    method ReverseInPlace(head: Packet, ghost s: seq<Packet>) returns (p: Packet, cnt: nat)
      requires s != [] && Chain(head, s) && Distinct(s)
      modifies s
      ensures Chain(p, Reverse(s)) && cnt == |s|
    {
      var stpp: Packet? := head;
      var prev: Packet? := null;
      cnt := 0;
      ghost var done: seq<Packet> := [];
      while stpp != null
        invariant 0 <= cnt <= |s| && stpp == (if cnt < |s| then s[cnt] else null)
        invariant done == Reverse(s[..cnt]) && Chain(prev, done)
        invariant forall x :: x in done ==> x in s[..cnt]
        invariant forall k :: cnt <= k < |s| - 1 ==> s[k].next == s[k + 1]
        invariant cnt < |s| ==> s[|s| - 1].next == null
        decreases |s| - cnt
      {
        var next := stpp.next;
        ReverseStep(s, cnt);
        assert stpp !in done;
        stpp.next := prev;
        prev := stpp;
        done := [stpp] + done;
        cnt := cnt + 1;
        stpp := next;
      }
      assert s[..cnt] == s;
      p := prev;
    }

    static lemma ReverseStep(s: seq<Packet>, k: nat)
      requires k < |s|
      ensures Reverse(s[..k + 1]) == [s[k]] + Reverse(s[..k])
    {
      assert s[..k + 1] == s[..k] + [s[k]];
      ReverseConcat(s[..k], [s[k]]);
    }

    static lemma {:induction false} ReverseMembers(s: seq<Packet>)
      ensures forall x :: x in Reverse(s) <==> x in s
    {
      if s != [] {
        ReverseMembers(s[1..]);
        assert s == [s[0]] + s[1..];
      }
    }

    static lemma {:induction false} ReverseDistinct(s: seq<Packet>)
      requires Distinct(s)
      ensures Distinct(Reverse(s))
    {
      if s != [] {
        ReverseDistinct(s[1..]);
        ReverseMembers(s[1..]);
        assert s[0] !in s[1..];
      }
    }

    /** The two lists after the put list, reversed, has moved behind the get list. */
    static lemma MovedDistinct(p: seq<Packet>, g: seq<Packet>)
      requires Distinct(p + g)
      ensures Distinct(g + Reverse(p)) && Distinct(p) && Distinct(g)
      ensures forall x :: x in g ==> x !in p
    {
      assert forall j :: 0 <= j < |p| ==> (p + g)[j] == p[j];
      assert forall j :: 0 <= j < |g| ==> (p + g)[|p| + j] == g[j];
      forall x | x in g
        ensures x !in p
      {
        var j :| 0 <= j < |g| && g[j] == x;
        assert (p + g)[|p| + j] == x;
      }
      ReverseDistinct(p);
      ReverseMembers(p);
      var t := g + Reverse(p);
      forall j, k | 0 <= j < k < |t|
        ensures t[j] != t[k]
      {
        if j < |g| <= k {
          assert t[j] in g && t[k] in Reverse(p);
        }
      }
    }

    /** Linking chain q behind chain g, whose last packet (if any) now points at q's head. */
    static lemma ChainAppend(gHead: Packet?, g: seq<Packet>, qHead: Packet, q: seq<Packet>)
      requires Chain(qHead, q) && q != []
      requires g == [] ==> gHead == qHead
      requires g != [] ==> gHead == g[0] && g[|g| - 1].next == qHead
      requires forall k :: 0 <= k < |g| - 1 ==> g[k].next == g[k + 1]
      ensures Chain(gHead, g + q)
    {
      var t := g + q;
      forall k | 0 <= k < |t| - 1
        ensures t[k].next == t[k + 1]
      {
        if k < |g| - 1 {
          assert t[k] == g[k] && t[k + 1] == g[k + 1];
        } else if k >= |g| {
          assert t[k] == q[k - |g|] && t[k + 1] == q[k + 1 - |g|];
        }
      }
    }

    /** "Add it to the tail of the get list": link chain q, which ends in last, behind it. */
    method AppendChain(first: Packet, ghost q: seq<Packet>, last: Packet, cnt: nat)
      requires q != [] && Chain(first, q) && Chain(get, getList) && cnt == |q| && last == q[|q| - 1]
      requires Distinct(getList + q) && count == |getList|
      requires tail == if getList == [] then null else getList[|getList| - 1]
      modifies this`get, this`tail, this`count, this`getList, getList
      ensures getList == old(getList) + q && Chain(get, getList)
      ensures tail == last && count == |getList|
      ensures unchanged(q)
      ensures forall x :: x in old(getList) ==> x.putLen == old(x.putLen)
    {
      ghost var g := getList;
      forall k | 0 <= k < |g|
        ensures g[k] !in q
        ensures k < |g| - 1 ==> g[k] != g[|g| - 1]
      {
        forall j | 0 <= j < |q|
          ensures g[k] != q[j]
        {
          assert (g + q)[k] == g[k] && (g + q)[|g| + j] == q[j];
        }
        assert (g + q)[k] == g[k] && (g + q)[|g| - 1] == g[|g| - 1];
      }
      hide Distinct;
      if tail == null {
        get := first;
      } else {
        tail.next := first;
      }
      ChainAppend(get, g, first, q);
      tail := last;
      count := count + cnt;
      getList := g + q;
    }

    static lemma SwizzleOutcome(s: State<Packet>, lim: Limits)
      ensures Enabled(s, DplQueue.Swizzle) <== s.adding == None
      ensures s.adding == None ==>
        Next(s, DplQueue.Swizzle, lim)
        == (if |s.get| >= lim.getMax then s else s.(get := s.get + Reverse(s.put), put := []))
    {
    }

    /** The first packet of a chain is the last of its reversal. */
    static lemma ReverseEnds(s: seq<Packet>)
      requires s != []
      ensures Reverse(s) != [] && Reverse(s)[|s| - 1] == s[0]
    {
    }

    /** Reverse a non-empty put list, already swapped out, onto the get list. */
    method TakeOver(stpp: Packet, ghost p: seq<Packet>)
      requires p != [] && Chain(stpp, p) && Chain(get, getList) && Distinct(p + getList) && putList == []
      requires tail == (if getList == [] then null else getList[|getList| - 1]) && count == |getList|
      modifies this`get, this`tail, this`count, this`getList, p, getList
      ensures getList == old(getList) + Reverse(p) && Chain(get, getList) && Distinct(getList)
      ensures tail == (if getList == [] then null else getList[|getList| - 1]) && count == |getList|
    {
      ghost var g, q := getList, Reverse(p);
      MovedDistinct(p, g);
      ReverseMembers(p);
      ReverseEnds(p);
      hide Distinct, Reverse, Chain;
      assert forall k :: 0 <= k < |g| ==> g[k] in g && g[k] !in p;
      var first, cnt := ReverseInPlace(stpp, p);
      AppendChain(first, q, stpp, cnt);
    }

    /** sfxge_tx_qdpl_swizzle. */
    method Swizzle()
      requires Valid()
      modifies this`put, this`get, this`tail, this`count, this`putList, this`getList, putList, getList
      ensures Valid() && Abs() == Next(old(Abs()), DplQueue.Swizzle, lim)
      ensures getList == old(getList) + (if old(count) >= lim.getMax then [] else Reverse(old(putList)))
    {
      SwizzleOutcome(Abs(), lim);
      hide Next, Swizzled, Distinct, Chain, Valid;
      ValidIs(this);
      NullMeansEmpty(put, putList);
      if count >= lim.getMax {
        return;
      }
      var stpp := put;
      put := null;
      ghost var p := putList;
      if stpp == null {
        assert Reverse(p) == [];
        GetListOnly(this);
        return;
      }
      hide Reverse;
      putList := [];
      TakeOver(stpp, p);
      GetListOnly(this);
    }

    static lemma AddOutcome(s: State<Packet>, p: Packet, lim: Limits)
      requires s.adding == None
      ensures GetFull(s, lim) ==> Next(s, AddSwap(p), lim) == s
      ensures !GetFull(s, lim) ==>
        Next(Next(s, AddSwap(p), lim), AddAppend, lim) == State([], (s.get + Reverse(s.put)) + [p], None, s.left)
    {
    }

    static lemma DistinctAppend(s: seq<Packet>, p: Packet)
      requires Distinct(s) && p !in s
      ensures Distinct(s + [p])
    {
    }

    static lemma SingleChain(p: Packet)
      requires p.next == null
      ensures Chain(p, [p])
    {
    }

    /** "Add to the tail of the get list". */
    method Append(p: Packet)
      requires Valid() && putList == [] && p !in getList && p.next == null
      modifies this`get, this`tail, this`count, this`getList, getList
      ensures Valid() && getList == old(getList) + [p]
    {
      hide *;
      ValidIs(this);
      NullMeansEmpty(put, putList);
      GetListOnly(this);
      SingleChain(p);
      DistinctAppend(getList, p);
      AppendChain(p, [p], p, 1);
      GetListOnly(this);
    }

    /** The locked add: swizzle, then append p. */
    method AddLocked(p: Packet) returns (rc: Rc)
      requires Valid() && p !in putList && p !in getList && p.next == null
      modifies this`put, this`get, this`tail, this`count, this`putList, this`getList, this`getFull, putList, getList
      ensures Valid()
      ensures rc == ENOSPC <==> old(count) >= lim.getMax
      ensures rc == Ok ==> putList == [] && getList == old(getList) + Reverse(old(putList)) + [p]
      ensures rc == ENOSPC ==> Abs() == Next(old(Abs()), AddSwap(p), lim) && getFull == old(getFull) + 1
      ensures rc == Ok ==> Abs() == Next(Next(old(Abs()), AddSwap(p), lim), AddAppend, lim)
    {
      hide Next, Swizzled, Distinct, Chain, Reverse;
      AddOutcome(Abs(), p, lim);
      if count >= lim.getMax {
        getFull := getFull + 1;
        return ENOSPC;
      }
      SwizzleOutcome(Abs(), lim);
      Swizzle();
      assert getList == old(getList) + Reverse(old(putList));
      ReverseMembers(old(putList));
      forall k | 0 <= k < |getList|
        ensures getList[k] in old(getList) || getList[k] in old(putList)
      {
        assert getList[k] in old(getList) || getList[k] in Reverse(old(putList));
      }
      Append(p);
      return Ok;
    }

    /** The unlinking loop of sfxge_tx_qdpl_drain and sfxge_tx_qdpl_flush_locked: split packets off
        the front, until none is left or (in a drain) the ring blocks the queue. */
    static method Unlink(head: Packet?, cnt: nat, ghost g: seq<Packet>, mayBlock: bool)
      returns (stpp: Packet?, left: nat, sent: seq<Packet>)
      requires Chain(head, g) && Distinct(g) && cnt == |g|
      modifies g
      ensures |sent| + left == |g| && sent == g[..|sent|] && Chain(stpp, g[|sent|..])
      ensures !mayBlock ==> left == 0
      ensures forall p :: p in sent ==> p.next == null
    {
      ChainLinks(head, g);
      hide Chain;
      stpp, left, sent := head, cnt, [];
      while left != 0
        invariant left == |g| - |sent| && sent == g[..|sent|] && stpp == (if left != 0 then g[|sent|] else null)
        invariant forall p :: p in sent ==> p.next == null
        invariant forall k :: |sent| <= k < |g| - 1 ==> g[k].next == g[k + 1]
        invariant left != 0 ==> g[|g| - 1].next == null
      {
        var next := stpp.next;
        stpp.next := null;
        sent := sent + [stpp];
        left := left - 1;
        stpp := next;
        var blocked: bool := *;
        if mayBlock && blocked {
          break;
        }
      }
      ChainFrom(g, |sent|);
    }

    /** sfxge_tx_qdpl_drain: packets leave from the front until the list is empty or the ring
        blocks the queue, which the fragmenting and posting of each packet decides. */
    method Drain() returns (sent: seq<Packet>)
      requires Valid()
      modifies this`get, this`tail, this`count, this`getList, this`left, getList
      ensures Valid() && putList == old(putList)
      ensures old(getList) == sent + getList && left == old(left) + sent
      ensures forall p :: p in sent ==> p.next == null
    {
      ghost var g := getList;
      MovedDistinct(putList, g);
      DistinctApart(putList, g);
      hide Distinct;
      var stpp, cnt;
      stpp, cnt, sent := Unlink(get, count, g, true);
      DistinctSuffix(putList, g, |sent|);
      left := left + sent;
      Shorten(stpp, cnt, g[|sent|..]);
    }

    static lemma DistinctApart(s: seq<Packet>, g: seq<Packet>)
      requires Distinct(s + g)
      ensures forall k :: 0 <= k < |s| ==> s[k] !in g
    {
      forall j, k | 0 <= k < |s| && 0 <= j < |g|
        ensures s[k] != g[j]
      {
        assert (s + g)[k] == s[k] && (s + g)[|s| + j] == g[j];
      }
    }

    /** The end of a drain: "new empty get list" or "shorten the list by moving the head". */
    method Shorten(stpp: Packet?, cnt: nat, ghost rest: seq<Packet>)
      requires Chain(put, putList) && Chain(stpp, rest) && Distinct(putList + rest) && cnt == |rest|
      requires rest != [] ==> tail == rest[|rest| - 1]
      requires forall k :: 0 <= k < |putList| ==> putList[k].putLen == |putList| - k
      modifies this`get, this`tail, this`count, this`getList
      ensures Valid() && getList == rest
    {
      hide *;
      NullMeansEmpty(stpp, rest);
      EmptyChain();
      getList := rest;
      if cnt == 0 {
        get, count, tail := null, 0, null;
      } else {
        get, count := stpp, cnt;
      }
      ValidIs(this);
    }

    static lemma ChainLinks(head: Packet?, s: seq<Packet>)
      requires Chain(head, s)
      ensures head == if s == [] then null else s[0]
      ensures forall k :: 0 <= k < |s| - 1 ==> s[k].next == s[k + 1]
      ensures s != [] ==> s[|s| - 1].next == null
    {
    }

    static lemma ChainFrom(g: seq<Packet>, k: nat)
      requires k <= |g|
      requires forall j :: k <= j < |g| - 1 ==> g[j].next == g[j + 1]
      requires k < |g| ==> g[|g| - 1].next == null
      ensures Chain(if k < |g| then g[k] else null, g[k..])
    {
    }

    static lemma DistinctSuffix(s: seq<Packet>, g: seq<Packet>, k: nat)
      requires Distinct(s + g) && k <= |g|
      ensures Distinct(s + g[k..])
    {
      var t := s + g[k..];
      forall i, j | 0 <= i < j < |t|
        ensures t[i] != t[j]
      {
        var i', j' := if i < |s| then i else i + k, if j < |s| then j else j + k;
        assert t[i] == (s + g)[i'] && t[j] == (s + g)[j'];
      }
    }

    /** The discarding loop of sfxge_tx_qdpl_flush_locked. */
    method Discard()
      requires Valid()
      modifies this`get, this`tail, this`count, this`getList, this`left, getList
      ensures Valid() && getList == [] && left == old(left) + old(getList)
    {
      ghost var g := getList;
      MovedDistinct(putList, g);
      DistinctApart(putList, g);
      hide Distinct;
      var stpp, cnt, gone := Unlink(get, count, g, false);
      DistinctSuffix(putList, g, |g|);
      left := left + gone;
      Shorten(stpp, cnt, g[|g|..]);
    }

    /** sfxge_tx_qdpl_flush_locked: every packet on the get list is discarded.  The put list is
        taken along unless the get list was already at its limit. */
    method Flush()
      requires Valid()
      modifies this`put, this`get, this`tail, this`count, this`putList, this`getList, this`left, putList, getList
      ensures Valid() && getList == []
      ensures putList == if old(count) >= lim.getMax then old(putList) else []
      ensures left + Queue(Abs()) == old(left + Queue(Abs()))
    {
      SwizzleOutcome(Abs(), lim);
      hide Chain, Distinct, Next, Swizzled, Reverse;
      Swizzle();
      ReverseMembers(old(putList));
      forall k | 0 <= k < |getList|
        ensures getList[k] in old(getList) || getList[k] in old(putList)
      {
        assert !GetFull(old(Abs()), lim) ==> getList == old(getList) + Reverse(old(putList));
      }
      Discard();
      assert Reverse<Packet>([]) == [] by {
        EmptyReverse();
      }
    }

    static lemma EmptyReverse()
      ensures Reverse<Packet>([]) == []
    {
    }
  }
}
