/** The software filter table as the driver updates it, one call at a time: adding, deleting and
    reconfiguring filters (common/ef10_filter.c).  Firmware answers are a free choice. */
module FilterTable {
  import opened Options
  import opened Words
  import opened Filters
  import opened FilterRules

  const MAX_UNICAST := 2
  const MAX_MULTICAST := 257
  const LIST_MAX := 256

  datatype Rc = Ok | EEXIST | EBUSY | ENOMEM | EINVAL | ENOENT | ENOTSUP | EIO

  class Table {
    const hash: Match -> u32
    const chaining: bool              // enc_bug26807_workaround
    const firmware: nat -> Rc         // the answer to the n-th request
    ghost const automatic: bool       // no filters but automatic ones are added
    const entry: array<Entry>         // eft_entry
    const unicst: array<nat>          // eft_unicst_filter_indexes
    const mulcst: array<nat>          // eft_mulcst_filter_indexes

    var unicstCount: nat              // eft_unicst_filter_count
    var mulcstCount: nat              // eft_mulcst_filter_count
    var usingAllMulcst: bool          // eft_using_all_mulcst
    var defaultRxq: Option<nat>       // eft_default_rxq
    var usingRss: bool                // eft_using_rss
    var rssContext: u32               // en_rss_context
    var requests: nat                 // firmware requests made so far
    ghost var refused: set<Match>     // filters refused since the last reconfiguration began
    ghost var refusals: nat           // and how many times an add was refused
    ghost var origin: seq<Entry>      // the rows when the current destination was last chosen

    ghost predicate Valid()
      reads this, entry
    {
      && entry.Length == ROWS && unicst.Length == MAX_UNICAST && mulcst.Length == MAX_MULTICAST
      && unicst != mulcst && unicstCount <= MAX_UNICAST && mulcstCount <= MAX_MULTICAST
      && TableOk(entry[..], hash) && Safe(entry[..], chaining) && (automatic ==> AutoOnly(entry[..]))
      && Sends(origin, entry[..], defaultRxq, usingRss, rssContext)
    }

    ghost function Us(): seq<nat>
      requires unicstCount <= unicst.Length
      reads this, unicst
    {
      unicst[..unicstCount]
    }

    ghost function Ms(): seq<nat>
      requires mulcstCount <= mulcst.Length
      reads this, mulcst
    {
      mulcst[..mulcstCount]
    }

    /** With chaining, the flag eft_using_all_mulcst says which kind of multicast filter there may be. */
    ghost predicate FlagTrue()
      reads this, entry
    {
      chaining ==> if usingAllMulcst then NoAutoSpecific(entry[..]) else NoAutoUnknown(entry[..])
    }

    /** What holds between two reconfigurations, whatever failed. */
    ghost predicate Rest()
      reads this, entry, unicst, mulcst
    {
      Valid() && NoOld(entry[..]) && Tracks(entry[..], Us(), Ms()) && FlagTrue()
    }

    /** At rest, and the automatic filters are exactly the tracked ones. */
    ghost predicate Exact()
      reads this, entry, unicst, mulcst
    {
      Rest() && Complete(entry[..], Us(), Ms())
    }

    /** No automatic filter for m is in the table, but there is room for one. */
    ghost predicate Absent(m: Match)
      reads entry
    {
      && entry.Length == ROWS
      && (forall i :: 0 <= i < ROWS ==> !Has(entry[..], i, m)) && HasRoom(entry[..], hash(m))
    }

    /** And the firmware supports no further filter. */
    ghost predicate Unsupported(m: Match)
      reads this`requests, entry
    {
      Absent(m) && forall k :: requests <= k ==> firmware(k) == ENOTSUP
    }

    lemma AbsentMeans(m: Match)
      requires entry.Length == ROWS
      ensures Absent(m) ==> HasRoom(entry[..], hash(m)) && forall i :: 0 <= i < ROWS ==> !Has(entry[..], i, m)
    {
    }

    constructor (hash: Match -> u32, chaining: bool, firmware: nat -> Rc, ghost automatic: bool)
      ensures Exact() && requests == 0 && this.automatic == automatic && fresh(entry) && fresh(unicst) && fresh(mulcst)
      ensures this.hash == hash && this.chaining == chaining && this.firmware == firmware
      ensures (forall i :: 0 <= i < ROWS ==> entry[i] == EMPTY) && unicstCount == 0 && mulcstCount == 0
      ensures defaultRxq == None && !usingRss && rssContext == 0
    {
      this.hash, this.chaining, this.firmware, this.automatic := hash, chaining, firmware, automatic;
      entry := new Entry[ROWS](_ => EMPTY);
      unicst := new nat[MAX_UNICAST](_ => 0);
      mulcst := new nat[MAX_MULTICAST](_ => 0);
      unicstCount, mulcstCount, usingAllMulcst := 0, 0, false;
      defaultRxq, usingRss, rssContext := None, false, 0;
      requests, refused, refusals := 0, {}, 0;
      origin := seq(ROWS, _ => EMPTY);
    }

    /** ef10_filter_default_rxq_set and ef10_filter_default_rxq_clear, and the RSS context of the NIC. */
    method SetQueue(rxq: Option<nat>, rss: bool, context: u32)
      requires Rest()
      modifies this`defaultRxq, this`usingRss, this`rssContext, this`origin
      ensures Rest() && (old(Exact()) ==> Exact()) && defaultRxq == rxq && usingRss == rss && rssContext == context
      ensures Us() == old(Us()) && Ms() == old(Ms()) && origin == entry[..]
    {
      hide TableOk, Safe, AutoOnly, Tracks, Complete, NoOld, NoAutoUnknown, NoAutoSpecific, Sends;
      defaultRxq, usingRss, rssContext, origin := rxq, rss, context, entry[..];
      SendsSame(entry[..], rxq, rss, context);
    }

    /** One firmware request (or the allocation before it): any answer. */
    method Request() returns (rc: Rc)
      modifies this`requests
      ensures rc == firmware(old(requests)) && requests == old(requests) + 1
    {
      rc := firmware(requests);
      requests := requests + 1;
    }

    /** The probe loop of ef10_filter_add_internal. */
    method Probe(spec: Spec, mayReplace: bool) returns (o: Outcome)
      requires entry.Length == ROWS
      ensures o == Scan(entry[..], hash(spec.m), spec, mayReplace, 1, -1)
    {
      var h := hash(spec.m);
      var ins: int, depth: nat := -1, 1;
      while true
        invariant Depth(depth)
        invariant Scan(entry[..], h, spec, mayReplace, 1, -1) == Scan(entry[..], h, spec, mayReplace, depth, ins)
        decreases SEARCH_LIMIT - depth
      {
        var i := Slot(h, depth);
        var saved := entry[i];
        if saved.spec.None? {
          if ins < 0 {
            ins := i;
          }
        } else if Equal(spec, saved.spec.value) {
          if saved.busy {
            return Retry;
          }
          if saved.spec.value.priority == Auto {
            return Found(i);
          } else if Exclusive(spec.m) {
            if mayReplace {
              return Found(i);
            } else {
              return Exists;
            }
          }
        }
        if depth == SEARCH_LIMIT {
          if ins < 0 {
            return NoRoom;
          }
          return Found(ins);
        }
        depth := depth + 1;
      }
    }

    /** Write one row; every write keeps the table safe. */
    method SetEntry(i: nat, e: Entry)
      requires entry.Length == ROWS && i < ROWS && Safe(entry[..][i := e], chaining)
      modifies entry
      ensures entry[..] == old(entry[..])[i := e] && Safe(entry[..], chaining)
    {
      entry[i] := e;
      assert entry[..] == old(entry[..])[i := e];
    }

    /** ef10_filter_add_internal, with no other thread in the table.  The filter is the automatic
        or manual filter spec; busy is set for the duration of the firmware request. */
    method AddInternal(spec: Spec, mayReplace: bool) returns (rc: Rc, id: nat)
      requires Valid() && (spec.priority == Auto ==> Admits(entry[..], chaining, spec.m))
      requires automatic ==> spec.priority == Auto
      requires spec.priority == Auto ==> Directed(spec, defaultRxq, usingRss, rssContext)
      modifies entry, this`requests, this`refused, this`refusals
      ensures Valid() && id < ROWS
      ensures refused == if rc == Ok then old(refused) else old(refused) + {spec.m}
      ensures refusals == old(refusals) + if rc == Ok then 0 else 1
      ensures rc == Ok ==> Added(old(entry[..]), entry[..], spec, id)
      ensures rc != Ok ==> Refused(old(entry[..]), entry[..], spec)
      ensures old(NoOld(entry[..])) ==> NoOld(entry[..])
      ensures if requests == old(requests) then
                (rc == Ok && Has(old(entry[..]), id, spec.m)) || (rc == EEXIST && !mayReplace)
                || (rc == EBUSY && !HasRoom(old(entry[..]), hash(spec.m)))
              else (requests == old(requests) + 1 && rc == firmware(old(requests))
                && forall i :: 0 <= i < ROWS ==> !Has(old(entry[..]), i, spec.m))
      ensures var t := old(entry[..]);
        if Mine(t, spec.m) then rc == Ok && requests == old(requests) && Has(t, id, spec.m)
        else if Taken(t, spec.m) && !mayReplace then rc == EEXIST && requests == old(requests)
        else if !Taken(t, spec.m) && !HasRoom(t, hash(spec.m)) then rc == EBUSY && requests == old(requests)
        else rc == firmware(old(requests)) && requests == old(requests) + 1
    {
      hide HasRoom, ConflictFrom, InWindow, Scan, Admits, Sends, Directed, Mine, Taken;
      ghost var t := entry[..];
      ProbeAtRest(t, hash, spec, mayReplace);
      ProbeAnswers(t, hash, spec, mayReplace);
      id := 0;
      var o := Probe(spec, mayReplace);
      if o.Exists? {
        refused, refusals := refused + {spec.m}, refusals + 1;
        return EEXIST, id;
      }
      if o.NoRoom? {
        NoRoomMeansFull(t, hash(spec.m), spec, mayReplace);
        refused, refusals := refused + {spec.m}, refusals + 1;
        return EBUSY, id;
      }
      id := o.i;
      var saved := entry[id];
      if IsAuto(saved) {
        assert Has(t, id, spec.m);
        SendsUpdate(origin, t, defaultRxq, usingRss, rssContext, id, saved.(autoOld := false));
        SetEntry(id, saved.(autoOld := false));
        assert RowOk(saved, id, hash);
        return Ok, id;
      }
      rc := Claim(spec, id);
    }

    /** An add that has found row id for its filter, free or to be replaced. */
    method Claim(spec: Spec, id: nat) returns (rc: Rc)
      requires Valid() && (spec.priority == Auto ==> Admits(entry[..], chaining, spec.m))
      requires automatic ==> spec.priority == Auto
      requires spec.priority == Auto ==> Directed(spec, defaultRxq, usingRss, rssContext)
      requires id < ROWS && !IsAuto(entry[id]) && forall i :: 0 <= i < ROWS ==> !Has(entry[..], i, spec.m)
      requires if entry[id].spec.Some? then entry[id].spec.value.m == spec.m
               else InWindow(hash(spec.m), id) && !ConflictFrom(entry[..], hash(spec.m), spec, 1)
      modifies entry, this`requests, this`refused, this`refusals
      ensures Valid() && rc == firmware(old(requests)) && requests == old(requests) + 1
      ensures refused == if rc == Ok then old(refused) else old(refused) + {spec.m}
      ensures refusals == old(refusals) + if rc == Ok then 0 else 1
      ensures rc == Ok ==> Added(old(entry[..]), entry[..], spec, id)
      ensures rc != Ok ==> Refused(old(entry[..]), entry[..], spec)
      ensures old(NoOld(entry[..])) ==> NoOld(entry[..])
    {
      ghost var t := entry[..];
      if entry[id].spec.Some? {
        ReplaceKeepsTable(t, hash, spec, id);
      } else {
        InsertKeepsTable(t, hash, spec, id);
      }
      rc := Install(spec, id);
      if rc != Ok {
        refused, refusals := refused + {spec.m}, refusals + 1;
      }
    }

    /** The second half of an add: mark row id busy, ask the firmware, then keep or clear it. */
    method Install(spec: Spec, id: nat) returns (rc: Rc)
      requires Valid() && (spec.priority == Auto ==> Admits(entry[..], chaining, spec.m))
      requires automatic ==> spec.priority == Auto
      requires spec.priority == Auto ==> Directed(spec, defaultRxq, usingRss, rssContext)
      requires id < ROWS && !IsAuto(entry[id])
      requires entry[id].spec.Some? ==> entry[id].spec.value.m == spec.m
      requires TableOk(entry[..][id := Entry(Some(spec), false, false)], hash)
      modifies entry, this`requests
      ensures Valid() && rc == firmware(old(requests)) && requests == old(requests) + 1
      ensures entry[..] == old(entry[..])[id := if rc == Ok then Entry(Some(spec), false, false) else EMPTY]
    {
      ghost var t := entry[..];
      var saved := entry[id];
      var replacing := saved.spec.Some?;
      AddKeepsSafe(t, chaining, id, if replacing then saved.(busy := true) else Entry(Some(spec), true, false));
      AddKeepsSafe(t, chaining, id, Entry(Some(spec), false, false));
      AddKeepsSafe(t, chaining, id, EMPTY);
      ClearKeepsTable(t, hash, id);
      SendsUpdate(origin, t, defaultRxq, usingRss, rssContext, id, EMPTY);
      SendsUpdate(origin, t, defaultRxq, usingRss, rssContext, id, Entry(Some(spec), false, false));
      if replacing {
        SetEntry(id, saved.(busy := true));
      } else {
        SetEntry(id, Entry(Some(spec), true, false));
      }
      rc := Request();
      ghost var u := entry[..];
      assert u[id := EMPTY] == t[id := EMPTY];
      assert u[id := Entry(Some(spec), false, false)] == t[id := Entry(Some(spec), false, false)];
      if rc != Ok {
        SetEntry(id, EMPTY);
      } else if replacing {
        var was := saved.spec.value;
        SetEntry(id, Entry(Some(Spec(was.m, spec.priority, spec.rss, spec.rssContext, spec.dmaq)), false, false));
      } else {
        SetEntry(id, Entry(Some(spec), false, false));
      }
    }

    /** ef10_filter_delete_internal: the row is freed whatever the firmware answers. */
    method DeleteInternal(filterId: nat) returns (rc: Rc)
      requires Valid()
      modifies entry, this`requests
      ensures Valid() && entry[..] == old(entry[..])[filterId % ROWS := EMPTY]
      ensures rc == if old(entry[filterId % ROWS]).spec.None? then ENOENT else firmware(old(requests))
      ensures old(requests) <= requests
    {
      var i := filterId % ROWS;
      ghost var t := entry[..];
      assert RowOk(t[i], i, hash);
      ClearKeepsTable(t, hash, i);
      SendsUpdate(origin, t, defaultRxq, usingRss, rssContext, i, EMPTY);
      AddKeepsSafe(t, chaining, i, EMPTY);
      AddKeepsSafe(t, chaining, i, t[i].(busy := true));
      if entry[i].spec.None? {
        assert t[i := EMPTY] == t;
        return ENOENT;
      }
      SetEntry(i, entry[i].(busy := true));
      rc := Request();
      assert entry[..][i := EMPTY] == t[i := EMPTY];
      SetEntry(i, EMPTY);
    }

    /** ef10_filter_remove_old: delete every filter still marked old. */
    method RemoveOld()
      requires Valid()
      modifies entry, this`requests
      ensures old(requests) <= requests
      ensures Valid() && NoOld(entry[..])
      ensures forall i :: 0 <= i < ROWS ==> entry[i] == if old(entry[i]).autoOld then EMPTY else old(entry[i])
    {
      var i := 0;
      while i < ROWS
        invariant 0 <= i <= ROWS && Valid() && old(requests) <= requests
        invariant forall j :: 0 <= j < ROWS ==>
          entry[j] == if j < i && old(entry[j]).autoOld then EMPTY else old(entry[j])
      {
        if entry[i].autoOld {
          var _ := DeleteInternal(i);
        }
        i := i + 1;
      }
    }

    /** Set or clear AUTO_OLD on an automatic filter. */
    method SetOld(i: nat, mark: bool)
      requires Valid() && i < ROWS && IsAuto(entry[i])
      modifies entry
      ensures Valid() && entry[..] == old(entry[..])[i := old(entry[i]).(autoOld := mark)]
    {
      assert RowOk(entry[i], i, hash);
      SendsUpdate(origin, entry[..], defaultRxq, usingRss, rssContext, i, entry[i].(autoOld := mark));
      SetEntry(i, entry[i].(autoOld := mark));
    }

    /** Clear every AUTO_OLD flag, as the failure exit of ef10_filter_reconfigure does. */
    method ClearOld()
      requires Valid()
      modifies entry
      ensures Valid() && NoOld(entry[..])
      ensures forall i :: 0 <= i < ROWS ==> entry[i] == old(entry[i]).(autoOld := false)
    {
      var i := 0;
      while i < ROWS
        invariant 0 <= i <= ROWS && Valid()
        invariant forall j :: 0 <= j < ROWS ==>
          entry[j] == if j < i then old(entry[j]).(autoOld := false) else old(entry[j])
      {
        assert RowOk(entry[i], i, hash);
        if entry[i].autoOld {
          SetOld(i, false);
        }
        i := i + 1;
      }
    }

    /** Mark the tracked filters old. */
    method MarkOld()
      requires Rest()
      modifies entry
      ensures Valid() && Tracks(entry[..], [], []) && FlagTrue()
      ensures old(Exact()) ==> Complete(entry[..], [], [])
      ensures forall i :: 0 <= i < ROWS ==> entry[i] == old(entry[i]).(autoOld := i in Us() || i in Ms())
      ensures forall m :: old(Absent(m)) ==> Absent(m)
      ensures forall i, m :: old(Has(entry[..], i, m)) ==> Has(entry[..], i, m)
    {
      hide TableOk, Safe, AutoOnly, Tracks, Complete, HasRoom, Has;
      ghost var t := entry[..];
      TrackedIsAuto(t, Us(), Ms());
      var k := 0;
      while k < unicstCount
        invariant 0 <= k <= unicstCount && Valid()
        invariant forall j :: 0 <= j < ROWS ==> entry[j] == old(entry[j]).(autoOld := j in unicst[..k])
      {
        assert unicst[k] in Us() && unicst[..k + 1] == unicst[..k] + [unicst[k]];
        SetOld(unicst[k], true);
        k := k + 1;
      }
      k := 0;
      while k < mulcstCount
        invariant 0 <= k <= mulcstCount && Valid()
        invariant forall j :: 0 <= j < ROWS ==> entry[j] == old(entry[j]).(autoOld := j in Us() || j in mulcst[..k])
      {
        assert mulcst[k] in Ms() && mulcst[..k + 1] == mulcst[..k] + [mulcst[k]];
        SetOld(mulcst[k], true);
        k := k + 1;
      }
      MarkedTracks(t, entry[..], Us(), Ms());
      MarksLeaveRoom(t, entry[..]);
    }

    /** efx_filter_spec_init_rx for an automatic filter, with the RSS context filled in. */
    function AutoSpec(m: Match): Spec
      reads this
    {
      Spec(m, Auto, usingRss, rssContext, if defaultRxq.Some? then defaultRxq.value else 0)
    }

    /** ef10_filter_insert_unicast and ef10_filter_insert_all_unicast. */
    method InsertUnicast(m: Match, ghost s: set<Match>) returns (rc: Rc)
      requires Valid() && FlagTrue() && unicstCount < MAX_UNICAST && !Multicast(m) && m in s
      requires Tracks(entry[..], Us(), []) && Within(entry[..], Us(), s)
      modifies entry, unicst, this`unicstCount, this`requests, this`refused, this`refusals
      ensures Valid() && FlagTrue() && Tracks(entry[..], Us(), []) && Within(entry[..], Us(), s)
      ensures old(Complete(entry[..], Us(), [])) ==> Complete(entry[..], Us(), [])
      ensures refused == if rc == Ok then old(refused) else old(refused) + {m}
      ensures refusals == old(refusals) + if rc == Ok then 0 else 1
      ensures unicstCount == old(unicstCount) + if rc == Ok then 1 else 0
      ensures Grown(old(entry[..]), entry[..])
      ensures rc == Ok ==> forall t0 :: old(Covers(entry[..], Us(), t0)) ==> Covers(entry[..], Us(), t0 + {m})
      ensures rc != Ok ==> forall t0 :: old(Covers(entry[..], Us(), t0)) ==> Covers(entry[..], Us(), t0)
      ensures rc == Ok || rc == EEXIST || rc == EBUSY || rc == firmware(old(requests))
      ensures old(requests) <= requests
      ensures old(Absent(m)) ==> rc == firmware(old(requests)) && requests == old(requests) + 1
      ensures rc != Ok ==> forall m' :: old(Absent(m')) ==> Absent(m')
      ensures forall i :: old(Has(entry[..], i, m)) ==> i in Us()
      ensures old(Us()) <= Us()
    {
      hide Tracks, Complete, Within, Covers, TableOk, Grown, Added, NoOld, HasRoom, NoAutoUnknown, NoAutoSpecific;
      ghost var t, us := entry[..], Us();
      AbsentMeans(m);
      var id;
      rc, id := AddInternal(AutoSpec(m), true);
      AddGrows(t, entry[..], AutoSpec(m), id);
      AddLeavesMulticast(t, entry[..], AutoSpec(m), id);
      if rc != Ok {
        RefuseTracks(t, entry[..], us, [], AutoSpec(m));
        RefuseLeavesRoom(t, entry[..], AutoSpec(m));
        return;
      }
      AddUnicast(t, entry[..], us, [], AutoSpec(m), id, s);
      forall t0 | Covers(t, us, t0)
        ensures Covers(entry[..], us + [id], t0 + {m})
      {
        AddCovers(t, entry[..], us, AutoSpec(m), id, t0);
      }
      unicst[unicstCount] := id;
      unicstCount := unicstCount + 1;
      assert Us() == us + [id];
      forall i | Has(t, i, m)
        ensures i in Us()
      {
        OneAuto(t, hash, i, id, m);
      }
    }

    /** Insert or renew one automatic multicast filter; its row becomes the k-th tracked one. */
    method InsertMulticast(m: Match, k: nat, ghost s: set<Match>) returns (rc: Rc, next: nat)
      requires Valid() && k < MAX_MULTICAST && Multicast(m) && m in s && Admits(entry[..], chaining, m)
      requires Tracks(entry[..], Us(), mulcst[..k]) && Within(entry[..], mulcst[..k], s)
      modifies entry, mulcst, this`requests, this`refused, this`refusals
      ensures old(requests) <= requests
      ensures Valid() && next == k + (if rc == Ok then 1 else 0)
      ensures Tracks(entry[..], Us(), mulcst[..next]) && Within(entry[..], mulcst[..next], s)
      ensures old(Complete(entry[..], Us(), mulcst[..k])) ==> Complete(entry[..], Us(), mulcst[..next])
      ensures refused == if rc == Ok then old(refused) else old(refused) + {m}
      ensures refusals == old(refusals) + if rc == Ok then 0 else 1
      ensures rc == Ok ==> forall t0 :: old(Covers(entry[..], mulcst[..k], t0)) ==> Covers(entry[..], mulcst[..next], t0 + {m})
      ensures rc != Ok ==> forall i :: 0 <= i < ROWS ==> !Has(entry[..], i, m)
      ensures forall i :: i in Us() ==> entry[i] == old(entry[i])
      ensures Grown(old(entry[..]), entry[..])
      ensures SpecificMulticast(m) && old(NoAutoUnknown(entry[..])) ==> NoAutoUnknown(entry[..])
      ensures m == UNKNOWN_MULTICAST && old(NoAutoSpecific(entry[..])) ==> NoAutoSpecific(entry[..])
      ensures old(NoOld(entry[..])) ==> NoOld(entry[..])
    {
      hide Tracks, Complete, Within, Covers, TableOk, Grown;
      ghost var t, us, ms := entry[..], Us(), mulcst[..k];
      var id;
      next := k;
      rc, id := AddInternal(AutoSpec(m), true);
      AddGrows(t, entry[..], AutoSpec(m), id);
      if rc != Ok {
        RefuseTracks(t, entry[..], us, ms, AutoSpec(m));
        return;
      }
      AddMulticast(t, entry[..], us, ms, AutoSpec(m), id, s);
      forall t0 | Covers(t, ms, t0)
        ensures Covers(entry[..], ms + [id], t0 + {m})
      {
        AddCovers(t, entry[..], ms, AutoSpec(m), id, t0);
      }
      mulcst[k] := id;
      next := k + 1;
      assert mulcst[..next] == ms + [id];
    }

    /** ef10_filter_insert_all_multicast */
    method InsertAllMulticast() returns (rc: Rc)
      requires Valid() && Tracks(entry[..], Us(), []) && (chaining ==> NoAutoSpecific(entry[..]))
      modifies entry, mulcst, this`requests, this`refused, this`refusals, this`mulcstCount, this`usingAllMulcst
      ensures old(requests) <= requests
      ensures Valid() && (chaining && rc == Ok ==> NoAutoSpecific(entry[..]))
      ensures refused == if rc == Ok then old(refused) else old(refused) + {UNKNOWN_MULTICAST}
      ensures refusals == old(refusals) + if rc == Ok then 0 else 1
      ensures forall i :: i in Us() ==> entry[i] == old(entry[i])
      ensures Grown(old(entry[..]), entry[..])
      ensures rc == Ok ==>
        && usingAllMulcst && Tracks(entry[..], Us(), Ms())
        && (old(Complete(entry[..], Us(), [])) ==> Complete(entry[..], Us(), Ms()))
        && Within(entry[..], Ms(), {UNKNOWN_MULTICAST}) && Covers(entry[..], Ms(), {UNKNOWN_MULTICAST})
      ensures rc != Ok ==>
        && usingAllMulcst == old(usingAllMulcst) && Tracks(entry[..], Us(), []) && NoAutoUnknown(entry[..])
        && (old(Complete(entry[..], Us(), [])) ==> Complete(entry[..], Us(), []))
    {
      assert mulcst[..0] == [];
      var next;
      rc, next := InsertMulticast(UNKNOWN_MULTICAST, 0, {UNKNOWN_MULTICAST});
      if rc != Ok {
        assert mulcst[..0] == [];
        assert forall i :: 0 <= i < ROWS && IsAuto(entry[i]) ==> !Has(entry[..], i, UNKNOWN_MULTICAST);
        return;
      }
      mulcstCount, usingAllMulcst := 1, true;
      assert {} + {UNKNOWN_MULTICAST} == {UNKNOWN_MULTICAST};
    }

    /** All newly refused filters are multicast ones. */
    static ghost predicate OnlyMulticast(before: set<Match>, after: set<Match>) {
      forall m :: m in after && m !in before ==> Multicast(m)
    }

    static lemma OnlyMulticastAdd(before: set<Match>, after: set<Match>, m: Match)
      requires OnlyMulticast(before, after) && Multicast(m)
      ensures OnlyMulticast(before, after + {m})
    {
    }

    static lemma TracksInside(t: seq<Entry>, us: seq<nat>, ms: seq<nat>)
      requires Tracks(t, us, ms)
      ensures forall i :: i in us + ms ==> i < |t|
      ensures forall i :: i in us ==> i < |t|
    {
    }

    static lemma NothingListed(t: seq<Entry>, s: set<Match>, refused: set<Match>)
      ensures ListMatches([], false) == {} && Covers(t, [], {}) && Within(t, [], s) && OnlyMulticast(refused, refused)
    {
    }

    /** The address loop of ef10_filter_insert_multicast_list; it breaks off only if it is to roll back. */
    method InsertAddresses(addrs: seq<Mac>, rollback: bool, ghost s: set<Match>) returns (rc: Rc, n: nat)
      requires Valid() && |addrs| <= LIST_MAX && (forall a :: a in addrs ==> Group(a) && LocalMac(a) in s)
      requires Tracks(entry[..], Us(), []) && (chaining ==> NoAutoUnknown(entry[..]))
      modifies entry, mulcst, this`requests, this`refused, this`refusals
      ensures old(requests) <= requests
      ensures Valid() && (chaining ==> NoAutoUnknown(entry[..])) && n <= |addrs|
      ensures Tracks(entry[..], Us(), mulcst[..n]) && Within(entry[..], mulcst[..n], s)
      ensures old(Complete(entry[..], Us(), [])) ==> Complete(entry[..], Us(), mulcst[..n])
      ensures forall i :: i in Us() ==> entry[i] == old(entry[i])
      ensures old(refusals) <= refusals && (rc == Ok <==> (rollback ==> refusals == old(refusals)))
      ensures old(refused) <= refused && OnlyMulticast(old(refused), refused)
      ensures refusals == old(refusals) ==> Covers(entry[..], mulcst[..n], ListMatches(addrs, false))
      ensures old(NoOld(entry[..])) ==> NoOld(entry[..])
      ensures Grown(old(entry[..]), entry[..])
    {
      hide Tracks, Complete, Within, Covers, ListMatches, TableOk, Safe, NoAutoUnknown, OnlyMulticast, NoOld, NoAutoSpecific, Grown;
      GrownSame(entry[..]);
      rc, n := Ok, 0;
      var i := 0;
      NothingListed(entry[..], s, refused);
      TracksInside(entry[..], Us(), []);
      assert mulcst[..0] == [] && addrs[..0] == [];
      while i < |addrs|
        invariant old(requests) <= requests && 0 <= n <= i <= |addrs| && Valid() && (chaining ==> NoAutoUnknown(entry[..]))
        invariant Tracks(entry[..], Us(), mulcst[..n]) && Within(entry[..], mulcst[..n], s)
        invariant old(Complete(entry[..], Us(), [])) ==> Complete(entry[..], Us(), mulcst[..n])
        invariant forall j :: j in Us() ==> j < ROWS && entry[j] == old(entry[j])
        invariant old(refused) <= refused && OnlyMulticast(old(refused), refused)
        invariant old(refusals) <= refusals && (rollback ==> refusals == old(refusals))
        invariant old(NoOld(entry[..])) ==> NoOld(entry[..])
        invariant refusals == old(refusals) ==> Covers(entry[..], mulcst[..n], ListMatches(addrs[..i], false))
        invariant Grown(old(entry[..]), entry[..])
      {
        ghost var u := entry[..];
        var m := LocalMac(addrs[i]);
        assert addrs[i] in addrs && addrs[..i + 1] == addrs[..i] + [addrs[i]];
        ListMatchesAppend(addrs[..i], addrs[i]);
        OnlyMulticastAdd(old(refused), refused, m);
        rc, n := InsertMulticast(m, n, s);
        GrownTrans(old(entry[..]), u, entry[..]);
        if rc != Ok && rollback {
          return;
        }
        i := i + 1;
      }
      assert addrs[..i] == addrs;
      rc := Ok;
    }

    /** Take back the last of k + 1 inserted filters. */
    method RollBackRow(k: nat)
      requires Valid() && k < MAX_MULTICAST && RollingBack(entry[..], Us(), mulcst[..k + 1])
      requires chaining ==> NoAutoUnknown(entry[..])
      modifies entry, this`requests
      ensures old(requests) <= requests
      ensures Valid() && RollingBack(entry[..], Us(), mulcst[..k]) && (chaining ==> NoAutoUnknown(entry[..]))
      ensures old(Complete(entry[..], Us(), mulcst[..k + 1])) ==> Complete(entry[..], Us(), mulcst[..k])
      ensures old(NoOld(entry[..])) ==> NoOld(entry[..])
      ensures forall i :: i in Us() ==> entry[i] == old(entry[i])
    {
      hide Complete, TableOk, Safe, NoAutoUnknown;
      assert mulcst[..k + 1] == mulcst[..k] + [mulcst[k]];
      RollBackOne(entry[..], Us(), mulcst[..k], mulcst[k]);
      ClearKeepsNone(entry[..], mulcst[k]);
      var _ := DeleteInternal(mulcst[k]);
    }

    /** "Remove any filters we have inserted": the rollback of ef10_filter_insert_multicast_list. */
    method RollBack(n: nat)
      requires Valid() && n <= MAX_MULTICAST
      requires Tracks(entry[..], Us(), mulcst[..n]) && (chaining ==> NoAutoUnknown(entry[..]))
      modifies entry, this`requests, this`mulcstCount
      ensures old(requests) <= requests
      ensures Valid() && (chaining ==> NoAutoUnknown(entry[..])) && mulcstCount == 0
      ensures Tracks(entry[..], Us(), [])
      ensures old(Complete(entry[..], Us(), mulcst[..n])) ==> Complete(entry[..], Us(), [])
      ensures old(NoOld(entry[..])) ==> NoOld(entry[..])
      ensures forall i :: i in Us() ==> entry[i] == old(entry[i])
    {
      var i := n;
      TracksRolls(entry[..], Us(), mulcst[..n]);
      hide Tracks, Complete, RollingBack, TableOk, Safe, NoAutoUnknown;
      while i > 0
        invariant old(requests) <= requests && 0 <= i <= n && Valid() && (chaining ==> NoAutoUnknown(entry[..]))
        invariant RollingBack(entry[..], Us(), mulcst[..i]) && (old(NoOld(entry[..])) ==> NoOld(entry[..]))
        invariant old(Complete(entry[..], Us(), mulcst[..n])) ==> Complete(entry[..], Us(), mulcst[..i])
        invariant forall j :: j in Us() ==> entry[j] == old(entry[j])
      {
        i := i - 1;
        RollBackRow(i);
      }
      assert mulcst[..0] == [];
      mulcstCount := 0;
      TracksRolls(entry[..], Us(), []);
    }

    /** ef10_filter_insert_multicast_list, for at most LIST_MAX addresses. */
    method InsertMulticastList(mulcstOn: bool, brdcst: bool, addrs: seq<Mac>, rollback: bool) returns (rc: Rc)
      requires Valid() && |addrs| <= LIST_MAX && forall a :: a in addrs ==> Group(a)
      requires Tracks(entry[..], Us(), []) && (chaining ==> NoAutoUnknown(entry[..]))
      modifies entry, mulcst, this`requests, this`refused, this`refusals, this`mulcstCount, this`usingAllMulcst
      ensures old(requests) <= requests
      ensures Valid() && (chaining ==> NoAutoUnknown(entry[..]))
      ensures forall i :: i in Us() ==> entry[i] == old(entry[i])
      ensures old(refusals) <= refusals && old(refused) <= refused && OnlyMulticast(old(refused), refused)
      ensures rc == Ok <==> (rollback ==> refusals == old(refusals))
      ensures old(NoOld(entry[..])) ==> NoOld(entry[..])
      ensures rc == Ok ==> Grown(old(entry[..]), entry[..])
      ensures var s := ListMatches(if mulcstOn then addrs else [], brdcst);
        if rc == Ok then
          && !usingAllMulcst && Tracks(entry[..], Us(), Ms())
          && (old(Complete(entry[..], Us(), [])) ==> Complete(entry[..], Us(), Ms()))
          && Within(entry[..], Ms(), s) && (refusals == old(refusals) ==> Covers(entry[..], Ms(), s))
        else
          && usingAllMulcst == old(usingAllMulcst) && mulcstCount == 0 && Tracks(entry[..], Us(), [])
          && (old(Complete(entry[..], Us(), [])) ==> Complete(entry[..], Us(), []))
    {
      hide Tracks, Complete, Within, Covers, TableOk, Safe, NoAutoUnknown, NoOld, Grown;
      var list := if mulcstOn then addrs else [];
      ghost var s := ListMatches(list, brdcst);
      ListMatchesSplit(list, brdcst);
      var n;
      rc, n := InsertAddresses(list, rollback, s);
      ghost var u := entry[..];
      if rc == Ok && brdcst {
        rc, n := InsertMulticast(LocalMac(BROADCAST), n, s);
        GrownTrans(old(entry[..]), u, entry[..]);
        if !rollback {
          rc := Ok;
        }
      }
      if rc != Ok {
        RollBack(n);
        return;
      }
      mulcstCount, usingAllMulcst := n, false;
      return Ok;
    }

    /** The unicast filters of a configuration, if the one for the MAC address was refused or not. */
    static ghost function UnicastWanted(mac: Mac, all: bool): set<Match> {
      {LocalMac(mac)} + if all then {UNKNOWN_UNICAST} else {}
    }

    /** Which filters a configuration wants: the one for its MAC address, and for every other unicast address if asked
        for; and either the one for every multicast address, or one for each address of the list, if it is on, and the
        one for broadcasts, if asked for. */
    static lemma WantedAre(mac: Mac, mulcstOn: bool, all: bool, brdcst: bool, addrs: seq<Mac>, m: Match)
      ensures m in UnicastWanted(mac, all) <==> m == MacMatch({LocMac}, mac) || (all && m == MacMatch({LocMacIg}, [0, 0, 0, 0, 0, 0]))
      ensures m in MulticastWanted(mulcstOn, all, brdcst, addrs) <==>
        if all then m == MacMatch({LocMacIg}, [1, 0, 0, 0, 0, 0])
        else || (mulcstOn && exists k :: 0 <= k < |addrs| && m == MacMatch({LocMac}, addrs[k]))
             || (brdcst && m == MacMatch({LocMac}, [0xff, 0xff, 0xff, 0xff, 0xff, 0xff]))
    {
      ListMatchesAre(if mulcstOn then addrs else [], brdcst, m);
      hide ListMatches, MacMatch;
    }

    static lemma UnicastMatches(mac: Mac)
      requires !Group(mac)
      ensures LocalMac(mac) != UNKNOWN_UNICAST && !Multicast(LocalMac(mac)) && !Multicast(UNKNOWN_UNICAST)
      ensures UnicastWanted(mac, false) == {} + {LocalMac(mac)}
      ensures UnicastWanted(mac, true) == UnicastWanted(mac, false) + {UNKNOWN_UNICAST}
    {
    }

    static lemma WithinMore(t: seq<Entry>, idx: seq<nat>, s: set<Match>, s': set<Match>)
      requires Within(t, idx, s) && s <= s'
      ensures Within(t, idx, s')
    {
    }

    /** "Insert or renew unicast filters": always the filter for the MAC address, and the unknown
        unicast filter if asked for or if that was refused. */
    method UnicastPhase(mac: Mac, allUnicst: bool) returns (rc: Rc, allRc: Rc)
      requires Valid() && FlagTrue() && Tracks(entry[..], [], []) && !Group(mac) && refusals == 0 && refused == {}
      modifies entry, unicst, this`unicstCount, this`requests, this`refused, this`refusals
      ensures Valid() && FlagTrue() && Tracks(entry[..], Us(), []) && Grown(old(entry[..]), entry[..])
      ensures old(Complete(entry[..], [], [])) ==> Complete(entry[..], Us(), [])
      ensures rc != Ok <==> LocalMac(mac) in refused
      ensures allRc != Ok <==> UNKNOWN_UNICAST in refused
      ensures allRc != Ok ==> allUnicst || rc != Ok
      ensures rc != Ok && allRc != Ok ==> unicstCount == 0
      ensures refused <= {LocalMac(mac), UNKNOWN_UNICAST} && (refusals == 0 <==> refused == {})
      ensures rc == Ok || rc == EEXIST || rc == EBUSY || rc == firmware(old(requests))
      ensures Within(entry[..], Us(), UnicastWanted(mac, allUnicst || rc != Ok))
      ensures refusals == 0 ==> Covers(entry[..], Us(), UnicastWanted(mac, allUnicst))
      ensures old(requests) <= requests && (rc == Ok || allRc == Ok ==> unicstCount > 0)
      ensures forall i, m :: m in UnicastWanted(mac, allUnicst || rc != Ok) && old(Has(entry[..], i, m)) ==> i in Us()
      ensures old(Absent(LocalMac(mac))) ==> rc == firmware(old(requests)) && old(requests) < requests
      ensures old(Unsupported(LocalMac(mac)) && Unsupported(UNKNOWN_UNICAST)) ==> rc == ENOTSUP && allRc != Ok
    {
      hide Absent, HasRoom, Has, TableOk, Safe, Tracks, Complete, Grown, NoAutoUnknown, NoAutoSpecific, Within, Covers,
           LocalMac, UnicastWanted;
      ghost var t := entry[..];
      unicstCount, allRc := 0, Ok;
      ghost var one, all := UnicastWanted(mac, false), UnicastWanted(mac, true);
      UnicastMatches(mac);
      NothingListed(entry[..], one, refused);
      assert Us() == [];
      rc := InsertUnicast(LocalMac(mac), one);
      ghost var u, us := entry[..], Us();
      GrownHas(t, u);
      WithinMore(u, us, one, all);
      if allUnicst || rc != Ok {
        allRc := InsertUnicast(UNKNOWN_UNICAST, all);
        GrownTrans(t, u, entry[..]);
      }
      assert us <= Us();
    }

    static ghost function MulticastWanted(mulcstOn: bool, allMulcst: bool, brdcst: bool, addrs: seq<Mac>): set<Match> {
      if allMulcst then {UNKNOWN_MULTICAST} else ListMatches(if mulcstOn then addrs else [], brdcst)
    }

    /** "Insert or renew multicast filters", with the fallbacks and, under chaining, the early
        removal of old filters. */
    method MulticastPhase(mulcstOn: bool, allMulcst: bool, brdcst: bool, addrs: seq<Mac>) returns (allRc: Rc)
      requires Valid() && FlagTrue() && Tracks(entry[..], Us(), [])
      requires |addrs| <= LIST_MAX && (forall a :: a in addrs ==> Group(a)) && UNKNOWN_MULTICAST !in refused
      modifies entry, mulcst, this`requests, this`refused, this`refusals, this`mulcstCount, this`usingAllMulcst
      ensures old(requests) <= requests
      ensures Valid() && FlagTrue() && Tracks(entry[..], Us(), Ms())
      ensures old(Complete(entry[..], Us(), [])) ==> Complete(entry[..], Us(), Ms())
      ensures forall i :: i in Us() ==> entry[i] == old(entry[i])
      ensures old(refusals) <= refusals && old(refused) <= refused && OnlyMulticast(old(refused), refused)
      ensures allRc != Ok <==> allMulcst && !usingAllMulcst
      ensures allMulcst ==> (allRc != Ok <==> UNKNOWN_MULTICAST in refused)
      ensures usingAllMulcst != allMulcst ==> old(refusals) < refusals
      ensures Within(entry[..], Ms(), MulticastWanted(mulcstOn || allMulcst, usingAllMulcst, brdcst, addrs))
      ensures refusals == old(refusals) ==> Covers(entry[..], Ms(), MulticastWanted(mulcstOn, allMulcst, brdcst, addrs))
      ensures refusals == old(refusals) && !chaining ==> Grown(old(entry[..]), entry[..])
    {
      allRc := Ok;
      hide Grown, Tracks, Complete, Within, Covers, ListMatches, TableOk, Safe, NoAutoUnknown, NoAutoSpecific, NoOld;
      if usingAllMulcst != allMulcst && chaining {
        SweepOld();
      }
      if allMulcst {
        allRc := InsertAllMulticast();
        if allRc != Ok {
          var _ := InsertMulticastList(true, brdcst, addrs, false);
        }
      } else {
        var rc := InsertMulticastList(mulcstOn, brdcst, addrs, true);
        if rc != Ok {
          if !usingAllMulcst && chaining {
            SweepOld();
          } else if chaining {
            NothingTracked(entry[..], Us());
          }
          rc := InsertAllMulticast();
          if rc != Ok {
            rc := InsertMulticastList(mulcstOn, brdcst, addrs, false);
          }
        }
      }
    }

    /** Remove the old filters while no multicast filter is tracked. */
    method SweepOld()
      requires Valid() && Tracks(entry[..], Us(), [])
      modifies entry, this`requests
      ensures old(requests) <= requests
      ensures Valid() && Tracks(entry[..], Us(), []) && NoOld(entry[..])
      ensures NoAutoUnknown(entry[..]) && NoAutoSpecific(entry[..])
      ensures old(Complete(entry[..], Us(), [])) ==> Complete(entry[..], Us(), [])
      ensures forall i :: i in Us() ==> entry[i] == old(entry[i])
    {
      ghost var t := entry[..];
      RemoveOld();
      SweepTracks(t, entry[..], Us(), []);
      NothingTracked(entry[..], Us());
    }

    /** Delete the tracked filters of one kind and forget them. */
    method DeleteRows(rows: array<nat>, count: nat)
      requires Valid() && count <= rows.Length && NoOld(entry[..])
      modifies entry, this`requests
      ensures old(requests) <= requests
      ensures Valid() && NoOld(entry[..])
      ensures forall i :: 0 <= i < ROWS ==>
        entry[i] == if exists k :: 0 <= k < count && rows[k] % ROWS == i then EMPTY else old(entry[i])
    {
      var n := 0;
      while n < count
        invariant 0 <= n <= count && Valid() && old(requests) <= requests
        invariant forall i :: 0 <= i < ROWS ==>
          entry[i] == if exists k :: 0 <= k < n && rows[k] % ROWS == i then EMPTY else old(entry[i])
      {
        var _ := DeleteInternal(rows[n]);
        n := n + 1;
      }
    }

    /** ef10_filter_reconfigure without a default receive queue: every tracked filter goes. */
    method DropAll()
      requires Rest()
      modifies entry, this`requests, this`unicstCount, this`mulcstCount
      ensures old(requests) <= requests
      ensures Rest() && unicstCount == 0 && mulcstCount == 0
      ensures old(Exact()) ==> Exact() && forall i :: 0 <= i < ROWS ==> !IsAuto(entry[i])
      ensures forall i :: 0 <= i < ROWS && !old(IsAuto(entry[i])) ==> entry[i] == old(entry[i])
      ensures forall i :: 0 <= i < ROWS ==> entry[i] == old(entry[i]) || entry[i] == EMPTY
    {
      ghost var t, us, ms := entry[..], Us(), Ms();
      DeleteRows(unicst, unicstCount);
      unicstCount := 0;
      DeleteRows(mulcst, mulcstCount);
      mulcstCount := 0;
      RowsAreMembers(unicst[..], us);
      RowsAreMembers(mulcst[..], ms);
      DropKeeps(t, entry[..], us, ms);
    }

    static lemma RowsAreMembers(rows: seq<nat>, idx: seq<nat>)
      requires idx <= rows && forall i :: i in idx ==> i < ROWS
      ensures forall i :: 0 <= i < ROWS ==> (i in idx <==> exists k :: 0 <= k < |idx| && rows[k] % ROWS == i)
    {
      assert forall k :: 0 <= k < |idx| ==> rows[k] == idx[k] && idx[k] in idx;
    }

    static lemma DropKeeps(t: seq<Entry>, t': seq<Entry>, us: seq<nat>, ms: seq<nat>)
      requires |t| == |t'| == ROWS && Tracks(t, us, ms) && NoOld(t)
      requires forall i :: 0 <= i < ROWS ==> t'[i] == if i in us || i in ms then EMPTY else t[i]
      ensures Tracks(t', [], []) && NoOld(t')
      ensures NoAutoUnknown(t') && NoAutoSpecific(t')
      ensures Complete(t, us, ms) ==> Complete(t', [], []) && forall i :: 0 <= i < ROWS ==> !IsAuto(t'[i])
    {
    }

    /** ef10_filter_reconfigure with a default receive queue, up to its unicast filters. */
    method Prepare(mac: Mac, allUnicst: bool) returns (rc: Rc, allRc: Rc, ghost marked: seq<Entry>)
      requires Rest() && !Group(mac)
      modifies entry, unicst, this`unicstCount, this`requests, this`refused, this`refusals
      ensures |marked| == ROWS
      ensures forall i :: 0 <= i < ROWS ==> marked[i] == old(entry[i]).(autoOld := i in old(Us()) || i in old(Ms()))
      ensures Valid() && FlagTrue() && Tracks(entry[..], Us(), []) && Grown(marked, entry[..])
      ensures old(Exact()) ==> Complete(entry[..], Us(), [])
      ensures rc != Ok <==> LocalMac(mac) in refused
      ensures allRc != Ok <==> UNKNOWN_UNICAST in refused
      ensures allRc != Ok ==> allUnicst || rc != Ok
      ensures rc != Ok && allRc != Ok ==> unicstCount == 0
      ensures refused <= {LocalMac(mac), UNKNOWN_UNICAST} && (refusals == 0 <==> refused == {})
      ensures rc == Ok || rc == EEXIST || rc == EBUSY || rc == firmware(old(requests))
      ensures Within(entry[..], Us(), UnicastWanted(mac, allUnicst || rc != Ok))
      ensures refusals == 0 ==> Covers(entry[..], Us(), UnicastWanted(mac, allUnicst))
      ensures old(requests) <= requests && (rc == Ok || allRc == Ok ==> unicstCount > 0)
      ensures forall i, m :: m in UnicastWanted(mac, allUnicst || rc != Ok) && old(Has(entry[..], i, m)) ==> i in Us()
      ensures old(Absent(LocalMac(mac))) ==> rc == firmware(old(requests)) && old(requests) < requests
      ensures old(Unsupported(LocalMac(mac)) && Unsupported(UNKNOWN_UNICAST)) ==> rc == ENOTSUP && allRc != Ok
    {
      hide Absent, Tracks, Complete, Within, Covers, TableOk, Safe, Grown, UnicastWanted, NoOld, NoAutoUnknown, NoAutoSpecific;
      refused, refusals := {}, 0;
      MarkOld();
      marked := entry[..];
      rc, allRc := UnicastPhase(mac, allUnicst);
    }

    /** "Clear auto old flags": the failure exit of ef10_filter_reconfigure. */
    method Abandon(ghost marked: seq<Entry>, ghost rest: seq<Entry>, ghost us0: seq<nat>)
      requires Valid() && FlagTrue() && Tracks(entry[..], Us(), []) && Grown(marked, entry[..])
      requires |rest| == |marked| == ROWS && Tracks(rest, us0, Ms()) && NoOld(rest)
      requires forall i :: 0 <= i < ROWS ==> marked[i] == rest[i].(autoOld := i in us0 || i in Ms())
      modifies entry
      ensures Rest()
      ensures Complete(rest, us0, Ms()) && old(Complete(entry[..], Us(), [])) ==>
        (Exact() <==> forall i :: i in us0 ==> i in Us())
    {
      ghost var t := entry[..];
      ClearOld();
      ClearedTracks(rest, marked, t, entry[..], us0, Ms(), Us());
    }

    /** The multicast filters and the final sweep of ef10_filter_reconfigure. */
    method Finish(mulcstOn: bool, allMulcst: bool, brdcst: bool, addrs: seq<Mac>, ghost within: set<Match>, ghost cover: set<Match>)
      returns (allRc: Rc)
      requires Valid() && FlagTrue() && Tracks(entry[..], Us(), [])
      requires |addrs| <= LIST_MAX && (forall a :: a in addrs ==> Group(a)) && UNKNOWN_MULTICAST !in refused
      modifies entry, mulcst, this`requests, this`refused, this`refusals, this`mulcstCount, this`usingAllMulcst
      ensures old(requests) <= requests
      ensures Rest() && (old(Complete(entry[..], Us(), [])) ==> Exact())
      ensures old(refusals) <= refusals && old(refused) <= refused && OnlyMulticast(old(refused), refused)
      ensures allRc != Ok <==> allMulcst && UNKNOWN_MULTICAST in refused
      ensures usingAllMulcst != allMulcst ==> old(refusals) < refusals
      ensures old(Within(entry[..], Us(), within)) ==> Within(entry[..], Us(), within)
      ensures old(Covers(entry[..], Us(), cover)) ==> Covers(entry[..], Us(), cover)
      ensures Within(entry[..], Ms(), MulticastWanted(mulcstOn || allMulcst, usingAllMulcst, brdcst, addrs))
      ensures refusals == old(refusals) ==> Covers(entry[..], Ms(), MulticastWanted(mulcstOn, allMulcst, brdcst, addrs))
      ensures Us() == old(Us()) && SameSpecs(old(entry[..]), entry[..], Us())
      ensures refusals == old(refusals) && !chaining ==> SameSpecs(old(entry[..]), entry[..], Ms())
    {
      hide Tracks, Complete, Within, Covers, TableOk, Safe, NoAutoUnknown, NoAutoSpecific, MulticastWanted, SameSpecs, Grown;
      ghost var t := entry[..];
      allRc := MulticastPhase(mulcstOn, allMulcst, brdcst, addrs);
      ghost var u := entry[..];
      RemoveOld();
      SweepTracks(u, entry[..], Us(), Ms());
      SweepKeepsNone(u, entry[..]);
      SameRows(t, entry[..], Us(), within);
      SameRows(t, entry[..], Us(), cover);
      SameRows(u, entry[..], Ms(), MulticastWanted(mulcstOn || allMulcst, usingAllMulcst, brdcst, addrs));
      SameRows(u, entry[..], Ms(), MulticastWanted(mulcstOn, allMulcst, brdcst, addrs));
      EqualSpecs(t, entry[..], Us());
      GrownSpecs(t, u, entry[..], Ms());
    }

    static lemma RestIs(q: Table)
      ensures q.Rest() <==> q.Valid() && NoOld(q.entry[..]) && Tracks(q.entry[..], q.Us(), q.Ms()) && q.FlagTrue()
      ensures q.Exact() <==> q.Rest() && Complete(q.entry[..], q.Us(), q.Ms())
      ensures q.Valid() ==> q.entry.Length == ROWS && q.unicstCount <= q.unicst.Length && q.mulcstCount <= q.mulcst.Length
      ensures q.Valid() ==>
        && q.Us() == q.unicst[..q.unicstCount] && q.Ms() == q.mulcst[..q.mulcstCount] && q.unicst != q.mulcst
        && (q.Us() == [] <==> q.unicstCount == 0)
    {
      hide TableOk, Safe, Tracks, NoOld, Complete;
    }

    static lemma UnknownMulticastApart(mac: Mac)
      requires !Group(mac)
      ensures UNKNOWN_MULTICAST != LocalMac(mac) && UNKNOWN_MULTICAST != UNKNOWN_UNICAST
    {
    }

    /** The multicast phase decides nothing about the two unicast filters. */
    static lemma OnlyMulticastAdds(before: set<Match>, after: set<Match>, mac: Mac)
      requires OnlyMulticast(before, after) && before <= after && !Group(mac)
      ensures LocalMac(mac) in after <==> LocalMac(mac) in before
      ensures UNKNOWN_UNICAST in after <==> UNKNOWN_UNICAST in before
    {
    }

    /** ef10_filter_reconfigure with a default receive queue.  workarounds is the answer of
        ef10_filter_get_workarounds, which does not change the chaining flag.

        It completes unless the filter for the MAC address and the unknown unicast filter are both
        refused, or the workaround query fails.  Then the automatic filters are exactly the tracked
        ones, are all wanted, and are all the wanted ones if nothing was refused; ENOTSUP says
        precisely that a requested all-unicast or all-multicast filter was refused.  Otherwise the
        multicast filters are untouched, and tracking stays exact precisely if every unicast filter
        tracked before is wanted still; when both unicast filters were refused, if none was tracked. */
    method Apply(mac: Mac, allUnicst: bool, mulcstOn: bool, allMulcst: bool, brdcst: bool, addrs: seq<Mac>,
                 workarounds: Rc) returns (rc: Rc)
      requires Rest() && !Group(mac) && |addrs| <= LIST_MAX && forall a :: a in addrs ==> Group(a)
      requires workarounds == ENOTSUP ==> !chaining
      requires origin == entry[..]
      modifies this`unicstCount, this`mulcstCount, this`usingAllMulcst, this`requests, this`refused, this`refusals
      modifies entry, unicst, mulcst
      ensures Rest()
      ensures Completes(mac, workarounds) ==>
        Configured(mac, allUnicst, mulcstOn, allMulcst, brdcst, addrs, rc) && (old(Exact()) ==> Exact())
      ensures !Completes(mac, workarounds) ==>
        && rc != Ok && Ms() == old(Ms()) && usingAllMulcst == old(usingAllMulcst)
        && (old(Exact()) ==>
              (Exact() <==> Within(old(entry[..]), old(Us()), UnicastWanted(mac, allUnicst || LocalMac(mac) in refused))))
        && (if BothRefused(mac) then Us() == [] && (old(Exact()) ==> (Exact() <==> old(Us()) == []))
              && (rc == EEXIST || rc == EBUSY || rc == firmware(old(requests)))
            else rc == workarounds && Us() != [])
      ensures old(requests) <= requests && (BothRefused(mac) <==> Us() == [])
      ensures old(Absent(LocalMac(mac))) ==> (old(requests) < requests
        && (firmware(old(requests)) == Ok <==> LocalMac(mac) !in refused))
      ensures old(Unsupported(LocalMac(mac)) && Unsupported(UNKNOWN_UNICAST)) ==> rc == ENOTSUP && BothRefused(mac)
    {
      hide Tracks, Complete, Within, Covers, TableOk, Safe, NoAutoUnknown, NoAutoSpecific, MulticastWanted, Grown, UnicastWanted,
           Has, Absent, NoOld, AutoOnly, LocalMac, OnlyMulticast, Configured, SameSpecs, Sends;
      ghost var rest, us0 := entry[..], Us();
      var allUnicstRc;
      ghost var marked;
      rc, allUnicstRc, marked := Prepare(mac, allUnicst);
      KeptIff(rest, marked, entry[..], us0, Ms(), Us(), UnicastWanted(mac, allUnicst || LocalMac(mac) in refused));
      assert us0 != [] ==> us0[0] in us0;
      if rc != Ok && allUnicstRc != Ok {
        Abandon(marked, rest, us0);
      } else if workarounds != Ok && workarounds != ENOTSUP {
        Abandon(marked, rest, us0);
        rc := workarounds;
      } else {
        rc := Conclude(mac, allUnicst, mulcstOn, allMulcst, brdcst, addrs, allUnicstRc, marked);
      }
    }

    /** The rest of a reconfiguration that completes. */
    method Conclude(mac: Mac, allUnicst: bool, mulcstOn: bool, allMulcst: bool, brdcst: bool, addrs: seq<Mac>, allUnicstRc: Rc,
                    ghost marked: seq<Entry>)
      returns (rc: Rc)
      requires Valid() && FlagTrue() && Tracks(entry[..], Us(), []) && !Group(mac)
      requires |origin| == |marked| == ROWS && Grown(marked, entry[..]) && forall i :: 0 <= i < ROWS ==> marked[i].spec == origin[i].spec
      requires |addrs| <= LIST_MAX && forall a :: a in addrs ==> Group(a)
      requires refused <= {LocalMac(mac), UNKNOWN_UNICAST} && (allUnicstRc != Ok <==> UNKNOWN_UNICAST in refused)
      requires Within(entry[..], Us(), UnicastWanted(mac, allUnicst || LocalMac(mac) in refused))
      requires refusals == 0 ==> Covers(entry[..], Us(), UnicastWanted(mac, allUnicst))
      modifies entry, mulcst, this`requests, this`refused, this`refusals, this`mulcstCount, this`usingAllMulcst
      ensures Rest() && (old(Complete(entry[..], Us(), [])) ==> Exact())
      ensures old(requests) <= requests && Us() == old(Us())
      ensures Configured(mac, allUnicst, mulcstOn, allMulcst, brdcst, addrs, rc)
      ensures LocalMac(mac) in refused <==> LocalMac(mac) in old(refused)
      ensures UNKNOWN_UNICAST in refused <==> UNKNOWN_UNICAST in old(refused)
    {
      hide Tracks, Complete, Within, Covers, TableOk, Safe, NoAutoUnknown, NoAutoSpecific, MulticastWanted, UnicastWanted, NoOld,
           AutoOnly, FlagTrue, Rest, Exact, Us, Ms, LocalMac, OnlyMulticast, SameSpecs;
      RestIs(this);
      UnknownMulticastApart(mac);
      var allMulcstRc := Finish(mulcstOn, allMulcst, brdcst, addrs,
        UnicastWanted(mac, allUnicst || LocalMac(mac) in refused), UnicastWanted(mac, allUnicst));
      OnlyMulticastAdds(old(refused), refused, mac);
      RestIs(this);
      SpecsTwice(origin, marked, old(entry[..]), entry[..], Us());
      if refusals == 0 && !chaining {
        SpecsTwice(origin, marked, old(entry[..]), entry[..], Ms());
      }
      rc := Ok;
      if (allUnicst && allUnicstRc != Ok) || (allMulcst && allMulcstRc != Ok) {
        rc := ENOTSUP;
      }
    }

    /** What a reconfiguration that completes leaves: the tracked filters are all wanted, and are all the wanted ones
        if nothing was refused; ENOTSUP says precisely that a requested all-unicast or all-multicast filter was. */
    ghost predicate Configured(mac: Mac, allUnicst: bool, mulcstOn: bool, allMulcst: bool, brdcst: bool, addrs: seq<Mac>, rc: Rc)
      requires unicstCount <= unicst.Length && mulcstCount <= mulcst.Length
      reads this, entry, unicst, mulcst
    {
      && rc == (if (allUnicst && UNKNOWN_UNICAST in refused) || (allMulcst && UNKNOWN_MULTICAST in refused) then ENOTSUP else Ok)
      && Within(entry[..], Us(), UnicastWanted(mac, allUnicst || LocalMac(mac) in refused))
      && Within(entry[..], Ms(), MulticastWanted(mulcstOn || allMulcst, usingAllMulcst, brdcst, addrs))
      && (usingAllMulcst != allMulcst ==> refusals > 0)
      && (refusals == 0 ==> Covers(entry[..], Us(), UnicastWanted(mac, allUnicst)))
      && (refusals == 0 ==> Covers(entry[..], Ms(), MulticastWanted(mulcstOn, allMulcst, brdcst, addrs)))
      && SameSpecs(origin, entry[..], Us()) && (refusals == 0 && !chaining ==> SameSpecs(origin, entry[..], Ms()))
    }

    /** ef10_filter_reconfigure: without a default receive queue every tracked filter goes. */
    method Reconfigure(mac: Mac, allUnicst: bool, mulcstOn: bool, allMulcst: bool, brdcst: bool, addrs: seq<Mac>,
                       workarounds: Rc) returns (rc: Rc)
      requires Rest() && !Group(mac) && |addrs| <= LIST_MAX && forall a :: a in addrs ==> Group(a)
      requires workarounds == ENOTSUP ==> !chaining
      modifies this`unicstCount, this`mulcstCount, this`usingAllMulcst, this`requests, this`refused, this`refusals, this`origin
      modifies this`defaultRxq, this`usingRss, this`rssContext
      modifies entry, unicst, mulcst
      ensures Rest() && defaultRxq == old(defaultRxq) && usingRss == old(usingRss) && rssContext == old(rssContext)
      ensures defaultRxq == None ==>
        rc == Ok && unicstCount == 0 && mulcstCount == 0
        && (old(Exact()) ==> Exact() && forall i :: 0 <= i < ROWS ==> !IsAuto(entry[i]))
      ensures defaultRxq != None && old(Exact()) && (rc == Ok || rc == ENOTSUP) ==>
        (Exact() <==> !BothRefused(mac) || old(Us()) == [])
      ensures defaultRxq != None && Completes(mac, workarounds) ==>
        Configured(mac, allUnicst, mulcstOn, allMulcst, brdcst, addrs, rc) && (old(Exact()) ==> Exact())
      ensures defaultRxq != None && !Completes(mac, workarounds) ==>
        && rc != Ok && Ms() == old(Ms())
        && (old(Exact()) ==>
              (Exact() <==> Within(old(entry[..]), old(Us()), UnicastWanted(mac, allUnicst || LocalMac(mac) in refused))))
      ensures defaultRxq != None ==> old(requests) <= requests && (BothRefused(mac) <==> Us() == [])
      ensures defaultRxq != None && old(Absent(LocalMac(mac))) ==> (old(requests) < requests
        && (firmware(old(requests)) == Ok <==> LocalMac(mac) !in refused))
      ensures defaultRxq != None && old(Unsupported(LocalMac(mac)) && Unsupported(UNKNOWN_UNICAST)) ==>
        rc == ENOTSUP && BothRefused(mac)
      ensures forall i :: 0 <= i < ROWS && IsAuto(entry[i]) ==>
        || (old(IsAuto(entry[i])) && entry[i].spec == old(entry[i].spec))
        || (var s := entry[i].spec.value; defaultRxq == Some(s.dmaq) && s.rss == usingRss && s.rssContext == rssContext)
      ensures defaultRxq != None && Completes(mac, workarounds) ==>
        forall i :: i in Us() && old(IsAuto(entry[i])) ==> entry[i].spec == old(entry[i].spec)
      ensures defaultRxq != None && Completes(mac, workarounds) && refusals == 0 && !chaining ==>
        forall i :: i in Ms() && old(IsAuto(entry[i])) ==> entry[i].spec == old(entry[i].spec)
    {
      hide TableOk, Safe, AutoOnly, Tracks, Complete, NoOld, NoAutoUnknown, NoAutoSpecific, Within, Covers, Has, HasRoom, Absent,
           Unsupported, UnicastWanted, LocalMac, SameSpecs, Sends, FlagTrue, BothRefused;
      ghost var t := entry[..];
      SetQueue(defaultRxq, usingRss, rssContext);
      if defaultRxq == None {
        DropAll();
        return Ok;
      }
      rc := Apply(mac, allUnicst, mulcstOn, allMulcst, brdcst, addrs, workarounds);
      SendsMeans(t, entry[..], defaultRxq, usingRss, rssContext);
      TrackedIsAuto(entry[..], Us(), Ms());
      SpecsMean(t, entry[..], Us());
      SpecsMean(t, entry[..], Ms());
    }

    /** The filter for the MAC address and the unknown unicast filter were both refused. */
    ghost predicate BothRefused(mac: Mac)
      reads this`refused
    {
      LocalMac(mac) in refused && UNKNOWN_UNICAST in refused
    }

    ghost predicate Completes(mac: Mac, workarounds: Rc)
      reads this`refused
    {
      !BothRefused(mac) && (workarounds == Ok || workarounds == ENOTSUP)
    }
  }

  /** Filters for mac and the unknown multicast filter have one probe window, all others have another. */
  function TwoWindows(mac: Mac): Match -> u32 {
    m => if m == LocalMac(mac) || m == UNKNOWN_MULTICAST then 0 else 1000
  }

  /** With none but those filters in the table, the other window is free. */
  lemma OtherWindowIsFree(t: seq<Entry>, mac: Mac, us: seq<nat>, ms: seq<nat>)
    requires TableOk(t, TwoWindows(mac)) && AutoOnly(t) && NoOld(t) && Complete(t, us, ms)
    requires Within(t, us, {LocalMac(mac)}) && Within(t, ms, {UNKNOWN_MULTICAST})
    ensures HasRoom(t, 1000)
    ensures forall i, m :: m != LocalMac(mac) && m != UNKNOWN_MULTICAST ==> !Has(t, i, m)
  {
    assert RowOk(t[1001], 1001, TwoWindows(mac));
    assert t[1001].spec.None?;
    assert Depth(1) && Slot(1000, 1) == 1001;
  }

  lemma NoneIsThere(t: seq<Entry>, m: Match)
    requires |t| == ROWS && forall i :: 0 <= i < ROWS ==> t[i] == EMPTY
    ensures HasRoom(t, 0) && forall i :: !Has(t, i, m)
  {
    assert Depth(1) && Slot(0, 1) == 1;
  }

  lemma OtherMatches(mac: Mac, other: Mac)
    requires mac != other
    ensures LocalMac(other) != LocalMac(mac) && LocalMac(other) != UNKNOWN_MULTICAST
    ensures UNKNOWN_UNICAST != LocalMac(mac) && UNKNOWN_UNICAST != UNKNOWN_MULTICAST
    ensures TwoWindows(mac)(LocalMac(mac)) == 0
    ensures TwoWindows(mac)(LocalMac(other)) == TwoWindows(mac)(UNKNOWN_UNICAST) == 1000
  {
    assert LocalMac(other).locMac != LocalMac(mac).locMac && LocalMac(other).flags != UNKNOWN_MULTICAST.flags;
    assert UNKNOWN_UNICAST.flags != LocalMac(mac).flags && UNKNOWN_UNICAST.locMac[0] != UNKNOWN_MULTICAST.locMac[0];
  }

  /** When a table holds nothing but what is wanted for mac, there is room for the filters of another MAC
      address; but the firmware need not support them. */
  lemma OthersAreUnsupported(table: Table, mac: Mac, other: Mac)
    requires mac != other && table.Exact() && table.hash == TwoWindows(mac) && table.automatic
    requires Within(table.entry[..], table.Us(), Table.UnicastWanted(mac, false))
    requires Within(table.entry[..], table.Ms(), Table.MulticastWanted(false, table.usingAllMulcst, false, []))
    requires forall k :: table.requests <= k ==> table.firmware(k) == ENOTSUP
    ensures table.Unsupported(LocalMac(other)) && table.Unsupported(UNKNOWN_UNICAST)
  {
    OtherMatches(mac, other);
    WantedForMac(table.entry[..], mac, table.Us(), table.Ms(), table.usingAllMulcst);
    OtherWindowIsFree(table.entry[..], mac, table.Us(), table.Ms());
    hide TableOk, Safe, Tracks, Complete, Within, AutoOnly, NoOld, NoAutoUnknown, NoAutoSpecific, HasRoom, Has, LocalMac,
         TwoWindows;
  }

  /** A table that tracks a filter for mac, when the firmware supports nothing more. */
  method ConfiguredFor(mac: Mac, other: Mac) returns (table: Table)
    requires !Group(mac) && mac != other
    ensures fresh(table) && fresh(table.entry) && fresh(table.unicst) && fresh(table.mulcst)
    ensures table.Exact() && table.Us() != [] && table.defaultRxq != None && !table.chaining
    ensures table.Unsupported(LocalMac(other)) && table.Unsupported(UNKNOWN_UNICAST)
  {
    OtherMatches(mac, other);
    table := new Table(TwoWindows(mac), false, k => if k == 0 then Ok else ENOTSUP, true);
    table.SetQueue(Some(0), false, 0);
    NoneIsThere(table.entry[..], LocalMac(mac));
    hide TableOk, Safe, Tracks, Complete, Within, AutoOnly, NoOld, NoAutoUnknown, NoAutoSpecific, HasRoom, Has, LocalMac,
         TwoWindows, Table.UnicastWanted, Table.MulticastWanted, Table.Unsupported;
    var _ := table.Reconfigure(mac, false, false, false, false, [], Ok);
    OthersAreUnsupported(table, mac, other);
  }

  /** Such a table is configured for the other MAC address: the driver reports ENOTSUP, and its old filter is
      left in the table without being tracked. */
  method LosesTrack(mac: Mac, other: Mac) returns (table: Table, rc: Rc)
    requires !Group(mac) && !Group(other) && mac != other
    ensures fresh(table) && table.Rest() && rc == ENOTSUP && !table.Exact()
  {
    hide TableOk, Safe, Tracks, Complete, Within, AutoOnly, NoOld, NoAutoUnknown, NoAutoSpecific, HasRoom, Has, LocalMac,
         TwoWindows, Table.UnicastWanted, Table.MulticastWanted;
    table := ConfiguredFor(mac, other);
    rc := table.Reconfigure(other, false, false, false, false, [], Ok);
  }

  lemma WantedForMac(t: seq<Entry>, mac: Mac, us: seq<nat>, ms: seq<nat>, all: bool)
    requires Within(t, us, Table.UnicastWanted(mac, false)) && Within(t, ms, Table.MulticastWanted(false, all, false, []))
    ensures Within(t, us, {LocalMac(mac)}) && Within(t, ms, {UNKNOWN_MULTICAST})
  {
    assert ListMatches([], false) == {};
  }

  /** One change of configuration: the default receive queue and the arguments of a call. */
  datatype Config = Config(rxq: Option<nat>, rss: bool, context: u32, mac: Mac, allUnicst: bool, mulcstOn: bool, allMulcst: bool,
                           brdcst: bool, addrs: seq<Mac>, workarounds: Rc)

  predicate ConfigOk(c: Config, chaining: bool) {
    && !Group(c.mac) && |c.addrs| <= LIST_MAX && (forall a :: a in c.addrs ==> Group(a))
    && (c.workarounds == ENOTSUP ==> !chaining)
  }

  /** What a call did: its return code, the unicast rows tracked before and after it, and the matches it was
      refused. */
  datatype Call = Call(rc: Rc, before: seq<nat>, after: seq<nat>, refused: set<Match>)

  /** The call did not lose track of a filter: it had no default queue; or the workaround query did not fail, and
      one of the two unicast filters was accepted or there was no unicast filter to forget. */
  ghost predicate Kept(c: Config, call: Call) {
    || c.rxq == None
    || ((c.workarounds == Ok || c.workarounds == ENOTSUP)
        && (LocalMac(c.mac) !in call.refused || UNKNOWN_UNICAST !in call.refused || call.before == []))
  }

  /** What a call says of itself: both unicast filters were refused exactly when none is tracked behind it, and its
      return code. */
  ghost predicate Reported(c: Config, call: Call) {
    if c.rxq == None then call.rc == Ok && call.after == []
    else
      && (LocalMac(c.mac) in call.refused && UNKNOWN_UNICAST in call.refused <==> call.after == [])
      && (call.rc == Ok ==> call.after != [])
      && (call.after != [] && (c.workarounds == Ok || c.workarounds == ENOTSUP) ==>
            call.rc == if (c.allUnicst && UNKNOWN_UNICAST in call.refused) || (c.allMulcst && UNKNOWN_MULTICAST in call.refused)
                       then ENOTSUP else Ok)
  }

  /** The filter delivers to the queue of configuration c, with its RSS setting. */
  predicate Towards(spec: Spec, c: Config) {
    c.rxq == Some(spec.dmaq) && c.rss == spec.rss && c.context == spec.rssContext
  }

  /** Every automatic filter goes where one of the configurations says. */
  ghost predicate AllTowards(t: seq<Entry>, configs: seq<Config>) {
    forall i :: 0 <= i < |t| && IsAuto(t[i]) ==> exists k :: 0 <= k < |configs| && Towards(t[i].spec.value, configs[k])
  }

  lemma TowardsMore(t: seq<Entry>, t': seq<Entry>, configs: seq<Config>, c: Config)
    requires |t'| == |t| && AllTowards(t, configs)
    requires forall i :: 0 <= i < |t'| && IsAuto(t'[i]) ==>
      (IsAuto(t[i]) && t'[i].spec == t[i].spec) || Towards(t'[i].spec.value, c)
    ensures AllTowards(t', configs + [c])
  {
    hide Towards;
    var more := configs + [c];
    forall i | 0 <= i < |t'| && IsAuto(t'[i])
      ensures exists k :: 0 <= k < |more| && Towards(t'[i].spec.value, more[k])
    {
      if Towards(t'[i].spec.value, c) {
        assert more[|configs|] == c;
      } else {
        var k :| 0 <= k < |configs| && Towards(t[i].spec.value, configs[k]);
        assert more[k] == configs[k];
      }
    }
  }

  lemma AllTowardsIs(t: seq<Entry>, configs: seq<Config>)
    requires AllTowards(t, configs)
    ensures forall i :: 0 <= i < |t| && IsAuto(t[i]) ==>
      exists k :: 0 <= k < |configs| && Towards(t[i].spec.value, configs[k])
  {
  }

  lemma NoneTowards(t: seq<Entry>)
    requires forall i :: 0 <= i < |t| ==> t[i] == EMPTY
    ensures AllTowards(t, [])
  {
  }

  /** Set the default queue and reconfigure. */
  method ReconfigureTo(table: Table, c: Config) returns (ghost call: Call)
    requires table.Rest() && ConfigOk(c, table.chaining)
    modifies table, table.entry, table.unicst, table.mulcst
    ensures table.Rest() && Reported(c, call)
    ensures call.before == old(table.Us()) && call.after == table.Us()
    ensures old(table.Exact()) && Kept(c, call) ==> table.Exact()
    ensures forall i :: 0 <= i < ROWS && IsAuto(table.entry[i]) ==>
      || (old(IsAuto(table.entry[i])) && table.entry[i].spec == old(table.entry[i].spec))
      || Towards(table.entry[i].spec.value, c)
  {
    hide TableOk, Safe, AutoOnly, Tracks, Complete, NoOld, Within, Covers, LocalMac, Table.UnicastWanted, Table.MulticastWanted;
    ghost var us := table.Us();
    table.SetQueue(c.rxq, c.rss, c.context);
    NoneIsWithin(table.entry[..], Table.UnicastWanted(c.mac, true));
    NoneIsWithin(table.entry[..], Table.UnicastWanted(c.mac, c.allUnicst));
    var rc := table.Reconfigure(c.mac, c.allUnicst, c.mulcstOn, c.allMulcst, c.brdcst, c.addrs, c.workarounds);
    call := Call(rc, us, table.Us(), table.refused);
  }

  lemma NoneIsWithin(t: seq<Entry>, s: set<Match>)
    ensures Within(t, [], s)
  {
  }

  /** The unicast rows that are tracked behind k calls. */
  function TrackedAfter(calls: seq<Call>, k: nat): seq<nat>
    requires k <= |calls|
  {
    if k == 0 then [] else calls[k - 1].after
  }

  /** One call follows on the other. */
  ghost predicate Linked(calls: seq<Call>, us: seq<nat>) {
    us == TrackedAfter(calls, |calls|) && forall k :: 0 <= k < |calls| ==> calls[k].before == TrackedAfter(calls, k)
  }

  lemma NoCalls()
    ensures Linked([], [])
  {
  }

  lemma LinkedOn(calls: seq<Call>, us: seq<nat>, call: Call)
    requires Linked(calls, us) && call.before == us
    ensures Linked(calls + [call], call.after)
  {
  }

  /** Any run of reconfigurations, whatever the firmware answers: filters sit in their own probe
      windows, equal exclusive filters never meet, the tracked rows hold automatic filters, and
      under chaining the two kinds of automatic multicast filter are never together.  As long as no
      call loses track of a filter, the automatic filters are exactly the tracked ones. */
  method Run(hash: Match -> u32, chaining: bool, firmware: nat -> Rc, configs: seq<Config>)
    returns (t: seq<Entry>, us: seq<nat>, ms: seq<nat>, ghost calls: seq<Call>)
    requires forall c :: c in configs ==> ConfigOk(c, chaining)
    ensures TableOk(t, hash) && Safe(t, chaining) && NoOld(t) && Tracks(t, us, ms)
    ensures |calls| == |configs| && Linked(calls, us) && forall k :: 0 <= k < |calls| ==> Reported(configs[k], calls[k])
    ensures (forall k :: 0 <= k < |calls| ==> Kept(configs[k], calls[k])) ==> Complete(t, us, ms)
    ensures forall i :: 0 <= i < |t| && IsAuto(t[i]) ==>
      exists k :: 0 <= k < |configs| && Towards(t[i].spec.value, configs[k])
  {
    hide TableOk, Safe, AutoOnly, Tracks, Complete, NoOld, Linked, Kept, Reported, ConfigOk, Towards, AllTowards, Sends;
    var table := new Table(hash, chaining, firmware, false);
    NoCalls();
    NoneTowards(table.entry[..]);
    calls := [];
    var n := 0;
    while n < |configs|
      invariant 0 <= n <= |configs| && fresh(table) && fresh(table.entry) && fresh(table.unicst) && fresh(table.mulcst)
      invariant table.Rest() && table.hash == hash && table.chaining == chaining
      invariant |calls| == n && Linked(calls, table.Us()) && forall k :: 0 <= k < n ==> Reported(configs[k], calls[k])
      invariant (forall k :: 0 <= k < n ==> Kept(configs[k], calls[k])) ==> table.Exact()
      invariant AllTowards(table.entry[..], configs[..n])
    {
      var c := configs[n];
      assert c in configs;
      ghost var rows := table.entry[..];
      ghost var call := ReconfigureTo(table, c);
      TowardsMore(rows, table.entry[..], configs[..n], c);
      assert configs[..n + 1] == configs[..n] + [c];
      LinkedOn(calls, call.before, call);
      calls := calls + [call];
      n := n + 1;
    }
    assert configs[..n] == configs;
    AllTowardsIs(table.entry[..], configs);
    t, us, ms := table.entry[..], table.unicst[..table.unicstCount], table.mulcst[..table.mulcstCount];
  }
}
