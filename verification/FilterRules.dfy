/** What the filter table keeps: rules about table contents, and what one add, delete, mark or
    sweep does to them (common/ef10_filter.c). */
module FilterRules {
  import opened Options
  import opened Words
  import opened Filters

  // ---------------------------------------------------------------- table contents

  /** Between calls: no row busy, every filter within its own probe window, AUTO_OLD only on
      automatic filters. */
  ghost predicate RowOk(e: Entry, i: nat, hash: Match -> u32) {
    && !e.busy
    && (e.spec.Some? ==> InWindow(hash(e.spec.value.m), i))
    && (e.autoOld ==> IsAuto(e))
  }

  /** Two equal automatic filters are not both in the table. */
  ghost predicate AutoUnique(t: seq<Entry>) {
    forall i, j :: 0 <= i < j < |t| && IsAuto(t[i]) && IsAuto(t[j]) ==> t[i].spec.value.m != t[j].spec.value.m
  }

  ghost predicate TableOk(t: seq<Entry>, hash: Match -> u32) {
    |t| == ROWS && Unique(t) && AutoUnique(t) && forall i :: 0 <= i < ROWS ==> RowOk(t[i], i, hash)
  }

  predicate Has(t: seq<Entry>, i: nat, m: Match) {
    i < |t| && IsAuto(t[i]) && t[i].spec.value.m == m
  }

  ghost predicate NoAutoUnknown(t: seq<Entry>) {
    forall i :: 0 <= i < |t| && IsAuto(t[i]) ==> t[i].spec.value.m != UNKNOWN_MULTICAST
  }

  ghost predicate NoAutoSpecific(t: seq<Entry>) {
    forall i :: 0 <= i < |t| && IsAuto(t[i]) ==> !SpecificMulticast(t[i].spec.value.m)
  }

  /** With multicast chaining: an automatic all-multicast filter and an automatic filter for one
      multicast address are not both in the table. */
  ghost predicate Safe(t: seq<Entry>, chaining: bool) {
    chaining ==> NoAutoUnknown(t) || NoAutoSpecific(t)
  }

  /** Every filter in the table is an automatic one. */
  ghost predicate AutoOnly(t: seq<Entry>) {
    forall i :: 0 <= i < |t| && t[i].spec.Some? ==> IsAuto(t[i])
  }

  /** Adding an automatic filter for m is safe. */
  ghost predicate Admits(t: seq<Entry>, chaining: bool, m: Match) {
    && (chaining && m == UNKNOWN_MULTICAST ==> NoAutoSpecific(t))
    && (chaining && SpecificMulticast(m) ==> NoAutoUnknown(t))
  }

  /** A filter that delivers to the given queue, with or without RSS. */
  predicate Directed(spec: Spec, rxq: Option<nat>, rss: bool, context: u32) {
    (rxq.Some? ==> spec.dmaq == rxq.value) && spec.rss == rss && spec.rssContext == context
  }

  /** Every automatic filter is as it was in the rows before, or delivers to the given queue. */
  ghost predicate Sends(before: seq<Entry>, t: seq<Entry>, rxq: Option<nat>, rss: bool, context: u32) {
    |before| == |t| && forall i :: 0 <= i < |t| && IsAuto(t[i]) ==>
      (IsAuto(before[i]) && t[i].spec == before[i].spec) || Directed(t[i].spec.value, rxq, rss, context)
  }

  lemma SendsUpdate(before: seq<Entry>, t: seq<Entry>, rxq: Option<nat>, rss: bool, context: u32, i: nat, e: Entry)
    requires Sends(before, t, rxq, rss, context) && i < |t|
    requires IsAuto(e) ==> (IsAuto(t[i]) && e.spec == t[i].spec) || Directed(e.spec.value, rxq, rss, context)
    ensures Sends(before, t[i := e], rxq, rss, context)
  {
    hide Directed;
  }

  lemma SendsMeans(before: seq<Entry>, t: seq<Entry>, rxq: Option<nat>, rss: bool, context: u32)
    requires Sends(before, t, rxq, rss, context) && rxq.Some?
    ensures |before| == |t| && forall i :: 0 <= i < |t| && IsAuto(t[i]) ==>
      || (IsAuto(before[i]) && t[i].spec == before[i].spec)
      || (var s := t[i].spec.value; rxq == Some(s.dmaq) && s.rss == rss && s.rssContext == context)
  {
  }

  lemma SendsSame(t: seq<Entry>, rxq: Option<nat>, rss: bool, context: u32)
    ensures Sends(t, t, rxq, rss, context)
  {
  }

  // ---------------------------------------------------------------- effect of one add

  /** A successful add left its filter in row id and touched no other row. */
  ghost predicate Added(t: seq<Entry>, t': seq<Entry>, spec: Spec, id: nat)
    requires |t| == |t'| == ROWS && id < ROWS
  {
    && t' == t[id := t'[id]]
    && (t[id].spec.Some? ==> t[id].spec.value.m == spec.m)
    && t'[id] == if IsAuto(t[id]) then t[id].(autoOld := false)
                 else Entry(Some(spec), false, false)
  }

  /** A refused add left no automatic filter like it, and at worst removed the manual filter it
      was to replace. */
  ghost predicate Refused(t: seq<Entry>, t': seq<Entry>, spec: Spec)
    requires |t| == |t'| == ROWS
  {
    && (forall i :: 0 <= i < ROWS ==> !Has(t, i, spec.m))
    && (t' == t || exists i :: 0 <= i < ROWS && !IsAuto(t[i]) && t' == t[i := EMPTY])
  }

  /** The probe finds every conflict, because equal filters share one window. */
  lemma WindowShowsConflicts(t: seq<Entry>, hash: Match -> u32, spec: Spec, i: nat)
    requires TableOk(t, hash) && i < ROWS
    ensures Conflict(t[i], spec) ==> ConflictFrom(t, hash(spec.m), spec, 1)
  {
    assert RowOk(t[i], i, hash);
    if Conflict(t[i], spec) {
      var d :| Depth(d) && Slot(hash(spec.m), d) == i;
    }
  }

  /** Outcomes of the probe in a table that is at rest. */
  lemma ProbeAtRest(t: seq<Entry>, hash: Match -> u32, spec: Spec, mayReplace: bool)
    requires TableOk(t, hash)
    ensures var o := Scan(t, hash(spec.m), spec, mayReplace, 1, -1);
      && !o.Retry?
      && (o.Found? ==> o.i < ROWS && InWindow(hash(spec.m), o.i))
      && (o.Found? && t[o.i].spec.Some? ==>
            t[o.i].spec.value.m == spec.m && (IsAuto(t[o.i]) || (mayReplace && Exclusive(spec.m))))
      && ((o.Found? && t[o.i].spec.None?) || o.NoRoom? ==> !ConflictFrom(t, hash(spec.m), spec, 1))
      && (o.Exists? ==> !mayReplace && Exclusive(spec.m))
      && ((o.Found? && IsAuto(t[o.i])) || forall i :: 0 <= i < ROWS ==> !Has(t, i, spec.m))
  {
    var h := hash(spec.m);
    ScanMeaning(t, h, spec, mayReplace, 1, -1);
    var o := Scan(t, h, spec, mayReplace, 1, -1);
    if ConflictFrom(t, h, spec, 1) {
      var d :| 1 <= d && Depth(d) && Decided(t[Slot(h, d)], spec, mayReplace, o, Slot(h, d));
      var k := Slot(h, d);
      assert RowOk(t[k], k, hash);
      if !IsAuto(t[k]) {
        forall i | 0 <= i < ROWS
          ensures !Has(t, i, spec.m)
        {
        }
      }
    } else {
      forall i | 0 <= i < ROWS
        ensures !Has(t, i, spec.m)
      {
        WindowShowsConflicts(t, hash, spec, i);
      }
    }
  }

  lemma InsertKeepsTable(t: seq<Entry>, hash: Match -> u32, spec: Spec, i: nat)
    requires TableOk(t, hash) && i < ROWS && t[i].spec.None? && InWindow(hash(spec.m), i)
    requires !ConflictFrom(t, hash(spec.m), spec, 1)
    ensures TableOk(t[i := Entry(Some(spec), false, false)], hash)
  {
    forall j | 0 <= j < ROWS && t[j].spec.Some? && t[j].spec.value.m == spec.m
      ensures !Exclusive(spec.m) && !IsAuto(t[j])
    {
      WindowShowsConflicts(t, hash, spec, j);
    }
  }

  lemma ReplaceKeepsTable(t: seq<Entry>, hash: Match -> u32, spec: Spec, i: nat)
    requires TableOk(t, hash) && i < ROWS && t[i].spec.Some? && t[i].spec.value.m == spec.m
    requires forall j :: 0 <= j < ROWS ==> !Has(t, j, spec.m)
    ensures TableOk(t[i := Entry(Some(spec), false, false)], hash)
  {
    assert RowOk(t[i], i, hash);
    assert forall j :: 0 <= j < ROWS && IsAuto(t[j]) && t[j].spec.value.m == spec.m ==> Has(t, j, spec.m);
  }

  lemma ClearKeepsTable(t: seq<Entry>, hash: Match -> u32, i: nat)
    ensures TableOk(t, hash) && i < ROWS ==> TableOk(t[i := EMPTY], hash)
  {
  }

  lemma AddKeepsSafe(t: seq<Entry>, chaining: bool, i: nat, e: Entry)
    requires |t| == ROWS && i < ROWS && Safe(t, chaining)
    requires e.spec.Some? && e.spec.value.priority == Auto ==> Admits(t, chaining, e.spec.value.m)
    ensures Safe(t[i := e], chaining)
  {
  }

  // ---------------------------------------------------------------- tracking automatic filters

  ghost predicate NoOld(t: seq<Entry>) {
    forall i :: 0 <= i < |t| ==> !t[i].autoOld
  }

  /** Rows us hold current automatic unicast filters, rows ms current automatic multicast
      filters, and no other current automatic filter is a multicast one. */
  ghost predicate Tracks(t: seq<Entry>, us: seq<nat>, ms: seq<nat>) {
    && (forall i :: i in us ==> i < |t| && IsAuto(t[i]) && !t[i].autoOld && !Multicast(t[i].spec.value.m))
    && (forall i :: i in ms ==> i < |t| && IsAuto(t[i]) && !t[i].autoOld && Multicast(t[i].spec.value.m))
    && (forall i :: 0 <= i < |t| && IsAuto(t[i]) && !t[i].autoOld && Multicast(t[i].spec.value.m) ==> i in ms)
  }

  /** Every current automatic filter is tracked. */
  ghost predicate Complete(t: seq<Entry>, us: seq<nat>, ms: seq<nat>) {
    forall i :: 0 <= i < |t| && IsAuto(t[i]) && !t[i].autoOld ==> i in us || i in ms
  }

  /** The filters in rows idx are for matches of the set s only. */
  ghost predicate Within(t: seq<Entry>, idx: seq<nat>, s: set<Match>) {
    forall i :: i in idx ==> i < |t| && t[i].spec.Some? && t[i].spec.value.m in s
  }

  /** Every match of the set s has its filter in a row of idx. */
  ghost predicate Covers(t: seq<Entry>, idx: seq<nat>, s: set<Match>) {
    forall m :: m in s ==> exists i :: i in idx && Has(t, i, m)
  }

  /** Marking all that is tracked leaves nothing current to track. */
  lemma MarkedTracks(t: seq<Entry>, t': seq<Entry>, us: seq<nat>, ms: seq<nat>)
    requires Tracks(t, us, ms) && NoOld(t) && |t'| == |t|
    requires forall i :: 0 <= i < |t| ==> t'[i] == t[i].(autoOld := i in us || i in ms)
    ensures Tracks(t', [], []) && (Complete(t, us, ms) ==> Complete(t', [], []))
  {
  }

  lemma TrackedIsAuto(t: seq<Entry>, us: seq<nat>, ms: seq<nat>)
    ensures Tracks(t, us, ms) ==> forall i :: i in us || i in ms ==> i < |t| && IsAuto(t[i])
  {
  }

  /** The multicast filters that a list calls for. */
  lemma ListMatchesAre(addrs: seq<Mac>, brdcst: bool, m: Match)
    ensures m in ListMatches(addrs, brdcst) <==>
      || (exists k :: 0 <= k < |addrs| && m == MacMatch({LocMac}, addrs[k]))
      || (brdcst && m == MacMatch({LocMac}, [0xff, 0xff, 0xff, 0xff, 0xff, 0xff]))
  {
    if m in (set a | a in addrs :: LocalMac(a)) {
      var a :| a in addrs && m == LocalMac(a);
      var k :| 0 <= k < |addrs| && addrs[k] == a;
      assert m == MacMatch({LocMac}, addrs[k]);
    }
    forall k | 0 <= k < |addrs| && m == MacMatch({LocMac}, addrs[k])
      ensures m in ListMatches(addrs, brdcst)
    {
      assert addrs[k] in addrs && m == LocalMac(addrs[k]);
    }
  }

  lemma AddMulticast(t: seq<Entry>, t': seq<Entry>, us: seq<nat>, ms: seq<nat>, spec: Spec, id: nat, s: set<Match>)
    requires |t| == |t'| == ROWS && id < ROWS && Added(t, t', spec, id)
    requires spec.priority == Auto && Multicast(spec.m) && Tracks(t, us, ms)
    ensures Tracks(t', us, ms + [id]) && (Complete(t, us, ms) ==> Complete(t', us, ms + [id]))
    ensures Within(t, us, s) ==> Within(t', us, s)
    ensures Within(t, ms, s) && spec.m in s ==> Within(t', ms + [id], s)
    ensures Has(t', id, spec.m)
  {
  }

  lemma AddUnicast(t: seq<Entry>, t': seq<Entry>, us: seq<nat>, ms: seq<nat>, spec: Spec, id: nat, s: set<Match>)
    requires |t| == |t'| == ROWS && id < ROWS && Added(t, t', spec, id)
    requires spec.priority == Auto && !Multicast(spec.m) && Tracks(t, us, ms)
    ensures Tracks(t', us + [id], ms) && (Complete(t, us, ms) ==> Complete(t', us + [id], ms))
    ensures Within(t, us, s) && spec.m in s ==> Within(t', us + [id], s)
    ensures Has(t', id, spec.m)
  {
  }

  /** An add keeps every current filter, so what was covered stays covered. */
  lemma AddCovers(t: seq<Entry>, t': seq<Entry>, idx: seq<nat>, spec: Spec, id: nat, s: set<Match>)
    requires |t| == |t'| == ROWS && id < ROWS && Added(t, t', spec, id) && Covers(t, idx, s)
    ensures Covers(t', idx, s) && (spec.priority == Auto ==> Covers(t', idx + [id], s + {spec.m}))
  {
    forall m | m in s
      ensures exists i :: i in idx && Has(t', i, m)
    {
      var i :| i in idx && Has(t, i, m);
      assert Has(t', i, m);
    }
    if spec.priority == Auto {
      forall m | m in s + {spec.m}
        ensures exists i :: i in idx + [id] && Has(t', i, m)
      {
        if m == spec.m {
          assert Has(t', id, m);
        } else {
          var i :| i in idx && Has(t', i, m);
          assert i in idx + [id];
        }
      }
    }
  }

  lemma RefuseTracks(t: seq<Entry>, t': seq<Entry>, us: seq<nat>, ms: seq<nat>, spec: Spec)
    requires |t| == |t'| == ROWS && Refused(t, t', spec) && Tracks(t, us, ms)
    ensures Tracks(t', us, ms) && (Complete(t, us, ms) ==> Complete(t', us, ms))
    ensures forall s :: Within(t, us, s) ==> Within(t', us, s)
    ensures forall s :: Within(t, ms, s) ==> Within(t', ms, s)
    ensures forall i, m :: Has(t, i, m) <==> Has(t', i, m)
    ensures forall i :: i in us ==> i < ROWS && t'[i] == t[i]
    ensures forall s :: Covers(t, us, s) ==> Covers(t', us, s)
  {
  }

  /** The probe window of h has a free row. */
  ghost predicate HasRoom(t: seq<Entry>, h: u32)
    requires |t| == ROWS
  {
    exists d :: Depth(d) && t[Slot(h, d)].spec.None?
  }

  /** Only a full window has no room. */
  lemma NoRoomMeansFull(t: seq<Entry>, h: u32, spec: Spec, mayReplace: bool)
    requires |t| == ROWS && Scan(t, h, spec, mayReplace, 1, -1).NoRoom?
    ensures !HasRoom(t, h)
  {
    ScanMeaning(t, h, spec, mayReplace, 1, -1);
  }

  /** An automatic filter for m is in the table. */
  ghost predicate Mine(t: seq<Entry>, m: Match) {
    exists i :: 0 <= i < |t| && Has(t, i, m)
  }

  /** An exclusive filter for m is in the table. */
  ghost predicate Taken(t: seq<Entry>, m: Match) {
    Exclusive(m) && exists i :: 0 <= i < |t| && t[i].spec.Some? && t[i].spec.value.m == m
  }

  /** What a row that stops the probe tells of the table. */
  lemma DecidedAnswers(t: seq<Entry>, hash: Match -> u32, spec: Spec, mayReplace: bool, o: Outcome, k: nat)
    requires TableOk(t, hash) && k < ROWS && Decided(t[k], spec, mayReplace, o, k)
    ensures if Mine(t, spec.m) then o == Found(k) && IsAuto(t[k])
            else Taken(t, spec.m) && if mayReplace then o == Found(k) && t[k].spec.Some? && !IsAuto(t[k]) else o == Exists
  {
    hide Exclusive, Depth;
    assert RowOk(t[k], k, hash);
    if IsAuto(t[k]) {
      assert Has(t, k, spec.m);
    }
  }

  /** Without a conflict there is no filter like it that counts. */
  lemma NoConflictAnswers(t: seq<Entry>, hash: Match -> u32, spec: Spec)
    requires TableOk(t, hash) && !ConflictFrom(t, hash(spec.m), spec, 1)
    ensures !Mine(t, spec.m) && !Taken(t, spec.m)
  {
    hide Exclusive, ConflictFrom, RowOk, Unique, AutoUnique;
    forall i | 0 <= i < ROWS
      ensures !Conflict(t[i], spec)
    {
      WindowShowsConflicts(t, hash, spec, i);
    }
  }

  lemma FreeIsRoom(t: seq<Entry>, h: u32, i: nat)
    requires |t| == ROWS && i < ROWS && InWindow(h, i) && t[i].spec.None?
    ensures HasRoom(t, h)
  {
    var d :| Depth(d) && Slot(h, d) == i;
  }

  /** The answer of the probe: the automatic filter, if there is one; else the exclusive filter, if it may be replaced; else
      a free row. */
  lemma ProbeAnswers(t: seq<Entry>, hash: Match -> u32, spec: Spec, mayReplace: bool)
    requires TableOk(t, hash)
    ensures var o := Scan(t, hash(spec.m), spec, mayReplace, 1, -1);
      && (o.Found? ==> o.i < |t|)
      && if Mine(t, spec.m) then o.Found? && IsAuto(t[o.i])
         else if Taken(t, spec.m) then (if mayReplace then o.Found? && t[o.i].spec.Some? && !IsAuto(t[o.i]) else o.Exists?)
         else if HasRoom(t, hash(spec.m)) then o.Found? && t[o.i].spec.None?
         else o.NoRoom?
  {
    hide Scan, Slot, Exclusive, Mine, Taken, HasRoom, RowOk, Unique, AutoUnique, Conflict, Decided, InWindow, ConflictFrom;
    var h := hash(spec.m);
    ScanMeaning(t, h, spec, mayReplace, 1, -1);
    var o := Scan(t, h, spec, mayReplace, 1, -1);
    if ConflictFrom(t, h, spec, 1) {
      var d :| 1 <= d && Depth(d) && Decided(t[Slot(h, d)], spec, mayReplace, o, Slot(h, d));
      DecidedAnswers(t, hash, spec, mayReplace, o, Slot(h, d));
    } else {
      NoConflictAnswers(t, hash, spec);
      if o.Found? {
        FreeIsRoom(t, h, o.i);
      } else {
        NoRoomMeansFull(t, h, spec, mayReplace);
      }
    }
  }

  /** Marks on rows change neither what is there nor the room. */
  lemma MarksLeaveRoom(t: seq<Entry>, t': seq<Entry>)
    requires |t| == |t'| == ROWS && forall i :: 0 <= i < ROWS ==> t'[i].spec == t[i].spec
    ensures forall h: u32 :: HasRoom(t, h) ==> HasRoom(t', h)
    ensures forall i, m :: Has(t, i, m) <==> Has(t', i, m)
  {
    forall h: u32 | HasRoom(t, h)
      ensures HasRoom(t', h)
    {
      var d :| Depth(d) && t[Slot(h, d)].spec.None?;
      assert t'[Slot(h, d)].spec.None?;
    }
  }

  lemma RefuseLeavesRoom(t: seq<Entry>, t': seq<Entry>, spec: Spec)
    requires |t| == |t'| == ROWS && Refused(t, t', spec)
    ensures forall h: u32 :: HasRoom(t, h) ==> HasRoom(t', h)
  {
    forall h: u32 | HasRoom(t, h)
      ensures HasRoom(t', h)
    {
      var d :| Depth(d) && t[Slot(h, d)].spec.None?;
      assert t'[Slot(h, d)].spec.None?;
    }
  }

  lemma SameRows(t: seq<Entry>, t': seq<Entry>, idx: seq<nat>, s: set<Match>)
    requires |t| == |t'| && forall i :: i in idx && i < |t| ==> t[i] == t'[i]
    ensures Within(t, idx, s) ==> Within(t', idx, s)
    ensures Covers(t, idx, s) ==> Covers(t', idx, s)
  {
    if Covers(t, idx, s) {
      forall m | m in s
        ensures exists i :: i in idx && Has(t', i, m)
      {
        var i :| i in idx && Has(t, i, m);
        assert Has(t', i, m);
      }
    }
  }

  /** The filters a multicast list asks for. */
  function ListMatches(addrs: seq<Mac>, brdcst: bool): set<Match> {
    (set a | a in addrs :: LocalMac(a)) + if brdcst then {LocalMac(BROADCAST)} else {}
  }

  lemma ListMatchesAppend(addrs: seq<Mac>, a: Mac)
    ensures ListMatches(addrs + [a], false) == ListMatches(addrs, false) + {LocalMac(a)}
  {
    assert forall m :: m in ListMatches(addrs + [a], false) ==> m in ListMatches(addrs, false) + {LocalMac(a)};
    assert a in addrs + [a];
    assert forall x :: x in addrs ==> x in addrs + [a];
  }

  /** Tracks, but a row of ms may already have been freed: an address listed twice has one row. */
  ghost predicate RollingBack(t: seq<Entry>, us: seq<nat>, ms: seq<nat>) {
    && (forall i :: i in us ==> i < |t| && IsAuto(t[i]) && !t[i].autoOld && !Multicast(t[i].spec.value.m))
    && (forall i :: i in ms ==> i < |t| && (t[i].spec.Some? ==> IsAuto(t[i]) && !t[i].autoOld && Multicast(t[i].spec.value.m)))
    && (forall i :: 0 <= i < |t| && IsAuto(t[i]) && !t[i].autoOld && Multicast(t[i].spec.value.m) ==> i in ms)
  }

  lemma TracksRolls(t: seq<Entry>, us: seq<nat>, ms: seq<nat>)
    ensures Tracks(t, us, ms) ==> RollingBack(t, us, ms)
    ensures RollingBack(t, us, []) ==> Tracks(t, us, [])
  {
  }

  lemma RollBackOne(t: seq<Entry>, us: seq<nat>, ms: seq<nat>, id: nat)
    requires |t| == ROWS && RollingBack(t, us, ms + [id])
    ensures id < ROWS && RollingBack(t[id := EMPTY], us, ms)
    ensures Complete(t, us, ms + [id]) ==> Complete(t[id := EMPTY], us, ms)
    ensures forall i :: i in us ==> t[id := EMPTY][i] == t[i]
  {
    assert id in ms + [id];
    var t' := t[id := EMPTY];
    forall i | i in us
      ensures t'[i] == t[i]
    {
    }
    forall i | 0 <= i < |t'| && IsAuto(t'[i]) && i in ms + [id]
      ensures i in ms
    {
    }
    forall i | i in ms
      ensures i < |t'| && (t'[i].spec.Some? ==> IsAuto(t'[i]) && !t'[i].autoOld && Multicast(t'[i].spec.value.m))
    {
      assert i in ms + [id];
    }
    forall i | 0 <= i < |t'| && IsAuto(t'[i]) && !t'[i].autoOld && Multicast(t'[i].spec.value.m)
      ensures i in ms
    {
      assert t'[i] == t[i] && i in ms + [id];
    }
  }

  lemma ClearKeepsNone(t: seq<Entry>, i: nat)
    requires i < |t|
    ensures NoAutoUnknown(t) ==> NoAutoUnknown(t[i := EMPTY])
    ensures NoAutoSpecific(t) ==> NoAutoSpecific(t[i := EMPTY])
  {
  }

  lemma ListMatchesSplit(addrs: seq<Mac>, brdcst: bool)
    ensures ListMatches(addrs, brdcst) == ListMatches(addrs, false) + if brdcst then {LocalMac(BROADCAST)} else {}
    ensures forall a :: a in addrs ==> LocalMac(a) in ListMatches(addrs, brdcst)
  {
  }

  /** Adding filters removes no automatic filter and marks none old. */
  ghost predicate Grown(t: seq<Entry>, t': seq<Entry>) {
    && |t| == |t'|
    && (forall i :: 0 <= i < |t| && IsAuto(t[i]) ==> t'[i] == t[i] || t'[i] == t[i].(autoOld := false))
    && (forall i :: 0 <= i < |t| && t'[i].autoOld ==> t'[i] == t[i])
  }

  /** An automatic filter keeps its row while others are added. */
  lemma GrownHas(t: seq<Entry>, t': seq<Entry>)
    ensures Grown(t, t') ==> forall i, m :: Has(t, i, m) ==> Has(t', i, m)
  {
  }

  /** After marking and adding, the rows us0 are all tracked still exactly if their filters are all wanted:
      a row is tracked if its match is wanted, and only wanted rows are. */
  lemma KeptIff(rest: seq<Entry>, marked: seq<Entry>, t: seq<Entry>, us0: seq<nat>, ms0: seq<nat>, us: seq<nat>,
                wanted: set<Match>)
    requires |rest| == |marked| == |t| && Tracks(rest, us0, ms0) && Grown(marked, t) && Within(t, us, wanted)
    requires forall i :: 0 <= i < |rest| ==> marked[i] == rest[i].(autoOld := i in us0 || i in ms0)
    requires forall i, m :: m in wanted && Has(rest, i, m) ==> i in us
    ensures (forall i :: i in us0 ==> i in us) <==> Within(rest, us0, wanted)
  {
    forall i | i in us0
      ensures IsAuto(rest[i]) && t[i].spec == rest[i].spec
    {
      assert IsAuto(marked[i]);
    }
    forall i | i in us0 && rest[i].spec.value.m in wanted
      ensures i in us
    {
      assert Has(rest, i, rest[i].spec.value.m);
    }
  }

  lemma OneAuto(t: seq<Entry>, hash: Match -> u32, i: nat, j: nat, m: Match)
    ensures TableOk(t, hash) && Has(t, i, m) && Has(t, j, m) ==> i == j
  {
  }

  lemma AddGrows(t: seq<Entry>, t': seq<Entry>, spec: Spec, id: nat)
    requires |t| == |t'| == ROWS
    ensures id < ROWS && Added(t, t', spec, id) ==> Grown(t, t')
    ensures Refused(t, t', spec) ==> Grown(t, t')
  {
  }

  lemma GrownTrans(t: seq<Entry>, u: seq<Entry>, v: seq<Entry>)
    ensures Grown(t, u) && Grown(u, v) ==> Grown(t, v)
  {
  }

  lemma GrownSame(t: seq<Entry>)
    ensures Grown(t, t)
  {
  }

  /** The automatic filters that were in these rows before are there still, unchanged. */
  ghost predicate SameSpecs(t: seq<Entry>, t': seq<Entry>, idx: seq<nat>) {
    |t| == |t'| && forall i :: i in idx && i < |t| && IsAuto(t[i]) ==> t'[i].spec == t[i].spec
  }

  lemma SpecsMean(t: seq<Entry>, t': seq<Entry>, idx: seq<nat>)
    ensures SameSpecs(t, t', idx) ==>
      |t| == |t'| && forall i :: i in idx && i < |t| && IsAuto(t[i]) ==> t'[i].spec == t[i].spec
  {
  }

  lemma EqualSpecs(t: seq<Entry>, t': seq<Entry>, idx: seq<nat>)
    requires |t| == |t'| && forall i :: i in idx && i < |t| ==> t'[i] == t[i]
    ensures SameSpecs(t, t', idx)
  {
  }

  lemma GrownSpecs(t: seq<Entry>, u: seq<Entry>, t': seq<Entry>, idx: seq<nat>)
    requires |u| == |t'| && forall i :: i in idx && i < |u| ==> t'[i] == u[i]
    ensures Grown(t, u) ==> SameSpecs(t, t', idx)
  {
  }

  lemma SpecsTwice(t: seq<Entry>, marked: seq<Entry>, u: seq<Entry>, v: seq<Entry>, idx: seq<nat>)
    requires |t| == |marked| && forall i :: 0 <= i < |t| ==> marked[i].spec == t[i].spec
    requires Grown(marked, u) && SameSpecs(u, v, idx)
    ensures SameSpecs(t, v, idx)
  {
  }

  /** Sweeping the old filters away leaves the tracked ones. */
  lemma SweepTracks(t: seq<Entry>, t': seq<Entry>, us: seq<nat>, ms: seq<nat>)
    requires |t| == |t'| && forall i :: 0 <= i < |t| ==> t'[i] == if t[i].autoOld then EMPTY else t[i]
    requires Tracks(t, us, ms)
    ensures Tracks(t', us, ms) && (Complete(t, us, ms) ==> Complete(t', us, ms))
    ensures forall i :: i in us || i in ms ==> t'[i] == t[i]
    ensures forall i, m :: Has(t', i, m) ==> Has(t, i, m)
  {
  }

  /** Clearing the marks after a failure in the unicast phase: marked is the table just after
      marking, t the table now, t' the table with the marks cleared. */
  lemma ClearedTracks(rest: seq<Entry>, marked: seq<Entry>, t: seq<Entry>, t': seq<Entry>,
                      us0: seq<nat>, ms0: seq<nat>, us: seq<nat>)
    requires |rest| == |marked| == |t| == |t'| && Tracks(rest, us0, ms0) && NoOld(rest)
    requires forall i :: 0 <= i < |rest| ==> marked[i] == rest[i].(autoOld := i in us0 || i in ms0)
    requires Grown(marked, t) && Tracks(t, us, [])
    requires forall i :: 0 <= i < |t| ==> t'[i] == t[i].(autoOld := false)
    ensures Tracks(t', us, ms0)
    ensures Complete(rest, us0, ms0) && Complete(t, us, []) ==>
      (Complete(t', us, ms0) <==> forall i :: i in us0 ==> i in us)
  {
    forall i | 0 <= i < |t'| && IsAuto(t'[i]) && Multicast(t'[i].spec.value.m)
      ensures i in ms0
    {
      assert t[i].autoOld && t[i] == marked[i];
    }
    forall i | i in ms0
      ensures i < |t'| && IsAuto(t'[i]) && Multicast(t'[i].spec.value.m)
    {
      assert IsAuto(marked[i]);
    }
    if Complete(rest, us0, ms0) && Complete(t, us, []) {
      if forall i :: i in us0 ==> i in us {
        forall i | 0 <= i < |t'| && IsAuto(t'[i])
          ensures i in us || i in ms0
        {
          if t[i].autoOld {
            assert marked[i].autoOld;
          }
        }
      }
      if Complete(t', us, ms0) {
        forall i | i in us0
          ensures i in us
        {
          assert IsAuto(marked[i]) && IsAuto(t'[i]) && !Multicast(t'[i].spec.value.m);
        }
      }
    }
  }

  /** Nothing marked and nothing tracked: no automatic multicast filter at all. */
  lemma NothingTracked(t: seq<Entry>, us: seq<nat>)
    ensures Tracks(t, us, []) && NoOld(t) ==> NoAutoUnknown(t) && NoAutoSpecific(t)
  {
  }

  /** Adding a unicast filter brings no automatic multicast filter. */
  lemma AddLeavesMulticast(t: seq<Entry>, t': seq<Entry>, spec: Spec, id: nat)
    requires |t| == |t'| == ROWS && !Multicast(spec.m)
    requires (id < ROWS && Added(t, t', spec, id)) || Refused(t, t', spec)
    ensures NoAutoUnknown(t) ==> NoAutoUnknown(t')
    ensures NoAutoSpecific(t) ==> NoAutoSpecific(t')
  {
  }

  lemma SweepKeepsNone(t: seq<Entry>, t': seq<Entry>)
    requires |t| == |t'| && forall i :: 0 <= i < |t| ==> t'[i] == if t[i].autoOld then EMPTY else t[i]
    ensures NoAutoUnknown(t) ==> NoAutoUnknown(t')
    ensures NoAutoSpecific(t) ==> NoAutoSpecific(t')
  {
  }
}
