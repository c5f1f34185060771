/** Adds and deletes of filters by several threads (common/ef10_filter.c).

    The table lock is held while a row is chosen and while the outcome is recorded; it is dropped
    during the firmware request, when only the row's busy flag protects it.  Each locked section
    is one step here; firmware answers are free. */
module FilterThreads {
  import opened Options
  import opened Words
  import opened Filters

  datatype Pc =
    | Idle
    | Adding(i: nat, spec: Spec, replacing: bool)   // add waiting for the firmware
    | Deleting(i: nat)                              // delete waiting for the firmware
    | Restoring(i: nat)                             // restore waiting for the firmware

  datatype State = State(t: seq<Entry>, pc: seq<Pc>)

  datatype Step =
    | AddScan(tid: nat, spec: Spec, mayReplace: bool)
    | AddDone(tid: nat, ok: bool)
    | DeleteMark(tid: nat, i: nat)
    | DeleteDone(tid: nat)
    | RestoreMark(tid: nat, i: nat)
    | RestoreDone(tid: nat)
    | RestoreRefused(tid: nat)                      // the firmware refuses: the caller leaves, the row stays busy
    | SetOld(i: nat, b: bool)

  predicate Enabled(s: State, step: Step) {
    |s.t| == ROWS && match step
    case AddScan(tid, _, _) => tid < |s.pc| && s.pc[tid] == Idle
    case AddDone(tid, _) => tid < |s.pc| && s.pc[tid].Adding? && s.pc[tid].i < ROWS
    case DeleteMark(tid, i) => tid < |s.pc| && s.pc[tid] == Idle && i < ROWS
    case DeleteDone(tid) => tid < |s.pc| && s.pc[tid].Deleting? && s.pc[tid].i < ROWS
    case RestoreMark(tid, i) => tid < |s.pc| && s.pc[tid] == Idle && i < ROWS
    case RestoreDone(tid) => tid < |s.pc| && s.pc[tid].Restoring? && s.pc[tid].i < ROWS
    case RestoreRefused(tid) => tid < |s.pc| && s.pc[tid].Restoring? && s.pc[tid].i < ROWS
    case SetOld(i, _) => i < ROWS
  }

  /** The row of an add that found i, and where its thread goes. */
  function Take(s: State, tid: nat, spec: Spec, i: nat): State
    requires |s.t| == ROWS && tid < |s.pc| && i < ROWS
  {
    var e := s.t[i];
    if IsAuto(e) then s.(t := s.t[i := e.(autoOld := false)])
    else if e.spec.Some? then s.(t := s.t[i := e.(busy := true)], pc := s.pc[tid := Adding(i, spec, true)])
    else s.(t := s.t[i := Entry(Some(spec), true, false)], pc := s.pc[tid := Adding(i, spec, false)])
  }

  /** Mark a free, occupied row busy; otherwise wait or give up, which changes nothing. */
  function Mark(s: State, tid: nat, i: nat, pc: Pc): State
    requires |s.t| == ROWS && tid < |s.pc| && i < ROWS
  {
    if s.t[i].busy || s.t[i].spec.None? then s
    else s.(t := s.t[i := s.t[i].(busy := true)], pc := s.pc[tid := pc])
  }

  /** The end of an add: update or keep the row, or free it. */
  function Settled(e: Entry, pc: Pc, ok: bool): Entry
    requires pc.Adding?
  {
    if !ok then EMPTY
    else if pc.replacing && e.spec.Some? then
      Entry(Some(Spec(e.spec.value.m, pc.spec.priority, pc.spec.rss, pc.spec.rssContext, pc.spec.dmaq)), false, e.autoOld)
    else e.(busy := false)
  }

  function Next(s: State, step: Step, hash: Match -> u32): State
    requires Enabled(s, step)
  {
    match step
    case AddScan(tid, spec, mayReplace) =>
      var o := Scan(s.t, hash(spec.m), spec, mayReplace, 1, -1);
      if o.Found? && o.i < ROWS then Take(s, tid, spec, o.i) else s
    case AddDone(tid, ok) =>
      var pc := s.pc[tid];
      s.(t := s.t[pc.i := Settled(s.t[pc.i], pc, ok)], pc := s.pc[tid := Idle])
    case DeleteMark(tid, i) => Mark(s, tid, i, Deleting(i))
    case DeleteDone(tid) => s.(t := s.t[s.pc[tid].i := EMPTY], pc := s.pc[tid := Idle])
    case RestoreMark(tid, i) => Mark(s, tid, i, Restoring(i))
    case RestoreDone(tid) =>
      var i := s.pc[tid].i;
      s.(t := s.t[i := s.t[i].(busy := false)], pc := s.pc[tid := Idle])
    case RestoreRefused(tid) => s.(pc := s.pc[tid := Idle])
    case SetOld(i, b) => if s.t[i].spec.None? then s else s.(t := s.t[i := s.t[i].(autoOld := b)])
  }

  // ---------------------------------------------------------------- invariant

  ghost predicate InOwnWindow(t: seq<Entry>, hash: Match -> u32) {
    forall i :: 0 <= i < |t| && t[i].spec.Some? ==> InWindow(hash(t[i].spec.value.m), i)
  }

  /** A thread waiting for the firmware owns a busy row, alone, and an add's row holds its match. */
  ghost predicate Owned(s: State) {
    && (forall k :: 0 <= k < |s.pc| && s.pc[k] != Idle ==>
          s.pc[k].i < |s.t| && s.t[s.pc[k].i].busy && s.t[s.pc[k].i].spec.Some?)
    && (forall k :: 0 <= k < |s.pc| && s.pc[k].Adding? ==> s.t[s.pc[k].i].spec.value.m == s.pc[k].spec.m)
    && (forall j, k :: 0 <= j < k < |s.pc| && s.pc[j] != Idle && s.pc[k] != Idle ==> s.pc[j].i != s.pc[k].i)
  }

  ghost predicate Inv(s: State, hash: Match -> u32) {
    |s.t| == ROWS && InOwnWindow(s.t, hash) && Unique(s.t) && Owned(s)
  }

  lemma ExclusiveIsSeen(t: seq<Entry>, hash: Match -> u32, spec: Spec, j: nat)
    requires |t| == ROWS && InOwnWindow(t, hash) && j < ROWS
    ensures t[j].spec.Some? && t[j].spec.value.m == spec.m && Exclusive(spec.m) ==>
      ConflictFrom(t, hash(spec.m), spec, 1)
  {
    if t[j].spec.Some? && t[j].spec.value.m == spec.m && Exclusive(spec.m) {
      var d :| Depth(d) && Slot(hash(spec.m), d) == j;
      assert Conflict(t[Slot(hash(spec.m), d)], spec);
    }
  }

  /** A row that holds the filter already, or is free while no other row holds an exclusive equal one,
      may be taken. */
  lemma TakeIsSafe(s: State, tid: nat, spec: Spec, i: nat, hash: Match -> u32)
    requires Inv(s, hash) && tid < |s.pc| && s.pc[tid] == Idle && i < ROWS && InWindow(hash(spec.m), i)
    requires if s.t[i].spec.Some? then !s.t[i].busy && s.t[i].spec.value.m == spec.m
             else Exclusive(spec.m) ==> forall j :: 0 <= j < ROWS && s.t[j].spec.Some? ==> s.t[j].spec.value.m != spec.m
    ensures Inv(Take(s, tid, spec, i), hash)
  {
    hide InWindow, Exclusive;
  }

  lemma TakeKeepsInv(s: State, tid: nat, spec: Spec, mayReplace: bool, hash: Match -> u32)
    requires Inv(s, hash) && tid < |s.pc| && s.pc[tid] == Idle
    ensures Inv(Next(s, AddScan(tid, spec, mayReplace), hash), hash)
  {
    hide Take, Unique, Owned, Exclusive, Scan, Slot, InWindow;
    var h := hash(spec.m);
    ScanMeaning(s.t, h, spec, mayReplace, 1, -1);
    var o := Scan(s.t, h, spec, mayReplace, 1, -1);
    if o.Found? {
      if ConflictFrom(s.t, h, spec, 1) {
        var d :| 1 <= d && Depth(d) && Decided(s.t[Slot(h, d)], spec, mayReplace, o, Slot(h, d));
      } else {
        forall j | 0 <= j < ROWS && s.t[j].spec.Some? && s.t[j].spec.value.m == spec.m
          ensures !Exclusive(spec.m)
        {
          ExclusiveIsSeen(s.t, hash, spec, j);
        }
      }
      TakeIsSafe(s, tid, spec, o.i, hash);
    }
  }

  /** Rows that are freed or keep their match keep the windows and the uniqueness. */
  lemma UpdateKeepsMatches(t: seq<Entry>, hash: Match -> u32, i: nat, e: Entry)
    requires |t| == ROWS && InOwnWindow(t, hash) && Unique(t) && i < ROWS
    requires e.spec.Some? ==> t[i].spec.Some? && e.spec.value.m == t[i].spec.value.m
    ensures InOwnWindow(t[i := e], hash) && Unique(t[i := e])
  {
    hide InWindow, Exclusive;
  }

  /** A thread that leaves gives up its row, whatever becomes of it. */
  lemma LeaveKeepsOwned(s: State, tid: nat, e: Entry)
    requires Owned(s) && tid < |s.pc| && s.pc[tid] != Idle && s.pc[tid].i < |s.t|
    ensures Owned(State(s.t[s.pc[tid].i := e], s.pc[tid := Idle]))
  {
  }

  lemma MarkKeepsOwned(s: State, tid: nat, i: nat, pc: Pc)
    requires Owned(s) && |s.t| == ROWS && tid < |s.pc| && s.pc[tid] == Idle && i < ROWS
    requires pc == Deleting(i) || pc == Restoring(i)
    ensures Owned(Mark(s, tid, i, pc))
  {
  }

  lemma SetOldKeepsOwned(s: State, i: nat, b: bool)
    requires Owned(s) && i < |s.t| && s.t[i].spec.Some?
    ensures Owned(s.(t := s.t[i := s.t[i].(autoOld := b)]))
  {
  }

  lemma OwnedRow(s: State, tid: nat)
    requires Owned(s) && tid < |s.pc| && s.pc[tid] != Idle
    ensures s.pc[tid].i < |s.t| && s.t[s.pc[tid].i].busy && s.t[s.pc[tid].i].spec.Some?
    ensures s.pc[tid].Adding? ==> s.t[s.pc[tid].i].spec.value.m == s.pc[tid].spec.m
  {
  }

  /** What a thread that waited for the firmware makes of its row. */
  function RowAfter(s: State, step: Step): Entry
    requires Enabled(s, step) && (step.AddDone? || step.DeleteDone? || step.RestoreDone? || step.RestoreRefused?)
  {
    var e := s.t[s.pc[step.tid].i];
    match step
    case AddDone(tid, ok) => Settled(e, s.pc[tid], ok)
    case DeleteDone(_) => EMPTY
    case RestoreDone(_) => e.(busy := false)
    case RestoreRefused(_) => e
  }

  lemma LeaveKeepsInv(s: State, step: Step, hash: Match -> u32)
    requires Inv(s, hash) && Enabled(s, step)
    requires step.AddDone? || step.DeleteDone? || step.RestoreDone? || step.RestoreRefused?
    ensures Inv(Next(s, step, hash), hash)
  {
    hide Owned, Unique, InOwnWindow;
    var e, i := RowAfter(s, step), s.pc[step.tid].i;
    OwnedRow(s, step.tid);
    UpdateKeepsMatches(s.t, hash, i, e);
    LeaveKeepsOwned(s, step.tid, e);
    assert s.t[i := s.t[i]] == s.t;
  }

  lemma MarkKeepsInv(s: State, tid: nat, i: nat, pc: Pc, hash: Match -> u32)
    requires Inv(s, hash) && tid < |s.pc| && s.pc[tid] == Idle && i < ROWS
    requires pc == Deleting(i) || pc == Restoring(i)
    ensures Inv(Mark(s, tid, i, pc), hash)
  {
    hide Owned, Unique, InOwnWindow;
    MarkKeepsOwned(s, tid, i, pc);
    UpdateKeepsMatches(s.t, hash, i, s.t[i].(busy := true));
  }

  lemma SetOldKeepsInv(s: State, i: nat, b: bool, hash: Match -> u32)
    requires Inv(s, hash) && i < ROWS && s.t[i].spec.Some?
    ensures Inv(s.(t := s.t[i := s.t[i].(autoOld := b)]), hash)
  {
    hide Owned, Unique, InOwnWindow;
    SetOldKeepsOwned(s, i, b);
    UpdateKeepsMatches(s.t, hash, i, s.t[i].(autoOld := b));
  }

  lemma StepKeepsInv(s: State, step: Step, hash: Match -> u32)
    requires Inv(s, hash) && Enabled(s, step)
    ensures Inv(Next(s, step, hash), hash)
  {
    hide Inv, Scan, Take, Settled, Mark;
    InvRows(s, hash);
    match step
    case AddScan(tid, spec, mayReplace) => TakeKeepsInv(s, tid, spec, mayReplace, hash);
    case DeleteMark(tid, i) => MarkKeepsInv(s, tid, i, Deleting(i), hash);
    case RestoreMark(tid, i) => MarkKeepsInv(s, tid, i, Restoring(i), hash);
    case SetOld(i, b) =>
      if s.t[i].spec.Some? {
        SetOldKeepsInv(s, i, b, hash);
      }
    case _ => LeaveKeepsInv(s, step, hash);
  }

  lemma InvRows(s: State, hash: Match -> u32)
    ensures Inv(s, hash) ==> |s.t| == ROWS
  {
  }

  ghost predicate Run(steps: seq<Step>, states: seq<State>, hash: Match -> u32) {
    && |states| == |steps| + 1 && |states[0].t| == ROWS
    && (forall i :: 0 <= i < ROWS ==> states[0].t[i] == EMPTY)
    && (forall k :: 0 <= k < |states[0].pc| ==> states[0].pc[k] == Idle)
    && forall k :: 0 <= k < |steps| ==> Enabled(states[k], steps[k]) && states[k + 1] == Next(states[k], steps[k], hash)
  }

  /** In every interleaving of adds, deletes and restores: every stored filter lies in its own
      200-row probe window, and two equal exclusive filters are never in the table. */
  lemma {:induction false} ExclusiveFiltersAreUnique(steps: seq<Step>, states: seq<State>, hash: Match -> u32, k: nat)
    requires Run(steps, states, hash) && k < |states|
    ensures Inv(states[k], hash)
  {
    if k > 0 {
      ExclusiveFiltersAreUnique(steps, states, hash, k - 1);
      StepKeepsInv(states[k - 1], steps[k - 1], hash);
    }
  }

  // ---------------------------------------------------------------- a restore that is refused

  /** A busy row that no thread will come back to. */
  ghost predicate Abandoned(s: State, i: nat) {
    && i < |s.t| && s.t[i].busy && s.t[i].spec.Some?
    && forall k :: 0 <= k < |s.pc| && s.pc[k] != Idle ==> s.pc[k].i != i
  }

  /** That is what a refused restore leaves. */
  lemma RefusedIsAbandoned(s: State, tid: nat, hash: Match -> u32)
    requires Inv(s, hash) && Enabled(s, RestoreRefused(tid))
    ensures Abandoned(Next(s, RestoreRefused(tid), hash), s.pc[tid].i)
  {
  }

  lemma FoundIsNotBusy(t: seq<Entry>, hash: Match -> u32, spec: Spec, mayReplace: bool)
    requires |t| == ROWS
    ensures var o := Scan(t, hash(spec.m), spec, mayReplace, 1, -1);
      o.Found? ==> o.i < ROWS && (t[o.i].spec.Some? ==> !t[o.i].busy)
  {
    hide Scan, Slot, InWindow, Conflict;
    var h := hash(spec.m);
    ScanMeaning(t, h, spec, mayReplace, 1, -1);
    var o := Scan(t, h, spec, mayReplace, 1, -1);
    if o.Found? && ConflictFrom(t, h, spec, 1) {
      var d :| 1 <= d && Depth(d) && Decided(t[Slot(h, d)], spec, mayReplace, o, Slot(h, d));
    }
  }

  lemma StepLeavesAbandoned(s: State, step: Step, hash: Match -> u32, i: nat)
    requires Abandoned(s, i) && Enabled(s, step)
    ensures var s' := Next(s, step, hash); Abandoned(s', i) && s'.t[i].spec == s.t[i].spec
  {
    hide Scan, Settled;
    if step.AddScan? {
      FoundIsNotBusy(s.t, hash, step.spec, step.mayReplace);
    }
  }

  /** It stays so for good: the filter is neither replaced nor deleted in any run from there. */
  lemma {:induction false} AbandonedStays(steps: seq<Step>, states: seq<State>, hash: Match -> u32, i: nat, from: nat, k: nat)
    requires Run(steps, states, hash) && from <= k < |states| && Abandoned(states[from], i)
    ensures Abandoned(states[k], i) && states[k].t[i].spec == states[from].t[i].spec
  {
    if k > from {
      AbandonedStays(steps, states, hash, i, from, k - 1);
      StepLeavesAbandoned(states[k - 1], steps[k - 1], hash, i);
    }
  }

  /** And if it is an exclusive filter, every add of it is told to try again. */
  lemma AbandonedBlocksAdds(s: State, hash: Match -> u32, i: nat, spec: Spec, mayReplace: bool)
    requires Inv(s, hash) && Abandoned(s, i) && Exclusive(spec.m) && s.t[i].spec.value.m == spec.m
    ensures Scan(s.t, hash(spec.m), spec, mayReplace, 1, -1) == Retry
  {
    hide Scan, Slot, InWindow, Exclusive;
    var h := hash(spec.m);
    ScanMeaning(s.t, h, spec, mayReplace, 1, -1);
    ExclusiveIsSeen(s.t, hash, spec, i);
    var d :| 1 <= d && Depth(d) && Decided(s.t[Slot(h, d)], spec, mayReplace, Scan(s.t, h, spec, mayReplace, 1, -1), Slot(h, d));
    assert s.t[Slot(h, d)].spec.Some? && s.t[Slot(h, d)].spec.value.m == spec.m;
    assert Slot(h, d) == i;
  }
}
