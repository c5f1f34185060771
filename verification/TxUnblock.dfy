/** The block/unblock protocol between a sender that finds the transmit ring full and the event
    thread that completes descriptors (sfxge_tx.c, sfxge_ev.c).

    The two threads interleave at every access to a shared field.  The four ring counters are kept
    unbounded here; every comparison the code makes is made on their 32-bit values. */
module TxUnblock {
  import opened Words
  import opened TxSizes

  datatype Holder = Free | Sender | Event

  /** Where the holder of the queue lock stands in sfxge_tx_qlist_post. */
  datatype PostPc =
    | Outside   // not in it
    | Post      // label again
    | Full      // no room: about to read completed
    | Enough    // room once reaped: about to read completed again
    | Reap      // about to reap, then again
    | Mark      // about to set the unblock level
    | Check     // level set: about to compare pending with added
    | Reap2     // about to reap after that
    | Clear     // about to reset the unblock level, then again

  /** Where the event thread stands. */
  datatype EventPc =
    | Idle              // between events
    | Completing        // in sfxge_tx_qcomplete, about to store completed
    | LoadUnblock       // about to test the unblock level
    | LoadAdded         // queue seen blocked: about to read added
    | Compare(a: nat)   // about to compare the level with the unblock level
    | WantLock          // in sfxge_tx_qunblock, about to take the lock
    | Recheck           // holding the lock, about to test again
    | InLock            // holding the lock, posting or servicing

  datatype State = State(added: nat, pending: nat, completed: nat, reaped: nat, n: nat, unblock: int,
                         lock: Holder, post: PostPc, ev: EventPc, listed: bool)

  datatype Step =
    | Acquire            // a sender takes the lock
    | Fragment(k: nat)   // the lock holder fragments a packet into k descriptors
    | Holding            // the lock holder's next step inside sfxge_tx_qlist_post
    | Release            // the lock holder drops the lock
    | TxEvent(d: nat)    // sfxge_ev_tx: the hardware has completed d more descriptors
    | PollEnd            // sfxge_ev_qcomplete at the end of a poll
    | EventThread        // the event thread's next step inside sfxge_tx_qcomplete

  function Diff(x: nat, y: nat): u32 {
    Sub32(Wrap32(x), Wrap32(y))
  }

  /** The unblock level as the unsigned operand it becomes in a comparison. */
  function Unsigned(level: int): u32 {
    Wrap32(level)
  }

  function Init(start: nat): State {
    State(start, start, start, start, 0, NOT_BLOCKED, Free, Outside, Idle, false)
  }

  predicate Enabled(s: State, step: Step) {
    match step
    case Acquire => s.lock == Free
    case Fragment(k) => s.lock != Free && s.ev != Recheck && s.post == Outside
                        && s.unblock == NOT_BLOCKED && 1 <= k <= LIMIT
    case Holding => s.post != Outside
    case Release => s.lock != Free && s.ev != Recheck && s.post == Outside
    case TxEvent(d) => s.ev == Idle && 1 <= d && s.pending + d <= s.added
    case PollEnd => s.ev == Idle && s.listed
    case EventThread => s.ev != Idle && s.ev != InLock && (s.ev == WantLock ==> s.lock == Free)
  }

  /** One step of sfxge_tx_qlist_post by the lock holder. */
  function HoldingStep(s: State): State
    requires s.post != Outside
  {
    match s.post
    case Post =>
      var available := Sub32(LIMIT, Diff(s.added, s.reaped));
      if available < s.n then s.(post := Full)
      else s.(added := s.added + s.n, n := 0, post := Outside)
    case Full =>
      var available := Sub32(LIMIT, Diff(s.added, s.completed));
      s.(post := if s.n <= available then Enough else Mark)
    case Enough =>
      s.(post := if Diff(s.completed, s.reaped) >= BATCH then Reap else Mark)
    case Reap => s.(reaped := s.completed, post := Post)
    case Mark => s.(unblock := if s.unblock == NOT_BLOCKED then LEVEL1 else LEVEL2, post := Check)
    case Check => s.(post := if Wrap32(s.pending) == Wrap32(s.added) then Reap2 else Outside)
    case Reap2 => s.(reaped := s.completed, post := Clear)
    case Clear => s.(unblock := NOT_BLOCKED, post := Post)
  }

  /** One step of sfxge_tx_qcomplete and sfxge_tx_qunblock by the event thread. */
  function EventStep(s: State): State
    requires s.ev != Idle && s.ev != InLock
  {
    match s.ev
    case Completing => s.(completed := s.pending, ev := LoadUnblock)
    case LoadUnblock => s.(ev := if s.unblock != NOT_BLOCKED then LoadAdded else Idle)
    case LoadAdded => s.(ev := Compare(s.added))
    case Compare(a) => s.(ev := if Diff(a, s.completed) <= Unsigned(s.unblock) then WantLock else Idle)
    case WantLock => s.(lock := Event, ev := Recheck)
    case Recheck =>
      if s.unblock != NOT_BLOCKED && Diff(s.added, s.completed) <= Unsigned(s.unblock)
      then s.(unblock := NOT_BLOCKED, post := Post, ev := InLock)
      else s.(ev := InLock)
  }

  function Next(s: State, step: Step): State
    requires Enabled(s, step)
  {
    match step
    case Acquire => s.(lock := Sender)
    case Fragment(k) => s.(n := k, post := Post)
    case Holding => HoldingStep(s)
    case Release => s.(lock := Free, ev := if s.lock == Event then Idle else s.ev)
    case TxEvent(d) =>
      var pending := s.pending + d;
      s.(pending := pending, listed := true,
         ev := if Diff(pending, s.completed) >= BATCH then Completing else Idle)
    case PollEnd => s.(listed := false, ev := if s.pending != s.completed then Completing else Idle)
    case EventThread => EventStep(s)
  }

  // ---------------------------------------------------------------- invariant

  /** A blocked queue at rest, all of whose descriptors have completed. */
  predicate Stranded(s: State) {
    s.post == Outside && s.unblock != NOT_BLOCKED && s.pending == s.added
  }

  /** The event thread has yet to make its unblock check for the last completion. */
  predicate CheckAhead(s: State) {
    || (s.ev == Idle && s.listed && s.pending != s.completed)
    || s.ev == Completing || s.ev == LoadUnblock || s.ev == LoadAdded || s.ev.Compare?
    || s.ev == WantLock || s.ev == Recheck
  }

  predicate Ring(s: State) {
    s.reaped <= s.completed <= s.pending <= s.added <= s.reaped + LIMIT && s.n <= LIMIT
  }

  predicate Inv(s: State) {
    && Ring(s)
    && (s.unblock == NOT_BLOCKED || s.unblock == LEVEL1)
    && (s.lock == Free ==> s.post == Outside)
    && (s.lock == Event <==> s.ev == Recheck || s.ev == InLock)
    && (s.ev == Recheck ==> s.post == Outside)
    && (s.post == Outside ==> (s.n > 0 <==> s.unblock != NOT_BLOCKED))
    && (s.post != Outside ==> s.n > 0 && (s.unblock != NOT_BLOCKED <==> s.post in {Check, Reap2, Clear}))
    && (s.ev == Idle && s.pending != s.completed ==> s.listed)
    && (s.ev != Idle && s.ev != Completing ==> s.completed == s.pending)
    && (s.ev.Compare? ==> s.pending <= s.ev.a <= s.added)
    && (Stranded(s) ==> CheckAhead(s))
  }

  lemma Distances(s: State)
    requires Ring(s)
    ensures Diff(s.added, s.reaped) == s.added - s.reaped
    ensures Diff(s.added, s.completed) == s.added - s.completed
    ensures Sub32(LIMIT, Diff(s.added, s.reaped)) == LIMIT - (s.added - s.reaped)
    ensures Sub32(LIMIT, Diff(s.added, s.completed)) == LIMIT - (s.added - s.completed)
    ensures Diff(s.completed, s.reaped) == s.completed - s.reaped
    ensures Diff(s.pending, s.completed) == s.pending - s.completed
    ensures Wrap32(s.pending) == Wrap32(s.added) <==> s.pending == s.added
    ensures forall a: nat :: s.pending <= a <= s.added ==> Diff(a, s.completed) == a - s.completed
  {
    hide Diff;
    DiffIs(s.added, s.reaped);
    DiffIs(s.added, s.completed);
    DiffIs(s.completed, s.reaped);
    DiffIs(s.pending, s.completed);
    DiffIs(s.added, s.pending);
    forall a: nat | s.pending <= a <= s.added
      ensures Diff(a, s.completed) == a - s.completed
    {
      DiffIs(a, s.completed);
    }
  }

  lemma DiffIs(x: nat, y: nat)
    requires y <= x <= y + LIMIT
    ensures Diff(x, y) == x - y && Sub32(LIMIT, x - y) == LIMIT - (x - y)
    ensures Wrap32(x) == Wrap32(y) <==> x == y
  {
    SameCounter(x, y);
  }

  lemma HoldingKeepsInv(s: State)
    requires Inv(s) && s.post != Outside
    ensures Inv(HoldingStep(s))
  {
    Distances(s);
    hide Diff, Sub32, Wrap32, Unsigned;
    match s.post
    case Post =>
    case Mark =>
    case Check =>
    case Clear =>
    case _ =>
  }

  lemma EventKeepsInv(s: State)
    requires Inv(s) && s.ev != Idle && s.ev != InLock && (s.ev == WantLock ==> s.lock == Free)
    ensures Inv(EventStep(s))
  {
    Distances(s);
    hide Diff;
  }

  lemma StepKeepsInv(s: State, step: Step)
    requires Inv(s) && Enabled(s, step)
    ensures Inv(Next(s, step))
  {
    hide Diff, HoldingStep, EventStep;
    match step
    case TxEvent(d) => CounterDistance(s.pending + d, s.completed);
    case Holding => HoldingKeepsInv(s);
    case EventThread => EventKeepsInv(s);
    case _ =>
  }

  // ---------------------------------------------------------------- runs

  ghost predicate Run(steps: seq<Step>, states: seq<State>) {
    && |states| == |steps| + 1 && (exists start :: states[0] == Init(start))
    && forall k :: 0 <= k < |steps| ==> Enabled(states[k], steps[k]) && states[k + 1] == Next(states[k], steps[k])
  }

  lemma {:induction false} RunKeepsInv(steps: seq<Step>, states: seq<State>, k: nat)
    requires Run(steps, states) && k < |states|
    ensures Inv(states[k])
  {
    if k > 0 {
      RunKeepsInv(steps, states, k - 1);
      StepKeepsInv(states[k - 1], steps[k - 1]);
    }
  }

  /** No lost wakeup, in every interleaving: a queue that rests blocked with nothing outstanding
      still has the event thread's check ahead of it; so once the event thread has finished its
      poll such a queue is never blocked.  And the second unblock level is never reached. */
  lemma NoLostWakeup(steps: seq<Step>, states: seq<State>, k: nat)
    requires Run(steps, states) && k < |states|
    ensures var s := states[k];
      && (Stranded(s) ==> CheckAhead(s))
      && (s.lock == Free && s.ev == Idle && !s.listed && s.pending == s.added ==> s.unblock == NOT_BLOCKED && s.n == 0)
      && s.unblock != LEVEL2
  {
    RunKeepsInv(steps, states, k);
  }

  // ---------------------------------------------------------------- one round of sfxge_tx_qlist_post

  /** Steps of the lock holder to the next goto again, or to the end, at most. */
  function StepsLeft(pc: PostPc): nat {
    match pc
    case Outside => 0
    case Post => 6
    case Full => 5
    case Enough => 4
    case Mark => 3
    case Check => 2
    case Reap2 => 1
    case Reap => 0
    case Clear => 0
  }

  /** The lock holder's steps from the label again to the next goto again, or to the end, when the event
      thread does nothing meanwhile. */
  function Settled(s: State): State
    requires s.post != Outside
    decreases StepsLeft(s.post)
  {
    var t := HoldingStep(s);
    if t.post == Outside || t.post == Post then t else Settled(t)
  }

  lemma Unfold(s: State)
    requires s.post != Outside
    ensures Settled(s) == var t := HoldingStep(s); if t.post == Outside || t.post == Post then t else Settled(t)
  {
  }

  lemma BlockMeaning(s: State)
    requires Inv(s) && s.post == Mark
    ensures Settled(s) == if s.pending == s.added then s.(reaped := s.completed, post := Post)
                          else s.(unblock := LEVEL1, post := Outside)
  {
    hide Settled, Diff, Sub32, Wrap32, Unsigned;
    Distances(s);
    Unfold(s);
    var check := HoldingStep(s);
    Unfold(check);
    if s.pending == s.added {
      var reap := HoldingStep(check);
      Unfold(reap);
      Unfold(HoldingStep(reap));
    }
  }

  lemma MarkIsInv(s: State)
    requires Inv(s) && s.post == Full
    ensures Inv(s.(post := Mark)) && Ring(s)
  {
  }

  lemma FullMeaning(s: State)
    requires Inv(s) && s.post == Full
    ensures var mark := s.(post := Mark);
      Inv(mark) && Settled(s) ==
        if s.added - s.completed + s.n <= LIMIT && s.completed - s.reaped >= BATCH then s.(reaped := s.completed, post := Post)
        else Settled(mark)
  {
    hide Settled, Diff, Sub32, Wrap32, Unsigned, Inv;
    MarkIsInv(s);
    Distances(s);
    Unfold(s);
    var enough := HoldingStep(s);
    if enough.post == Enough {
      Unfold(enough);
      var reap := HoldingStep(enough);
      if reap.post == Reap {
        Unfold(reap);
      }
    }
  }

  /** A list that fits is posted.  Otherwise the round reaps and goes again if that makes room and is worth
      it, or if the ring is empty; else it leaves the queue blocked. */
  lemma SettledMeaning(s: State)
    requires Inv(s) && s.post == Post
    ensures Settled(s) ==
      if s.added - s.reaped + s.n <= LIMIT then s.(added := s.added + s.n, n := 0, post := Outside)
      else if (s.added - s.completed + s.n <= LIMIT && s.completed - s.reaped >= BATCH) || s.pending == s.added
      then s.(reaped := s.completed)
      else s.(unblock := LEVEL1, post := Outside)
  {
    hide Settled, Diff, Sub32, Wrap32, Unsigned;
    Distances(s);
    Unfold(s);
    var full := s.(post := Full);
    if s.added - s.reaped + s.n > LIMIT {
      FullMeaning(full);
      BlockMeaning(full.(post := Mark));
    }
  }

  // ---------------------------------------------------------------- the check does unblock

  /** The event thread's next step when no sender interferes; one that has the lock lets go of it first. */
  function Alone(s: State): Step {
    if s.lock == Sender then Release
    else if s.ev == Idle then PollEnd else if s.ev == InLock then Holding else EventThread
  }

  /** Steps left until the parked list has been posted, at most. */
  function Remaining(s: State): nat {
    if s.lock == Sender then 21 else match s.ev
    case Idle => 20
    case Completing => 19
    case LoadUnblock => 18
    case LoadAdded => 17
    case Compare(_) => 16
    case WantLock => 15
    case Recheck => 14
    case InLock =>
      match s.post
      case Outside => 0
      case Post => if s.reaped == s.completed then 5 else 13
      case Full => 12
      case Enough => 11
      case Mark => 10
      case Check => 9
      case Reap2 => 8
      case Clear => 7
      case Reap => 6
  }

  /** On the way: still stranded, or inside the event thread's post with everything completed. */
  predicate Recovering(s: State, s0: State) {
    && Inv(s) && s.added == s.pending == s0.added && s.n == s0.n && s.n > 0
    && (s.post in {Clear} ==> s.reaped == s.completed)
    && (if s.ev == InLock then s.post != Outside else Stranded(s))
  }

  lemma RecoveryStep(s: State, s0: State)
    requires Recovering(s, s0)
    ensures Enabled(s, Alone(s))
    ensures var t := Next(s, Alone(s));
      if Recovering(t, s0) then Remaining(t) < Remaining(s)
      else t.unblock == NOT_BLOCKED && t.n == 0 && t.added == s0.added + s0.n
  {
    StepKeepsInv(s, Alone(s));
    Distances(s);
    hide Diff, Sub32, Wrap32;
    if s.ev == InLock {
      match s.post
      case Post =>
      case Full =>
      case _ =>
    }
  }

  ghost predicate AloneRun(states: seq<State>) {
    forall k :: 0 <= k < |states| - 1 ==>
      Enabled(states[k], Alone(states[k])) && states[k + 1] == Next(states[k], Alone(states[k]))
  }

  /** From any stranded queue the event thread alone gets to its check, resets the unblock level
      and posts the parked list, which fits because st_n never exceeds the ring limit. */
  lemma EventThreadUnblocks(s0: State) returns (states: seq<State>)
    requires Inv(s0) && Stranded(s0)
    ensures states != [] && states[0] == s0 && AloneRun(states)
    ensures var t := states[|states| - 1];
      t.unblock == NOT_BLOCKED && t.n == 0 && t.added == s0.added + s0.n
  {
    states := [s0];
    var s := s0;
    while Recovering(s, s0)
      invariant states != [] && states[0] == s0 && s == states[|states| - 1] && AloneRun(states)
      invariant Recovering(s, s0) || (s.unblock == NOT_BLOCKED && s.n == 0 && s.added == s0.added + s0.n)
      decreases if Recovering(s, s0) then 1 + Remaining(s) else 0
    {
      RecoveryStep(s, s0);
      s := Next(s, Alone(s));
      states := states + [s];
    }
  }
}
