/** The transmit deferred packet list as an interleaving of atomic steps (sfxge_tx.c).

    Senders without the queue lock push onto the put stack; the lock holder swaps the put stack
    out, reverses it onto the get list, appends its own packet, and takes packets off the front. */
module DplQueue {
  import opened Options

  datatype Limits = Limits(getMax: nat, putMax: nat)

  /** put is newest first; adding is the packet of a locked add between its swap and its append;
      left is every packet taken off the get list so far. */
  datatype State<P> = State(put: seq<P>, get: seq<P>, adding: Option<P>, left: seq<P>)

  datatype Step<P> =
    | Push(p: P)        // unlocked add: the successful compare-and-swap
    | AddSwap(p: P)     // locked add, up to the swap inside its swizzle
    | AddAppend         // locked add, the append
    | Swizzle
    | Leave             // drain or flush takes the packet at the front

  function Reverse<P>(s: seq<P>): (r: seq<P>)
    ensures |r| == |s|
  {
    if s == [] then [] else Reverse(s[1..]) + [s[0]]
  }

  function Init<P>(): State<P> {
    State([], [], None, [])
  }

  /** A locked add runs to completion before its lock holder does anything else. */
  predicate Enabled<P>(s: State<P>, step: Step<P>) {
    match step
    case Push(_) => true
    case AddAppend => s.adding.Some?
    case Leave => s.adding.None? && s.get != []
    case _ => s.adding.None?
  }

  predicate PushRefused<P>(s: State<P>, lim: Limits) {
    |s.put| + 1 >= lim.putMax
  }

  predicate GetFull<P>(s: State<P>, lim: Limits) {
    |s.get| >= lim.getMax
  }

  function Swizzled<P>(s: State<P>, lim: Limits): State<P> {
    if GetFull(s, lim) then s else s.(get := s.get + Reverse(s.put), put := [])
  }

  function Next<P>(s: State<P>, step: Step<P>, lim: Limits): State<P>
    requires Enabled(s, step)
  {
    match step
    case Push(p) => if PushRefused(s, lim) then s else s.(put := [p] + s.put)
    case AddSwap(p) => if GetFull(s, lim) then s else Swizzled(s, lim).(adding := Some(p))
    case AddAppend => s.(get := s.get + [s.adding.value], adding := None)
    case Swizzle => Swizzled(s, lim)
    case Leave => s.(get := s.get[1..], left := s.left + [s.get[0]])
  }

  /** The packets a step accepts, at the moment its add takes effect. */
  function Accepts<P>(s: State<P>, step: Step<P>, lim: Limits): seq<P> {
    match step
    case Push(p) => if PushRefused(s, lim) then [] else [p]
    case AddSwap(p) => if GetFull(s, lim) then [] else [p]
    case _ => []
  }

  /** The queue the list stands for, front first. */
  function Queue<P>(s: State<P>): seq<P> {
    s.get + (if s.adding.Some? then [s.adding.value] else []) + Reverse(s.put)
  }

  ghost predicate Bounded<P>(s: State<P>, lim: Limits) {
    && (s.put == [] || |s.put| < lim.putMax)
    && |s.get| + (if s.adding.Some? then 1 else 0) <= MaxGet(lim)
    && (s.adding.Some? ==> lim.getMax > 0)
  }

  /** sfxge_tx_dpl_get_pkt_max, for limits of at least one. */
  function MaxGet(lim: Limits): int {
    lim.getMax + (if lim.putMax > 0 then lim.putMax - 1 else 0)
  }

  // ---------------------------------------------------------------- one step

  lemma {:induction false} ReverseConcat<P>(s: seq<P>, t: seq<P>)
    ensures Reverse(s + t) == Reverse(t) + Reverse(s)
  {
    if s == [] {
      assert s + t == t;
    } else {
      assert (s + t)[1..] == s[1..] + t;
      ReverseConcat(s[1..], t);
    }
  }

  lemma ReversePush<P>(p: P, s: seq<P>)
    ensures Reverse([p] + s) == Reverse(s) + [p]
  {
    assert ([p] + s)[1..] == s;
  }

  lemma NothingReversed<P>()
    ensures Reverse<P>([]) == []
  {
  }

  lemma StepKeepsBound<P>(s: State<P>, step: Step<P>, lim: Limits)
    requires Enabled(s, step) && Bounded(s, lim)
    ensures Bounded(Next(s, step, lim), lim)
  {
    hide Reverse;
  }

  /** What a step makes of the queue. */
  lemma StepMovesQueue<P>(s: State<P>, step: Step<P>, lim: Limits)
    requires Enabled(s, step)
    ensures var s' := Next(s, step, lim);
      if step.Leave? then s'.left == s.left + [s.get[0]] && [s.get[0]] + Queue(s') == Queue(s)
      else s'.left == s.left && Queue(s') == Queue(s) + Accepts(s, step, lim)
  {
    hide Reverse;
    NothingReversed<P>();
    match step
    case Push(p) => ReversePush(p, s.put);
    case AddSwap(p) =>
    case AddAppend =>
    case Swizzle =>
    case Leave =>
  }

  /** Each step is one operation of a FIFO queue: an accepted add enqueues at the back, a leave
      dequeues the front, and moving packets between the lists changes nothing. */
  lemma StepIsQueueOperation<P>(s: State<P>, step: Step<P>, lim: Limits)
    requires Enabled(s, step) && Bounded(s, lim)
    ensures var s' := Next(s, step, lim);
      && Bounded(s', lim)
      && s'.left + Queue(s') == s.left + Queue(s) + Accepts(s, step, lim)
      && s.left <= s'.left
  {
    StepKeepsBound(s, step, lim);
    StepMovesQueue(s, step, lim);
    hide Next, Queue, Bounded, Reverse;
    var s' := Next(s, step, lim);
    if step.Leave? {
      assert s.left + ([s.get[0]] + Queue(s')) == (s.left + [s.get[0]]) + Queue(s');
    }
  }

  // ---------------------------------------------------------------- whole runs

  /** s is reached from the empty list by the steps, in any interleaving the lock allows. */
  ghost predicate Run<P>(steps: seq<Step<P>>, states: seq<State<P>>, lim: Limits) {
    && |states| == |steps| + 1 && states[0] == Init()
    && forall k :: 0 <= k < |steps| ==> Enabled(states[k], steps[k]) && states[k + 1] == Next(states[k], steps[k], lim)
  }

  /** The accepted packets in the order in which their adds took effect. */
  function Accepted<P>(steps: seq<Step<P>>, states: seq<State<P>>, lim: Limits): seq<P>
    requires |states| == |steps| + 1
  {
    if steps == [] then []
    else
      var n := |steps| - 1;
      Accepted(steps[..n], states[..n + 1], lim) + Accepts(states[n], steps[n], lim)
  }

  /** In every interleaving: packets leave in the order their adds took effect, none is lost or
      repeated, and both lists stay within their limits. */
  lemma {:induction false} RunsAreFifo<P>(steps: seq<Step<P>>, states: seq<State<P>>, lim: Limits)
    requires Run(steps, states, lim)
    ensures var s := states[|steps|];
      s.left + Queue(s) == Accepted(steps, states, lim) && Bounded(s, lim)
  {
    var n := |steps| - 1;
    if steps != [] {
      RunsAreFifo(steps[..n], states[..n + 1], lim);
      StepIsQueueOperation(states[n], steps[n], lim);
    }
  }

  /** The packets that have left are the first accepted ones, in order; once the lists are empty
      they are all of them. */
  lemma {:induction false} DepartureOrder<P>(steps: seq<Step<P>>, states: seq<State<P>>, lim: Limits)
    requires Run(steps, states, lim)
    ensures var s := states[|steps|];
      && s.left <= Accepted(steps, states, lim)
      && (Queue(s) == [] ==> s.left == Accepted(steps, states, lim))
      && (lim.putMax > 0 ==> |s.put| < lim.putMax && |s.get| <= lim.getMax + lim.putMax - 1)
  {
    RunsAreFifo(steps, states, lim);
  }

  /** With a put limit of zero the documented maximum of the get list is wrong: nothing can be
      pushed, yet locked adds fill the get list one past getMax + putMax - 1. */
  lemma NoPutLimitBreaksBound<P>(lim: Limits, p: P) returns (steps: seq<Step<P>>, states: seq<State<P>>)
    requires lim.putMax == 0
    ensures Run(steps, states, lim)
    ensures |states[|steps|].get| > lim.getMax + lim.putMax - 1
  {
    steps, states := [], [Init()];
    var n := 0;
    while n < lim.getMax
      invariant 0 <= n <= lim.getMax && Run(steps, states, lim)
      invariant var s := states[|steps|]; s.put == [] && s.adding == None && |s.get| == n
    {
      var s := states[|steps|];
      var s1 := Next(s, AddSwap(p), lim);
      assert s.get + Reverse(s.put) == s.get;
      var s2 := Next(s1, AddAppend, lim);
      steps, states := steps + [AddSwap(p), AddAppend], states + [s1, s2];
      n := n + 1;
    }
  }

  /** So the documented maximum holds in every run exactly when the put limit is positive. */
  lemma DocumentedBound<P(!new)>(lim: Limits, p: P)
    ensures lim.putMax > 0 <==>
      forall steps: seq<Step<P>>, states: seq<State<P>> {:trigger Run(steps, states, lim)} ::
        Run(steps, states, lim) ==> |states[|steps|].get| <= lim.getMax + lim.putMax - 1
  {
    if lim.putMax > 0 {
      forall steps: seq<Step<P>>, states: seq<State<P>> | Run(steps, states, lim)
        ensures |states[|steps|].get| <= lim.getMax + lim.putMax - 1
      {
        DepartureOrder(steps, states, lim);
      }
    } else {
      var steps, states := NoPutLimitBreaksBound(lim, p);
    }
  }
}
