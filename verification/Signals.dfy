/**
 * The signal controller: a mode behind a lock and a sticky cancellation flag, shared by the main
 * thread and any number of signal handlers.
 */
module Signals {
  datatype Mode = Normal | Delete | Reclaim | Swap

  datatype Action = Continue | InterruptStatement | AbortImmediately | Deferred

  /** What the lock protects, with the flag. */
  datatype Control = Control(mode: Mode, cancelled: bool, handle: bool)

  /** A handler's decision under the lock. */
  function Note(c: Control): (Control, Action) {
    var next := c.(cancelled := true);
    match c.mode
    case Swap => (next, Deferred)
    case Reclaim => (next, InterruptStatement)
    case Delete | Normal => (next, if c.cancelled then AbortImmediately else Continue)
  }

  class SignalController {
    var mode: Mode
    var cancelled: bool
    var handle: bool    // an interrupt handle is registered

    constructor ()
      ensures State() == Control(Normal, false, false)
    {
      mode, cancelled, handle := Normal, false, false;
    }

    function State(): Control
      reads this
    {
      Control(mode, cancelled, handle)
    }

    method SetInterruptHandle()
      modifies this
      ensures State() == old(State()).(handle := true)
    {
      handle := true;
    }

    method BeginDelete()
      modifies this
      ensures State() == old(State()).(mode := Delete)
    {
      mode := Delete;
    }

    method BeginReclaim()
      modifies this
      ensures State() == old(State()).(mode := Reclaim)
    {
      mode := Reclaim;
    }

    method NoteSignal() returns (action: Action)
      modifies this
      ensures (State(), action) == Note(old(State()))
      // the flag is set; the swap only defers, a reclaim interrupts, and elsewhere the second signal ends the process
      ensures cancelled && mode == old(mode) && handle == old(handle)
      ensures action.Deferred? <==> mode.Swap?
      ensures action.InterruptStatement? <==> mode.Reclaim?
      ensures action.AbortImmediately? <==> (mode.Normal? || mode.Delete?) && old(cancelled)
      ensures action.Continue? <==> (mode.Normal? || mode.Delete?) && !old(cancelled)
    {
      if mode.Swap? {
        cancelled := true;
        return Deferred;
      }
      var before := cancelled;
      cancelled := true;
      if before {
        match mode
        case Delete | Normal => return AbortImmediately;
        case Reclaim => return InterruptStatement;
      }
      action := if mode.Reclaim? then InterruptStatement else Continue;
    }

    /** Enters the swap unless a signal was seen already. */
    method Enter() returns (ok: bool)
      modifies this
      ensures ok <==> !old(cancelled)
      ensures State() == if ok then old(State()).(mode := Swap) else old(State())
    {
      if cancelled {
        return false;
      }
      mode := Swap;
      ok := true;
    }

    method Leave()
      modifies this
      ensures State() == old(State()).(mode := Reclaim)
    {
      mode := Reclaim;
    }
  }

  /** Where the main thread stands. A run need not reach every point. */
  datatype Main = Preparing | Deleting | Reclaiming | Swapping | Left | Refused

  /**
   * The process: the controller, the main thread, the actions handlers have decided on but not yet
   * carried out, and what they have done. `deferred` counts the signals of the swap.
   */
  datatype Process = Process(control: Control, main: Main, pending: multiset<Action>, exited: bool, interrupts: nat, deferred: nat)

  const START := Process(Control(Normal, false, false), Preparing, multiset{}, false, 0, 0)

  datatype Event = Handle | StartDeleting | StartReclaiming | TryEnter | Finish | Signal | Act(action: Action)

  /** One atomic step, of the main thread or of a handler. */
  ghost predicate Step(p: Process, e: Event, q: Process) {
    !p.exited &&
    match e
    case Handle => p.main.Preparing? && q == p.(control := p.control.(handle := true))
    case StartDeleting => p.main.Preparing? && q == p.(control := p.control.(mode := Delete), main := Deleting)
    // a vacuum reclaims without deleting, a cleanup announces it twice
    case StartReclaiming =>
      (p.main.Preparing? || p.main.Deleting? || p.main.Reclaiming?) && q == p.(control := p.control.(mode := Reclaim), main := Reclaiming)
    case TryEnter =>
      p.main.Reclaiming? &&
      q == if p.control.cancelled then p.(main := Refused) else p.(control := p.control.(mode := Swap), main := Swapping)
    case Finish => p.main.Swapping? && q == p.(control := p.control.(mode := Reclaim), main := Left)
    case Signal =>
      var (next, action) := Note(p.control);
      q == p.(control := next, pending := p.pending + multiset{action},
              deferred := if p.main.Swapping? then p.deferred + 1 else p.deferred)
    case Act(action) =>
      action in p.pending &&
      q == p.(pending := p.pending - multiset{action}, exited := action.AbortImmediately?,
              interrupts := if action.InterruptStatement? && p.control.handle then p.interrupts + 1 else p.interrupts)
  }

  /** A run of the process: consecutive states from the start. */
  ghost predicate IsRun(run: seq<Process>, events: seq<Event>) {
    |run| == |events| + 1 && run[0] == START && forall i | 0 <= i < |events| :: Step(run[i], events[i], run[i + 1])
  }

  ghost predicate Invariant(p: Process) {
    && (p.control.mode == match p.main
                          case Preparing => Normal
                          case Deleting => Delete
                          case Reclaiming | Left | Refused => Reclaim
                          case Swapping => Swap)
    // before the flag is set no handler has decided anything
    && (!p.control.cancelled ==> p.pending == multiset{} && !p.exited)
    // in the swap nothing but deferred signals is pending, and afterwards nothing that ends the process
    && (p.main.Swapping? ==> forall a :: a in p.pending ==> a.Deferred?)
    && (p.main.Swapping? || p.main.Left? ==> AbortImmediately !in p.pending && !p.exited)
    && (p.deferred > 0 ==> p.control.cancelled && (p.main.Swapping? || p.main.Left?))
  }

  lemma SignalKeeps(p: Process, q: Process)
    requires Invariant(p) && Step(p, Signal, q)
    ensures Invariant(q)
  {
    var action := Note(p.control).1;
    assert forall a :: a in q.pending <==> a in p.pending || a == action;
  }

  lemma ActKeeps(p: Process, action: Action, q: Process)
    requires Invariant(p) && Step(p, Act(action), q)
    ensures Invariant(q)
  {
    assert forall a :: a in q.pending ==> a in p.pending;
  }

  lemma StepKeeps(p: Process, e: Event, q: Process)
    requires Invariant(p) && Step(p, e, q)
    ensures Invariant(q)
  {
    match e
    case Signal => SignalKeeps(p, q);
    case Act(action) => ActKeeps(p, action, q);
    case _ => assert q.pending == p.pending;
  }

  lemma {:induction false} RunKeeps(run: seq<Process>, events: seq<Event>, n: nat)
    requires IsRun(run, events) && n < |run|
    ensures Invariant(run[n])
    decreases n
  {
    if n > 0 {
      ghost var m := n - 1;
      RunKeeps(run, events, m);
      assert Step(run[m], events[m], run[m + 1]);
      StepKeeps(run[m], events[m], run[n]);
    }
  }

  ghost predicate InSwap(p: Process) {
    p.main.Swapping? || p.main.Left?
  }

  lemma {:induction false} NeverBack(run: seq<Process>, events: seq<Event>, m: nat, n: nat)
    requires IsRun(run, events) && m <= n < |run| && InSwap(run[m])
    ensures InSwap(run[n]) && (run[m].main.Left? ==> run[n].main.Left?)
    decreases n
  {
    if m < n {
      ghost var k := n - 1;
      NeverBack(run, events, m, k);
      assert Step(run[k], events[k], run[k + 1]);
    }
  }

  /** Once the swap was entered no handler ends the process, in any interleaving. */
  lemma NoExitAfterEnter(run: seq<Process>, events: seq<Event>, m: nat, n: nat)
    requires IsRun(run, events) && m <= n < |run| && run[m].main.Swapping?
    ensures !run[n].exited && AbortImmediately !in run[n].pending
  {
    NeverBack(run, events, m, n);
    RunKeeps(run, events, n);
  }

  /** While the swap is on, no exit and no statement interrupt is pending, and none happens. */
  lemma SwapIsQuiet(run: seq<Process>, events: seq<Event>, n: nat)
    requires IsRun(run, events) && n < |run| && run[n].main.Swapping?
    ensures forall a :: a in run[n].pending ==> a.Deferred?
    ensures n + 1 < |run| ==> run[n + 1].interrupts == run[n].interrupts && !run[n + 1].exited
  {
    RunKeeps(run, events, n);
    if n + 1 < |run| {
      assert Step(run[n], events[n], run[n + 1]);
      RunKeeps(run, events, n + 1);
    }
  }

  lemma {:induction false} CancelledSticks(run: seq<Process>, events: seq<Event>, m: nat, n: nat)
    requires IsRun(run, events) && m <= n < |run| && run[m].control.cancelled
    ensures run[n].control.cancelled
    decreases n
  {
    if m < n {
      ghost var k := n - 1;
      CancelledSticks(run, events, m, k);
      assert Step(run[k], events[k], run[k + 1]);
    }
  }

  /** Every signal that arrived during the swap is still seen as a cancellation after it. */
  lemma DeferredIsSeen(run: seq<Process>, events: seq<Event>, m: nat, n: nat)
    requires IsRun(run, events) && m < n < |run| && run[m].main.Swapping? && events[m].Signal?
    ensures run[n].control.cancelled
  {
    assert Step(run[m], events[m], run[m + 1]);
    CancelledSticks(run, events, m + 1, n);
  }

  /** The swap is entered exactly when no signal arrived before the attempt. */
  lemma EnteredMeansUnsignalled(run: seq<Process>, events: seq<Event>, n: nat)
    requires IsRun(run, events) && n < |events| && events[n].TryEnter?
    ensures run[n + 1].main.Swapping? <==> forall i | 0 <= i < n :: !events[i].Signal?
  {
    assert Step(run[n], events[n], run[n + 1]);
    if i :| 0 <= i < n && events[i].Signal? {
      assert Step(run[i], events[i], run[i + 1]);
      CancelledSticks(run, events, i + 1, n);
    } else {
      Unsignalled(run, events, n);
    }
  }

  lemma {:induction false} Unsignalled(run: seq<Process>, events: seq<Event>, n: nat)
    requires IsRun(run, events) && n < |run| && forall i | 0 <= i < n :: !events[i].Signal?
    ensures !run[n].control.cancelled
    decreases n
  {
    if n > 0 {
      ghost var k := n - 1;
      Unsignalled(run, events, k);
      assert Step(run[k], events[k], run[k + 1]);
    }
  }
}
