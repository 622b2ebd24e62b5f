/** The counting semaphore that bounds parallel jobs, and the order in which their results count. */
module Gate {
  import opened Basics

  /**
   * A job of a group. It starts, may wait for a permit, is woken, runs with a permit, and is done.
   * Everything a job does under the lock is one atomic step.
   */
  datatype Phase = Starting | Waiting | Notified | Holding | Done

  datatype State = State(available: nat, phases: seq<Phase>)

  function Permits(jobs: nat, cores: nat): nat {
    var n := if jobs < cores then jobs else cores;
    if n < 1 then 1 else n
  }

  function Initial(jobs: nat, cores: nat): State {
    State(Permits(jobs, cores), seq(jobs, _ => Starting))
  }

  /** The number of jobs in a phase. */
  ghost function Count(phases: seq<Phase>, p: Phase): nat {
    if phases == [] then 0 else Count(phases[1..], p) + if phases[0] == p then 1 else 0
  }

  ghost predicate AnyWaiting(phases: seq<Phase>) {
    exists j | 0 <= j < |phases| :: phases[j].Waiting?
  }

  class Semaphore {
    var available: nat
    var phases: seq<Phase>

    constructor (jobs: nat, cores: nat)
      ensures Current() == Initial(jobs, cores)
      // as many permits as there are cores or jobs, whichever is less, but at least one
      ensures available >= 1 && (cores >= 1 && jobs >= 1 ==> available <= cores && available <= jobs && (available == cores || available == jobs))
      ensures cores == 0 || jobs == 0 ==> available == 1
    {
      available, phases := Permits(jobs, cores), seq(jobs, _ => Starting);
    }

    function Current(): State
      reads this
    {
      State(available, phases)
    }

    /** One turn of the acquiring loop: take a permit, or wait for one. */
    method TryAcquire(j: nat) returns (acquired: bool)
      requires j < |phases| && (phases[j].Starting? || phases[j].Notified?)
      modifies this
      ensures Step(old(Current()), Acquire(j), Current())
      ensures acquired <==> Current().phases[j].Holding?
    {
      if available == 0 {
        phases := phases[j := Waiting];
        return false;
      }
      available, phases := available - 1, phases[j := Holding];
      acquired := true;
    }

    /** Gives the permit back, also when the job panics, and wakes one waiting job if there is one. */
    method Release(j: nat)
      requires j < |phases| && phases[j].Holding?
      modifies this
      ensures exists w: nat :: Step(old(Current()), Drop(j, w), Current())
    {
      available, phases := available + 1, phases[j := Done];
      if w :| 0 <= w < |phases| && phases[w].Waiting? {
        assert old(phases)[w].Waiting?;
        phases := phases[w := Notified];
        assert Step(old(Current()), Drop(j, w), Current());
      } else {
        assert forall k | 0 <= k < |phases| && k != j :: phases[k] == old(phases)[k];
        assert Step(old(Current()), Drop(j, 0), Current());
      }
    }
  }

  /** Steps of the group. A release wakes some waiting job `woken`, or none when none waits. */
  datatype Event = Acquire(job: nat) | Drop(job: nat, woken: nat) | Spurious(job: nat)

  ghost predicate Step(s: State, e: Event, t: State) {
    e.job < |s.phases| &&
    match e
    case Acquire(j) =>
      (s.phases[j].Starting? || s.phases[j].Notified?) &&
      t == if s.available == 0 then s.(phases := s.phases[j := Waiting])
           else State(s.available - 1, s.phases[j := Holding])
    case Drop(j, w) =>
      s.phases[j].Holding? &&
      if AnyWaiting(s.phases)
      then w < |s.phases| && s.phases[w].Waiting? && t == State(s.available + 1, s.phases[j := Done][w := Notified])
      else t == State(s.available + 1, s.phases[j := Done])
    case Spurious(j) => s.phases[j].Waiting? && t == s.(phases := s.phases[j := Notified])
  }

  /**
   * Every permit is available or held, and no wake-up is lost: while a job waits, there are no
   * more free permits than jobs already woken for them.
   */
  ghost predicate Invariant(s: State, permits: nat) {
    && s.available + Count(s.phases, Holding) == permits
    && (AnyWaiting(s.phases) ==> s.available <= Count(s.phases, Notified))
  }

  lemma {:induction false} Updated(phases: seq<Phase>, j: nat, p: Phase, q: Phase)
    requires j < |phases|
    ensures Count(phases[j := p], q) == Count(phases, q) - (if phases[j] == q then 1 else 0) + (if p == q then 1 else 0)
    decreases j
  {
    if j == 0 {
      assert phases[j := p][1..] == phases[1..];
    } else {
      assert phases[j := p][1..] == phases[1..][j - 1 := p];
      Updated(phases[1..], j - 1, p, q);
    }
  }

  lemma {:induction false} Present(phases: seq<Phase>, p: Phase)
    ensures Count(phases, p) > 0 <==> exists j | 0 <= j < |phases| :: phases[j] == p
  {
    if phases != [] { Present(phases[1..], p); }
  }

  lemma StepKeeps(s: State, e: Event, t: State, permits: nat)
    requires Invariant(s, permits) && Step(s, e, t)
    ensures Invariant(t, permits) && |t.phases| == |s.phases|
  {
    Counted(s, e, t, Holding);
    Counted(s, e, t, Notified);
    Present(s.phases, Waiting);
    Present(t.phases, Waiting);
    Counted(s, e, t, Waiting);
  }

  /** How a step changes the number of jobs in a phase. */
  lemma Counted(s: State, e: Event, t: State, q: Phase)
    requires Step(s, e, t)
    ensures Count(t.phases, q) == Count(s.phases, q) + Change(s, e, q)
  {
    match e
    case Acquire(j) =>
      Updated(s.phases, j, Waiting, q);
      Updated(s.phases, j, Holding, q);
    case Drop(j, w) =>
      Updated(s.phases, j, Done, q);
      if AnyWaiting(s.phases) { Updated(s.phases[j := Done], w, Notified, q); }
    case Spurious(j) => Updated(s.phases, j, Notified, q);
  }

  function One(b: bool): int {
    if b then 1 else 0
  }

  ghost function Change(s: State, e: Event, q: Phase): int
    requires e.job < |s.phases|
  {
    match e
    case Acquire(j) => One(q == if s.available == 0 then Waiting else Holding) - One(q == s.phases[j])
    case Drop(j, w) => One(q == Done) - One(q == Holding) + if AnyWaiting(s.phases) then One(q == Notified) - One(q == Waiting) else 0
    case Spurious(j) => One(q == Notified) - One(q == Waiting)
  }

  lemma {:induction false} AllStarting(n: nat, p: Phase)
    ensures Count(seq(n, _ => Starting), p) == if p.Starting? then n else 0
  {
    if n > 0 {
      var m := n - 1;
      AllStarting(m, p);
      assert seq(n, _ => Starting)[1..] == seq(m, _ => Starting);
    }
  }

  ghost predicate IsRun(run: seq<State>, events: seq<Event>, jobs: nat, cores: nat) {
    |run| == |events| + 1 && run[0] == Initial(jobs, cores) && forall i | 0 <= i < |events| :: Step(run[i], events[i], run[i + 1])
  }

  /** A bound on the steps left: five for a starting job, four for a notified, three for a waiting and two for a running one. */
  ghost function Remaining(s: State): nat {
    5 * Count(s.phases, Starting) + 4 * Count(s.phases, Notified) + 3 * Count(s.phases, Waiting) + 2 * Count(s.phases, Holding)
  }

  /** Every step but a spurious wake-up brings the group closer to its end. */
  lemma StepShortens(s: State, e: Event, t: State)
    requires Step(s, e, t)
    ensures if e.Spurious? then Remaining(t) == Remaining(s) + 1 else Remaining(t) < Remaining(s)
  {
    Counted(s, e, t, Starting);
    Counted(s, e, t, Notified);
    Counted(s, e, t, Waiting);
    Counted(s, e, t, Holding);
  }

  /** The spurious wake-ups among the first `n` events. */
  ghost function SpuriousCount(events: seq<Event>, n: nat): nat
    requires n <= |events|
  {
    if n == 0 then 0 else SpuriousCount(events, n - 1) + if events[n - 1].Spurious? then 1 else 0
  }

  lemma {:induction false} RunKeeps(run: seq<State>, events: seq<Event>, jobs: nat, cores: nat, n: nat)
    requires IsRun(run, events, jobs, cores) && n <= |events|
    ensures Invariant(run[n], Permits(jobs, cores)) && |run[n].phases| == jobs
    ensures Remaining(run[n]) + (n - SpuriousCount(events, n)) <= 5 * jobs + SpuriousCount(events, n)
    decreases n
  {
    if n == 0 {
      AllStarting(jobs, Starting);
      AllStarting(jobs, Notified);
      AllStarting(jobs, Waiting);
      AllStarting(jobs, Holding);
      Present(run[0].phases, Waiting);
    } else {
      var m := n - 1;
      RunKeeps(run, events, jobs, cores, m);
      assert Step(run[m], events[m], run[m + 1]);
      StepKeeps(run[m], events[m], run[n], Permits(jobs, cores));
      StepShortens(run[m], events[m], run[n]);
    }
  }

  /** In every interleaving at most the permitted number of jobs run at once. */
  lemma AtMostPermits(run: seq<State>, events: seq<Event>, jobs: nat, cores: nat, n: nat)
    requires IsRun(run, events, jobs, cores) && n <= |events|
    ensures run[n].available + Count(run[n].phases, Holding) == Permits(jobs, cores)
    ensures Count(run[n].phases, Holding) <= Permits(jobs, cores) <= if jobs == 0 then 1 else jobs
    ensures Count(run[n].phases, Holding) <= if cores == 0 then 1 else cores
  {
    RunKeeps(run, events, jobs, cores, n);
  }

  /** A run has at most five steps per job, besides spurious wake-ups and one more for each of these. */
  lemma RunsEnd(run: seq<State>, events: seq<Event>, jobs: nat, cores: nat)
    requires IsRun(run, events, jobs, cores)
    ensures |events| - SpuriousCount(events, |events|) <= 5 * jobs + SpuriousCount(events, |events|)
  {
    RunKeeps(run, events, jobs, cores, |events|);
  }

  /** Until all jobs are done, some job can take a step that is not a spurious wake-up. */
  lemma NeverStuck(run: seq<State>, events: seq<Event>, jobs: nat, cores: nat, n: nat) returns (e: Event, t: State)
    requires IsRun(run, events, jobs, cores) && n <= |events| && exists j | 0 <= j < |run[n].phases| :: !run[n].phases[j].Done?
    ensures !e.Spurious? && Step(run[n], e, t)
  {
    var s := run[n];
    RunKeeps(run, events, jobs, cores, n);
    var j: nat :| j < |s.phases| && !s.phases[j].Done?;
    if k: nat :| k < |s.phases| && (s.phases[k].Starting? || s.phases[k].Notified?) {
      e := Acquire(k);
      t := if s.available == 0 then s.(phases := s.phases[k := Waiting]) else State(s.available - 1, s.phases[k := Holding]);
    } else if k: nat :| k < |s.phases| && s.phases[k].Holding? {
      var w: nat := 0;
      if AnyWaiting(s.phases) { w :| w < |s.phases| && s.phases[w].Waiting?; }
      e := Drop(k, w);
      t := if AnyWaiting(s.phases) then State(s.available + 1, s.phases[k := Done][w := Notified])
           else State(s.available + 1, s.phases[k := Done]);
    } else {
      NobodyMoves(s, Permits(jobs, cores), j);
    }
  }

  /** Not all jobs can be waiting or done: a waiting one would find a permit, or have been woken. */
  lemma NobodyMoves(s: State, permits: nat, j: nat)
    requires Invariant(s, permits) && permits > 0 && j < |s.phases|
    requires forall k | 0 <= k < |s.phases| :: s.phases[k].Waiting? || s.phases[k].Done?
    ensures s.phases[j].Done?
  {
    Present(s.phases, Holding);
    Present(s.phases, Notified);
  }

  /** What running the jobs one after the other reports: the results, or the first failure met. */
  function Sequential<T, E>(outcomes: seq<Outcome<T, E>>): Outcome<seq<T>, E> {
    if outcomes == [] then Success([])
    else match outcomes[0]
      case Failure(error) => Failure(error)
      case Success(value) =>
        match Sequential(outcomes[1..])
        case Failure(error) => Failure(error)
        case Success(values) => Success([value] + values)
  }

  /**
   * Joins all jobs first, each with the outcome it has whenever it ran, and looks at them in
   * declaration order: the result is the sequential one.
   */
  method JoinAll<T, E>(outcomes: seq<Outcome<T, E>>) returns (r: Outcome<seq<T>, E>)
    ensures r == Sequential(outcomes)
    ensures r.Failure? <==> exists i | 0 <= i < |outcomes| :: outcomes[i].Failure?
    ensures r.Success? ==> |r.value| == |outcomes| && forall i | 0 <= i < |outcomes| :: outcomes[i] == Success(r.value[i])
    ensures r.Failure? ==> exists i | 0 <= i < |outcomes| ::
              outcomes[i] == Failure(r.error) && forall j | 0 <= j < i :: outcomes[j].Success?
  {
    var values: seq<T> := [];
    for n := 0 to |outcomes|
      invariant |values| == n && forall i | 0 <= i < n :: outcomes[i] == Success(values[i])
    {
      match outcomes[n]
      case Failure(error) =>
        FirstFailure(outcomes, n);
        return Failure(error);
      case Success(value) => values := values + [value];
    }
    NoFailure(outcomes, values);
    r := Success(values);
  }

  lemma {:induction false} FirstFailure<T, E>(outcomes: seq<Outcome<T, E>>, n: nat)
    requires n < |outcomes| && outcomes[n].Failure? && forall j | 0 <= j < n :: outcomes[j].Success?
    ensures Sequential(outcomes) == Failure(outcomes[n].error)
    decreases n
  {
    if n > 0 { FirstFailure(outcomes[1..], n - 1); }
  }

  lemma {:induction false} NoFailure<T, E>(outcomes: seq<Outcome<T, E>>, values: seq<T>)
    requires |values| == |outcomes| && forall i | 0 <= i < |outcomes| :: outcomes[i] == Success(values[i])
    ensures Sequential(outcomes) == Success(values)
  {
    if outcomes != [] {
      NoFailure(outcomes[1..], values[1..]);
      assert [values[0]] + values[1..] == values;
    }
  }
}
