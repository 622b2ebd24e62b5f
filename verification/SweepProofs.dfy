/** What the orphan sweep deletes, and where cancellation does not stop it. */
module SweepProofs {
  import opened Basics
  import opened Forest
  import opened Schema
  import opened Batches
  import opened Orphans
  import opened Deletion
  import opened Sweep

  /** The sets a sweep may start from: complete trees of dangling sessions of an acyclic forest. */
  ghost predicate Sweepable(f: Parents, candidates: set<Id>) {
    Acyclic(f) && WholeTrees(f, candidates) && candidates <= DanglingSessions(f)
  }

  /** The number of layers of the candidates. */
  ghost function Height(f: Parents, candidates: set<Id>): nat
    requires Acyclic(f) && candidates <= f.Keys
  {
    if candidates == {} then 0
    else
      var depths := set d | d in candidates :: Depth(f, d);
      ghost var d :| d in candidates;
      assert Depth(f, d) in depths;
      MaxOf(depths) + 1
  }

  /** The layers are numbered without gaps: layer `k` is empty exactly from the height on. */
  lemma {:induction false} LayerBelow(f: Parents, candidates: set<Id>, d: Id, k: nat)
    requires Acyclic(f) && WholeTrees(f, candidates) && d in candidates && k <= Depth(f, d)
    ensures Layer(f, candidates, k) != {}
    decreases Depth(f, d)
  {
    if k < Depth(f, d) {
      LayerBelow(f, candidates, f[d].value, k);
    } else {
      assert d in Layer(f, candidates, k);
    }
  }

  lemma LayerNonEmpty(f: Parents, candidates: set<Id>, k: nat)
    requires Acyclic(f) && WholeTrees(f, candidates)
    ensures Layer(f, candidates, k) != {} <==> k < Height(f, candidates)
  {
    if candidates != {} {
      var depths := set d | d in candidates :: Depth(f, d);
      var d0 :| d0 in candidates;
      assert Depth(f, d0) in depths;
      var top := MaxOf(depths);
      var d :| d in candidates && Depth(f, d) == top;
      if k <= top { LayerBelow(f, candidates, d, k); }
      forall e <- candidates ensures Depth(f, e) <= top { assert Depth(f, e) in depths; }
    }
  }

  /** A quiet batched deletion takes the whole set. */
  lemma QuietTakesAll(world: World, commits: nat, ids: set<Id>, size: nat)
    requires Quiet(world) && size > 0
    ensures var n := BatchCount(|ids|, size);
            BatchRun(world, commits, n) == RunResult(n, Finished) && FirstBatches(ids, size, n) == ids
  {
    var n := BatchCount(|ids|, size);
    QuietRun(world, commits, n);
    BatchesLeft(ids, size, n, FirstBatches(ids, size, n));
    FirstBatchesWithin(ids, size, n);
  }

  lemma QuietEvents(run: RunResult, gone: set<Id>, ids: set<Id>, size: nat, world: World, start: nat)
    requires Quiet(world) && size > 0 && RunsAs(run, gone, ids, size, world, start)
    ensures run.ending.Finished? && gone == ids
  {
    QuietTakesAll(world, start, ids, size);
  }

  /** A run that was neither failed nor cancelled took all ids; it was cancelled when its last callback said so. */
  lemma RunEndings(run: RunResult, gone: set<Id>, ids: set<Id>, size: nat, world: World, start: nat)
    requires size > 0 && RunsAs(run, gone, ids, size, world, start)
    ensures run.ending.Finished? ==> gone == ids
    ensures !run.ending.Failed? ==> (run.ending.Cancelled? <==> run.done > 0 && !world.Proceed(start + run.done))
  {
    var total := BatchCount(|ids|, size);
    LastAnswer(world, start, total);
    if run.ending.Finished? {
      BatchesLeft(ids, size, run.done, gone);
      FirstBatchesWithin(ids, size, run.done);
    }
  }

  /** How the batches of some ids end, and why. */
  lemma RunExactly(run: RunResult, gone: set<Id>, ids: set<Id>, size: nat, world: World, start: nat)
    requires size > 0 && RunsAs(run, gone, ids, size, world, start)
    ensures NoStop(world, start, start + run.done)
    ensures !run.ending.Failed? ==> AllCommit(world, start, start + run.done)
    ensures run.ending.Finished? && run.done > 0 ==> world.Proceed(start + run.done)
    ensures run.ending.Cancelled? ==> run.done > 0 && !world.Proceed(start + run.done)
    ensures run.ending.Failed? ==> BrokeOff(world, start, start + run.done, run.ending.error)
  {
    BatchRunExactly(world, start, BatchCount(|ids|, size));
  }

  /** The pass loop before pass `k` of a quiet sweep. */
  ghost predicate BeforePass(s: Loop, f: Parents, candidates: set<Id>, done: set<Id>, k: nat)
    requires Acyclic(f) && candidates <= f.Keys
  {
    var gone := Shallow(f, candidates, k);
    s.f == f - gone && s.candidates == candidates - gone && s.swept == done + gone && s.passes == k
  }

  /** The current candidates of a loop before pass `k` are layer `k`, and taking them leads to pass `k + 1`. */
  lemma NextLayer(s: Loop, f: Parents, candidates: set<Id>, done: set<Id>, k: nat, n: nat)
    requires Sweepable(f, candidates) && BeforePass(s, f, candidates, done, k)
    ensures var current := Layer(f, candidates, k);
            && CurrentDangling(s.f, s.candidates) == current
            && BeforePass(Next(s, current, current, n), f, candidates, done, k + 1)
  {
    CurrentIsLayer(f, candidates, k);
    var gone, current := Shallow(f, candidates, k), Layer(f, candidates, k);
    assert Shallow(f, candidates, k + 1) == gone + current;
    assert f - gone - current == f - (gone + current);
  }

  /** A quiet pass deletes all of its candidates. */
  lemma QuietPass(target: Passes, s: Loop, current: set<Id>, size: nat, world: World, left: nat)
    requires Quiet(world) && size > 0 && left > 0 && Heading(target, s, size, world, left)
    requires current == CurrentDangling(s.f, s.candidates) && current != {}
    ensures Heading(target, Next(s, current, current, BatchCount(|current|, size)), size, world, left - 1)
  {
    QuietTakesAll(world, s.commits, current, size);
    HeadingStep(target, s, size, world, left, current, BatchRun(world, s.commits, BatchCount(|current|, size)), current);
  }

  /** What the passes of a quiet sweep have done when they end: `last` passes, the first `last` layers. */
  ghost predicate QuietEnd(end: Passes, f: Parents, candidates: set<Id>, done: set<Id>, maxPasses: nat)
    requires Acyclic(f) && candidates <= f.Keys
  {
    var h := Height(f, candidates);
    && end.error == None
    && end.swept == done + Shallow(f, candidates, maxPasses)
    && end.passes == (if maxPasses < h then maxPasses else h)
    && (end.boundHit <==> maxPasses < h)
  }

  lemma QuietStop(s: Loop, f: Parents, candidates: set<Id>, done: set<Id>, k: nat, left: nat)
    requires Sweepable(f, candidates) && BeforePass(s, f, candidates, done, k) && k <= Height(f, candidates)
    requires left == 0 || k == Height(f, candidates)
    ensures QuietEnd(Passes(s.swept, s.commits, s.passes, k < Height(f, candidates), None), f, candidates, done, k + left)
  {
    if k == Height(f, candidates) {
      AllShallow(f, candidates, k + left);
      AllShallow(f, candidates, k);
    }
  }

  /**
   * Uncancelled pass `k` deletes exactly the candidates at depth `k`, until the layers or the
   * passes run out.
   */
  lemma {:induction false} QuietPasses(target: Passes, s: Loop, f: Parents, candidates: set<Id>, done: set<Id>, k: nat,
                                       size: nat, world: World, left: nat)
    requires Quiet(world) && size > 0 && Sweepable(f, candidates) && BeforePass(s, f, candidates, done, k)
    requires k <= Height(f, candidates) && Heading(target, s, size, world, left)
    ensures QuietEnd(target, f, candidates, done, k + left)
    decreases left
  {
    var current := Layer(f, candidates, k);
    var n := BatchCount(|current|, size);
    NextLayer(s, f, candidates, done, k, n);
    LayerNonEmpty(f, candidates, k);
    if left == 0 || k == Height(f, candidates) {
      HeadingEnds(target, s, size, world, left);
      QuietStop(s, f, candidates, done, k, left);
    } else {
      QuietPass(target, s, current, size, world, left);
      QuietPasses(target, Next(s, current, current, n), f, candidates, done, k + 1, size, world, left - 1);
    }
  }

  lemma AllShallow(f: Parents, candidates: set<Id>, k: nat)
    requires Acyclic(f) && WholeTrees(f, candidates) && k >= Height(f, candidates)
    ensures Shallow(f, candidates, k) == candidates
  {
    forall d <- candidates ensures Depth(f, d) < k {
      LayerNonEmpty(f, candidates, Depth(f, d));
      assert d in Layer(f, candidates, Depth(f, d));
    }
  }

  /** The course of an undisturbed sweep whose event phase is over. */
  lemma QuietCourse(end: Passes, aggregates: set<Id>, f: Parents, candidates: set<Id>, size: nat, world: World, commits: nat, maxPasses: nat)
    requires Quiet(world) && size > 0 && Sweepable(f, candidates)
    requires Heading(end, Loop(f, candidates, aggregates, commits, 0), size, world, maxPasses)
    ensures QuietEnd(end, f, candidates, aggregates, maxPasses)
  {
    var s := Loop(f, candidates, aggregates, commits, 0);
    assert Shallow(f, candidates, 0) == {} && f - {} == f;
    assert BeforePass(s, f, candidates, aggregates, 0);
    QuietPasses(end, s, f, candidates, aggregates, 0, size, world, maxPasses);
  }

  /** Candidates remain exactly when there are more layers than passes. */
  lemma BoundMeaning(f: Parents, candidates: set<Id>, maxPasses: nat)
    requires Acyclic(f) && WholeTrees(f, candidates)
    ensures maxPasses < Height(f, candidates) <==> Shallow(f, candidates, maxPasses) != candidates
  {
    if maxPasses >= Height(f, candidates) {
      AllShallow(f, candidates, maxPasses);
    } else {
      LayerNonEmpty(f, candidates, maxPasses);
      var d := Pick(Layer(f, candidates, maxPasses));
      assert d in candidates && d !in Shallow(f, candidates, maxPasses);
    }
  }

  /**
   * An undisturbed sweep deletes the aggregates and exactly the candidates with fewer than
   * `maxPasses` ancestors; it takes as many passes as there are layers, up to the bound, and
   * reports the bound exactly when candidates remain.
   */
  lemma QuietSweep(c: SweepCourse, before: Database, aggregates: set<Id>, candidates: set<Id>, size: nat, world: World, start: nat,
                   maxPasses: nat, after: Database, commits: nat, r: Result<OrphanReport>)
    requires Quiet(world) && size > 0 && Sweepable(ParentsOf(before), candidates)
    requires SweepOutcome(c, before, aggregates, candidates, size, world, start, maxPasses, after, commits, r)
    ensures var f := ParentsOf(before);
            var h := Height(f, candidates);
            && c.end.swept == aggregates + Shallow(f, candidates, maxPasses) && after == DeleteBatch(before, c.end.swept)
            && r.Success? && r.value.danglingPasses == (if maxPasses < h then maxPasses else h)
            && (r.value.iterationBoundHit <==> Shallow(f, candidates, maxPasses) != candidates)
            && Accounts(before, c.end.swept, r.value.deletion)
  {
    var f := ParentsOf(before);
    QuietEvents(c.events, c.aggregates, aggregates, size, world, start);
    QuietCourse(c.end, aggregates, f, candidates, size, world, start + c.events.done, maxPasses);
    BoundMeaning(f, candidates, maxPasses);
    QuietOutcome(c.end, before, aggregates, candidates, maxPasses, c.end.swept, after, commits, r);
  }

  lemma QuietOutcome(end: Passes, before: Database, aggregates: set<Id>, candidates: set<Id>, maxPasses: nat,
                     swept: set<Id>, after: Database, commits: nat, r: Result<OrphanReport>)
    requires Sweepable(ParentsOf(before), candidates) && QuietEnd(end, ParentsOf(before), candidates, aggregates, maxPasses)
    requires PassesOutcome(end, before, swept, after, commits, r)
    ensures var f := ParentsOf(before);
            var h := Height(f, candidates);
            && swept == aggregates + Shallow(f, candidates, maxPasses) && after == DeleteBatch(before, swept)
            && r.Success? && r.value.danglingPasses == (if maxPasses < h then maxPasses else h)
            && (r.value.iterationBoundHit <==> maxPasses < h)
            && Accounts(before, swept, r.value.deletion)
  {
  }

  /** Nothing but `within` has been swept or can be. */
  ghost predicate Bounded(s: Loop, within: set<Id>) {
    s.swept <= within && s.candidates * s.f.Keys <= within
  }

  lemma BoundedNext(s: Loop, within: set<Id>, gone: set<Id>, commits: nat)
    requires Bounded(s, within) && gone <= CurrentDangling(s.f, s.candidates)
    ensures Bounded(Next(s, CurrentDangling(s.f, s.candidates), gone, commits), within) && s.swept + gone <= within
  {
  }

  /** Whatever fails or is cancelled, the passes delete nothing but candidates. */
  lemma {:induction false} PassesWithin(target: Passes, s: Loop, size: nat, world: World, left: nat, within: set<Id>)
    requires size > 0 && Heading(target, s, size, world, left) && Bounded(s, within)
    ensures target.swept <= within
    decreases left
  {
    var current := CurrentDangling(s.f, s.candidates);
    if current == {} || left == 0 {
      HeadingEnds(target, s, size, world, left);
    } else {
      var run := BatchRun(world, s.commits, BatchCount(|current|, size));
      var gone := FirstBatches(current, size, run.done);
      FirstBatchesWithin(current, size, run.done);
      BoundedNext(s, within, gone, run.done);
      HeadingStep(target, s, size, world, left, current, run, gone);
      if !run.ending.Failed? {
        PassesWithin(target, Next(s, current, gone, run.done), size, world, left - 1, within);
      }
    }
  }

  lemma CourseWithin(c: SweepCourse, f: Parents, candidates: set<Id>, size: nat, world: World, commits: nat, maxPasses: nat,
                     within: set<Id>)
    requires size > 0 && Course(c.end, c.events, c.aggregates, f, candidates, size, world, commits, maxPasses)
    requires c.aggregates <= within && candidates <= within
    ensures c.end.swept <= within
  {
    if c.events.ending.Finished? {
      PassesWithin(c.end, Loop(f, candidates, c.aggregates, commits, 0), size, world, maxPasses, within);
    }
  }

  /** In every run a sweep deletes nothing but the given aggregates and candidates. */
  lemma SweepWithin(c: SweepCourse, before: Database, aggregates: set<Id>, candidates: set<Id>, size: nat, world: World, start: nat,
                    maxPasses: nat, after: Database, commits: nat, r: Result<OrphanReport>)
    requires size > 0
    requires SweepOutcome(c, before, aggregates, candidates, size, world, start, maxPasses, after, commits, r)
    ensures c.end.swept <= aggregates + candidates && after == DeleteBatch(before, c.end.swept)
    ensures r.Success? ==> Accounts(before, c.end.swept, r.value.deletion)
  {
    EventsWithin(c.events, c.aggregates, aggregates, size, world, start);
    CourseWithin(c, ParentsOf(before), candidates, size, world, start + c.events.done, maxPasses, aggregates + candidates);
  }

  lemma Broken(world: World, start: nat, from: nat, end: nat, error: Error)
    requires start <= from <= end && AllCommit(world, start, from) && BrokeOff(world, from, end, error)
    ensures BrokeOff(world, start, end, error)
  {
  }

  /** The passes fail exactly when an attempt they make fails, which is then the last one. */
  lemma {:induction false} PassesEnd(target: Passes, s: Loop, size: nat, world: World, left: nat)
    requires size > 0 && Heading(target, s, size, world, left)
    ensures target.commits >= s.commits
    ensures if target.error.None? then AllCommit(world, s.commits, target.commits)
            else BrokeOff(world, s.commits, target.commits, target.error.value)
    decreases left
  {
    var current := CurrentDangling(s.f, s.candidates);
    if current == {} || left == 0 {
      HeadingEnds(target, s, size, world, left);
    } else {
      var run := BatchRun(world, s.commits, BatchCount(|current|, size));
      var gone := FirstBatches(current, size, run.done);
      RunExactly(run, gone, current, size, world, s.commits);
      HeadingStep(target, s, size, world, left, current, run, gone);
      if !run.ending.Failed? {
        PassesEnd(target, Next(s, current, gone, run.done), size, world, left - 1);
        if target.error.Some? { Broken(world, s.commits, s.commits + run.done, target.commits, target.error.value); }
      }
    }
  }

  lemma CourseEnds(c: SweepCourse, f: Parents, aggregates: set<Id>, candidates: set<Id>, size: nat, world: World, start: nat, maxPasses: nat)
    requires size > 0 && RunsAs(c.events, c.aggregates, aggregates, size, world, start)
    requires Course(c.end, c.events, c.aggregates, f, candidates, size, world, start + c.events.done, maxPasses)
    ensures c.end.commits >= start
    ensures if c.end.error.None? then AllCommit(world, start, c.end.commits) else BrokeOff(world, start, c.end.commits, c.end.error.value)
  {
    var from := start + c.events.done;
    RunExactly(c.events, c.aggregates, aggregates, size, world, start);
    if c.events.ending.Finished? {
      PassesEnd(c.end, Loop(f, candidates, c.aggregates, from, 0), size, world, maxPasses);
      if c.end.error.Some? { Broken(world, start, from, c.end.commits, c.end.error.value); }
    }
  }

  /**
   * However a sweep ends: it succeeds exactly when no attempt it made failed, and otherwise the last
   * attempt failed and its error is returned.
   */
  lemma SweepEnds(c: SweepCourse, before: Database, aggregates: set<Id>, candidates: set<Id>, size: nat, world: World, start: nat,
                  maxPasses: nat, after: Database, commits: nat, r: Result<OrphanReport>)
    requires size > 0
    requires SweepOutcome(c, before, aggregates, candidates, size, world, start, maxPasses, after, commits, r)
    ensures commits >= start
    ensures if r.Success? then AllCommit(world, start, commits) else BrokeOff(world, start, commits, r.error)
  {
    CourseEnds(c, ParentsOf(before), aggregates, candidates, size, world, start, maxPasses);
  }

  lemma {:induction false} RunStopsAt(world: World, commits: nat, left: nat, end: nat)
    requires commits < end <= commits + left && forall m: nat | commits <= m < end :: world.Fate(m) == Commits
    requires !world.Proceed(end) && forall m: nat | commits < m < end :: world.Proceed(m)
    ensures BatchRun(world, commits, left) == RunResult(end - commits, Cancelled)
    decreases left
  {
    if end > commits + 1 {
      RunStopsAt(world, commits + 1, left - 1, end);
    }
  }

  lemma RunStops(run: RunResult, gone: set<Id>, ids: set<Id>, size: nat, world: World, start: nat, stop: nat)
    requires size > 0 && RunsAs(run, gone, ids, size, world, start)
    requires start < stop <= start + BatchCount(|ids|, size) && AllCommit(world, start, stop)
    requires !world.Proceed(stop) && NoStop(world, start, stop)
    ensures run == RunResult(stop - start, Cancelled)
  {
    RunStopsAt(world, start, BatchCount(|ids|, size), stop);
  }

  /** A callback that asks to stop during the event phase ends the sweep there: no session is deleted. */
  lemma EventsCancelled(c: SweepCourse, before: Database, aggregates: set<Id>, candidates: set<Id>, size: nat, world: World, start: nat,
                        maxPasses: nat, after: Database, commits: nat, r: Result<OrphanReport>, stop: nat)
    requires size > 0 && aggregates !! before.sessions.Keys
    requires SweepOutcome(c, before, aggregates, candidates, size, world, start, maxPasses, after, commits, r)
    requires start < stop <= start + BatchCount(|aggregates|, size) && AllCommit(world, start, stop)
    requires !world.Proceed(stop) && NoStop(world, start, stop)
    ensures after.sessions == before.sessions && commits == stop
    ensures r.Success? && r.value.danglingPasses == 0 && !r.value.iterationBoundHit
  {
    RunStops(c.events, c.aggregates, aggregates, size, world, start, stop);
    EventsWithin(c.events, c.aggregates, aggregates, size, world, start);
    SessionsUntouched(before, aggregates, c.aggregates, after, EMPTY_REPORT);
  }

  /** No later pass deletes what an earlier one crossed off. */
  lemma {:induction false} CrossedOffStays(target: Passes, s: Loop, size: nat, world: World, left: nat, spared: set<Id>)
    requires size > 0 && Heading(target, s, size, world, left) && spared !! s.swept && spared !! s.candidates
    ensures spared !! target.swept
    decreases left
  {
    var current := CurrentDangling(s.f, s.candidates);
    if current == {} || left == 0 {
      HeadingEnds(target, s, size, world, left);
    } else {
      var run := BatchRun(world, s.commits, BatchCount(|current|, size));
      var gone := FirstBatches(current, size, run.done);
      FirstBatchesWithin(current, size, run.done);
      HeadingStep(target, s, size, world, left, current, run, gone);
      if !run.ending.Failed? { CrossedOffStays(target, Next(s, current, gone, run.done), size, world, left - 1, spared); }
    }
  }

  /**
   * A pass that was cancelled crosses off all its candidates: those of them it did not get to are
   * deleted by no later pass.
   */
  lemma CancelledPassSpares(target: Passes, s: Loop, size: nat, world: World, left: nat, run: RunResult, gone: set<Id>)
    requires size > 0 && left > 0 && Heading(target, s, size, world, left) && CurrentDangling(s.f, s.candidates) != {}
    requires RunsAs(run, gone, CurrentDangling(s.f, s.candidates), size, world, s.commits) && run.ending.Cancelled?
    requires s.swept !! s.f.Keys
    ensures (CurrentDangling(s.f, s.candidates) - gone) !! target.swept
  {
    var current := CurrentDangling(s.f, s.candidates);
    CancelledStep(target, s, size, world, left, run, gone);
    CrossedOffStays(target, Next(s, current, gone, run.done), size, world, left - 1, current - gone);
  }

  lemma {:induction false} PassesNeverUndo(target: Passes, s: Loop, size: nat, world: World, left: nat)
    requires size > 0 && Heading(target, s, size, world, left)
    ensures target.commits >= s.commits
    decreases left
  {
    var current := CurrentDangling(s.f, s.candidates);
    if current == {} || left == 0 {
      HeadingEnds(target, s, size, world, left);
    } else {
      var run := BatchRun(world, s.commits, BatchCount(|current|, size));
      var gone := FirstBatches(current, size, run.done);
      HeadingStep(target, s, size, world, left, current, run, gone);
      if !run.ending.Failed? { PassesNeverUndo(target, Next(s, current, gone, run.done), size, world, left - 1); }
    }
  }

  /** A run over some ids commits something unless its first attempt fails. */
  lemma RunStarts(ids: set<Id>, size: nat, world: World, commits: nat)
    requires size > 0 && ids != {}
    ensures var run := BatchRun(world, commits, BatchCount(|ids|, size));
            (run.done > 0 <==> !world.Fate(commits).FailsAt?) && (run.done == 0 ==> run.ending.Failed?)
  {
    BatchesLeft(ids, size, 0, {});
  }

  /** The passes commit something unless the loop stops at once or its first attempt fails. */
  lemma PassesCommit(target: Passes, s: Loop, size: nat, world: World, left: nat)
    requires size > 0 && Heading(target, s, size, world, left)
    ensures target.commits > s.commits <==>
              left > 0 && CurrentDangling(s.f, s.candidates) != {} && !world.Fate(s.commits).FailsAt?
  {
    var current := CurrentDangling(s.f, s.candidates);
    if current == {} || left == 0 {
      HeadingEnds(target, s, size, world, left);
    } else {
      RunStarts(current, size, world, s.commits);
      var run := BatchRun(world, s.commits, BatchCount(|current|, size));
      var gone := FirstBatches(current, size, run.done);
      HeadingStep(target, s, size, world, left, current, run, gone);
      if !run.ending.Failed? { PassesNeverUndo(target, Next(s, current, gone, run.done), size, world, left - 1); }
    }
  }

  /** After a pass, a candidate dangles exactly when it is a child of a session the pass deleted. */
  lemma NextDangling(s: Loop, gone: set<Id>, commits: nat)
    requires gone <= CurrentDangling(s.f, s.candidates)
    ensures var current := CurrentDangling(s.f, s.candidates);
            var next := Next(s, current, gone, commits);
            CurrentDangling(next.f, next.candidates) == Children(s.f, gone) * s.candidates
  {
    var current := CurrentDangling(s.f, s.candidates);
    var next := Next(s, current, gone, commits);
    forall c ensures c in CurrentDangling(next.f, next.candidates) <==> c in Children(s.f, gone) * s.candidates {}
  }

  /**
   * The pass loop does not look at the callback's answer. Once a pass was cancelled, further
   * batches commit exactly when another pass is allowed, a session deleted by the cancelled pass
   * has a child among the candidates, and the next attempt does not fail.
   */
  lemma CancellationIgnored(target: Passes, s: Loop, size: nat, world: World, left: nat, run: RunResult, gone: set<Id>)
    requires size > 0 && left > 0 && Heading(target, s, size, world, left) && CurrentDangling(s.f, s.candidates) != {}
    requires RunsAs(run, gone, CurrentDangling(s.f, s.candidates), size, world, s.commits) && run.ending.Cancelled?
    ensures target.commits > s.commits + run.done <==>
              left > 1 && Children(s.f, gone) * s.candidates != {} && !world.Fate(s.commits + run.done).FailsAt?
  {
    var current := CurrentDangling(s.f, s.candidates);
    EventsWithin(run, gone, current, size, world, s.commits);
    NextDangling(s, gone, run.done);
    CancelledStep(target, s, size, world, left, run, gone);
    var next := Next(s, current, gone, run.done);
    PassesCommit(target, next, size, world, left - 1);
  }

  lemma CancelledStep(target: Passes, s: Loop, size: nat, world: World, left: nat, run: RunResult, gone: set<Id>)
    requires size > 0 && left > 0 && Heading(target, s, size, world, left) && CurrentDangling(s.f, s.candidates) != {}
    requires RunsAs(run, gone, CurrentDangling(s.f, s.candidates), size, world, s.commits) && run.ending.Cancelled?
    ensures Heading(target, Next(s, CurrentDangling(s.f, s.candidates), gone, run.done), size, world, left - 1)
  {
    var current := CurrentDangling(s.f, s.candidates);
    assert run == BatchRun(world, s.commits, BatchCount(|current|, size));
    HeadingStep(target, s, size, world, left, current, run, gone);
  }

  lemma OneBatch(d: Id, size: nat)
    requires size > 0
    ensures BatchCount(1, size) == 1 && FirstBatches({d}, size, 0) == {} && FirstBatches({d}, size, 1) == {d}
  {
    var taken := FirstBatches({d}, size, 1);
    assert BatchCount(1, size) == 1 by { BatchCountCovers(1, size); }
    assert |{d}| == 1;
    BatchesLeft({d}, size, 1, taken);
    FirstBatchesWithin({d}, size, 1);
  }

  /** A pass over a single session: it fails, or the session goes and the next pass follows. */
  lemma PassOverOne(target: Passes, s: Loop, d: Id, size: nat, world: World, left: nat)
    requires size > 0 && left > 0 && Heading(target, s, size, world, left) && CurrentDangling(s.f, s.candidates) == {d}
    ensures match world.Fate(s.commits)
            case FailsAt(_) => target == Passes(s.swept, s.commits, s.passes, false, Some(BatchFailed))
            case CheckpointFails => target == Passes(s.swept + {d}, s.commits + 1, s.passes, false, Some(CheckpointFailed))
            case Commits => Heading(target, Next(s, {d}, {d}, 1), size, world, left - 1)
  {
    OneBatch(d, size);
    var run := BatchRun(world, s.commits, 1);
    assert |{d}| == 1;
    HeadingStep(target, s, size, world, left, {d}, run, FirstBatches({d}, size, run.done));
  }

  lemma PairLayers(f: Parents, a: Id, b: Id)
    requires a in f && f[a].Some? && f[a].value !in f && b in f && f[b] == Some(a)
    ensures CurrentDangling(f, {a, b}) == {a} && CurrentDangling(f - {a}, {a, b} - {a}) == {b}
    ensures CurrentDangling(f - {a} - {b}, {a, b} - {a} - {b}) == {}
  {
  }

  /**
   * Two dangling sessions, one below the other: both are deleted whatever the callbacks answer,
   * also when every answer is to stop.
   */
  lemma CancelledPair(target: Passes, f: Parents, a: Id, b: Id, size: nat, world: World, left: nat)
    requires size > 0 && left >= 2 && Heading(target, Loop(f, {a, b}, {}, 0, 0), size, world, left)
    requires a in f && f[a].Some? && f[a].value !in f && b in f && f[b] == Some(a)
    requires world.Fate(0) == Commits && world.Fate(1) == Commits
    ensures target == Passes({a, b}, 2, 2, false, None)
  {
    var s := Loop(f, {a, b}, {}, 0, 0);
    PairLayers(f, a, b);
    PassOverOne(target, s, a, size, world, left);
    var second := Next(s, {a}, {a}, 1);
    PassOverOne(target, second, b, size, world, left - 1);
    HeadingEnds(target, Next(second, {b}, {b}, 1), size, world, left - 2);
    assert {} + {a} + {b} == {a, b};
  }

  /** Such a pair exists, and a cancellation can be seen at both commits. */
  lemma CancelledChain()
    ensures var a, b := Id("ses_a"), Id("ses_b");
            var f, world := map[a := Some(Id("ses_absent")), b := Some(a)], World(map[], {1, 2});
            && !world.Proceed(1) && !world.Proceed(2)
            && RunPasses(Loop(f, {a, b}, {}, 0, 0), 2_500, world, DEFAULT_MAX_PASSES) == Passes({a, b}, 2, 2, false, None)
  {
    var a, b, world := Id("ses_a"), Id("ses_b"), World(map[], {1, 2});
    var f := map[a := Some(Id("ses_absent")), b := Some(a)];
    assert a.text[4] != b.text[4] && |Id("ses_absent").text| > |a.text|;
    CancelledPair(RunPasses(Loop(f, {a, b}, {}, 0, 0), 2_500, world, DEFAULT_MAX_PASSES), f, a, b, 2_500, world, DEFAULT_MAX_PASSES);
  }

  /** A failure at the first attempt of the second pass: only the upper one of the pair is deleted. */
  lemma InterruptedPair(target: Passes, f: Parents, a: Id, b: Id, size: nat, world: World, left: nat)
    requires size > 0 && left >= 2 && Heading(target, Loop(f, {a, b}, {}, 0, 0), size, world, left)
    requires a in f && f[a].Some? && f[a].value !in f && b in f && f[b] == Some(a)
    requires world.Fate(0) == Commits && world.Fate(1).FailsAt?
    ensures target == Passes({a}, 1, 1, false, Some(BatchFailed))
  {
    var s := Loop(f, {a, b}, {}, 0, 0);
    PairLayers(f, a, b);
    PassOverOne(target, s, a, size, world, left);
    PassOverOne(target, Next(s, {a}, {a}, 1), b, size, world, left - 1);
    assert {} + {a} == {a};
  }
}
