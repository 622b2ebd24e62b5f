/**
 * The orphan sweep: event aggregates first, then dangling sessions in bounded passes, each
 * pass deleting the candidates whose parent is gone.
 */
module Sweep {
  import opened Basics
  import opened Forest
  import opened Schema
  import opened Batches
  import opened Retention
  import opened Orphans
  import opened Deletion

  const DEFAULT_MAX_PASSES: nat := 32

  datatype RawOrphans = RawOrphans(aggregates: set<Id>, dangling: set<Id>)

  datatype OrphanReport = OrphanReport(deletion: DeletionReport, danglingPasses: nat, iterationBoundHit: bool)

  function Merge(a: DeletionReport, b: DeletionReport): DeletionReport {
    DeletionReport(a.rows + b.rows, a.transactions + b.transactions, a.deletedSessions + b.deletedSessions)
  }

  /** How the pass loop ends: what it deleted, and the connection's commit count. */
  datatype Passes = Passes(swept: set<Id>, commits: nat, passes: nat, boundHit: bool, error: Option<Error>)

  /** Where the pass loop stands: the forest, the candidates left, and what has been done. */
  datatype Loop = Loop(f: Parents, candidates: set<Id>, swept: set<Id>, commits: nat, passes: nat)

  /**
   * The course of the pass loop with `left` passes to go. A cancelled pass is not told apart from
   * a finished one: its candidates are crossed off and the next pass follows.
   */
  ghost function RunPasses(s: Loop, size: nat, world: World, left: nat): Passes
    requires size > 0
    decreases left
  {
    var current := CurrentDangling(s.f, s.candidates);
    if current == {} then Passes(s.swept, s.commits, s.passes, false, None)
    else if left == 0 then Passes(s.swept, s.commits, s.passes, true, None)
    else
      var run := BatchRun(world, s.commits, BatchCount(|current|, size));
      var gone := FirstBatches(current, size, run.done);
      if run.ending.Failed? then Passes(s.swept + gone, s.commits + run.done, s.passes, false, Some(run.ending.error))
      else RunPasses(Next(s, current, gone, run.done), size, world, left - 1)
  }

  ghost function Next(s: Loop, current: set<Id>, gone: set<Id>, commits: nat): Loop {
    Loop(s.f - gone, s.candidates - current, s.swept + gone, s.commits + commits, s.passes + 1)
  }

  /** Running the loop from here ends as `target`. The quantifier over one value keeps the recursion folded. */
  ghost predicate Heading(target: Passes, s: Loop, size: nat, world: World, left: nat)
    requires size > 0
  {
    forall n: nat {:trigger RunPasses(s, size, world, n)} :: n == left ==> target == RunPasses(s, size, world, n)
  }

  lemma Destination(s: Loop, size: nat, world: World, left: nat) returns (target: Passes)
    requires size > 0
    ensures Heading(target, s, size, world, left)
  {
    target := RunPasses(s, size, world, left);
  }

  /** The loop stops here: no candidate is dangling, or no pass is left. */
  lemma HeadingEnds(target: Passes, s: Loop, size: nat, world: World, left: nat)
    requires size > 0 && Heading(target, s, size, world, left)
    requires left == 0 || CurrentDangling(s.f, s.candidates) == {}
    ensures target == Passes(s.swept, s.commits, s.passes, CurrentDangling(s.f, s.candidates) != {}, None)
  {
    var rest := RunPasses(s, size, world, left);
  }

  /** One pass, whose batches ran as `run`. */
  lemma HeadingStep(target: Passes, s: Loop, size: nat, world: World, left: nat,
                    current: set<Id>, run: RunResult, gone: set<Id>)
    requires size > 0 && left > 0 && Heading(target, s, size, world, left)
    requires current == CurrentDangling(s.f, s.candidates) && current != {}
    requires run == BatchRun(world, s.commits, BatchCount(|current|, size)) && gone == FirstBatches(current, size, run.done)
    ensures run.ending.Failed? ==>
              target == Passes(s.swept + gone, s.commits + run.done, s.passes, false, Some(run.ending.error))
    ensures !run.ending.Failed? ==> Heading(target, Next(s, current, gone, run.done), size, world, left - 1)
  {
    var rest := RunPasses(s, size, world, left);
  }

  /** Two runs of deletions in a row: their sets, tables and reports combine. */
  lemma MidwayMerge(before: Database, a: set<Id>, mid: Database, ra: DeletionReport, b: set<Id>, after: Database, rb: DeletionReport)
    requires a !! b && Midway(before, a, mid, ra) && Midway(mid, b, after, rb)
    ensures Midway(before, a + b, after, Merge(ra, rb))
  {
    assert mid == DeleteBatch(before, a) && after == DeleteBatch(mid, b);
    BatchCompose(before, a, b);
    SessionsAfterBatch(before, a);
    if Integrity(before) {
      DeleteKeepsIntegrity(before, BatchSeeds(a));
      AllCountsAdd(before, a, b);
    }
  }

  ghost function LoopAt(conn: Connection, swept: set<Id>, passes: nat): Loop
    reads conn
  {
    Loop(ParentsOf(conn.db), conn.candidates, swept, conn.commits, passes)
  }

  /** The deletions of one pass, merged into the sweep's report. */
  method DeletePass(conn: Connection, dangling: set<Id>, size: nat, world: World, report: DeletionReport,
                    ghost before: Database, ghost swept: set<Id>)
    returns (error: Option<Error>, merged: DeletionReport, ghost run: RunResult, ghost gone: set<Id>)
    requires size > 0 && Midway(before, swept, conn.db, report) && conn.db.sessions.Keys !! swept
    requires dangling <= conn.db.sessions.Keys
    modifies conn
    ensures run == BatchRun(world, old(conn.commits), BatchCount(|dangling|, size)) && gone == FirstBatches(dangling, size, run.done)
    ensures conn.commits == old(conn.commits) + run.done
    ensures error == if run.ending.Failed? then Some(run.ending.error) else None
    ensures error.None? ==> conn.candidates == old(conn.candidates) - dangling
    ensures ParentsOf(conn.db) == ParentsOf(old(conn.db)) - gone && conn.db == DeleteBatch(before, swept + gone)
    ensures error.None? ==> Midway(before, swept + gone, conn.db, merged) && merged.transactions == report.transactions + run.done
    ensures conn.db.sessions.Keys !! swept + gone
  {
    ghost var db := conn.db;
    run := BatchRun(world, conn.commits, BatchCount(|dangling|, size));
    gone := FirstBatches(dangling, size, run.done);
    var deleted := conn.DeleteWithProgress(dangling, size, world);
    SessionsAfterBatch(db, gone);
    FirstBatchesWithin(dangling, size, run.done);
    assert db == DeleteBatch(before, swept);
    BatchCompose(before, swept, gone);
    if deleted.Failure? {
      return Some(deleted.error), report, run, gone;
    }
    merged := Merge(report, deleted.value);
    MidwayMerge(before, swept, db, report, gone, conn.db, deleted.value);
    conn.candidates := conn.candidates - dangling;
    error := None;
  }

  /** One pass: deletes the dangling candidates in batches and crosses all of them off. */
  method OnePass(conn: Connection, dangling: set<Id>, size: nat, world: World, report: DeletionReport,
                 ghost before: Database, ghost swept: set<Id>, ghost target: Passes, ghost pass: nat, ghost left: nat)
    returns (error: Option<Error>, merged: DeletionReport, ghost swept': set<Id>)
    requires size > 0 && left > 0 && Heading(target, LoopAt(conn, swept, pass), size, world, left)
    requires dangling == CurrentDangling(ParentsOf(conn.db), conn.candidates) && dangling != {}
    requires Midway(before, swept, conn.db, report) && conn.db.sessions.Keys !! swept
    modifies conn
    ensures error.Some? ==> target == Passes(swept', conn.commits, pass, false, error) && conn.db == DeleteBatch(before, swept')
    ensures error.None? ==> Heading(target, LoopAt(conn, swept', pass + 1), size, world, left - 1)
    ensures error.None? ==> Midway(before, swept', conn.db, merged) && conn.db.sessions.Keys !! swept'
    ensures error.None? ==> merged.transactions == report.transactions + conn.commits - old(conn.commits)
  {
    ghost var loop := LoopAt(conn, swept, pass);
    ghost var run, gone;
    error, merged, run, gone := DeletePass(conn, dangling, size, world, report, before, swept);
    swept' := swept + gone;
    HeadingNext(target, loop, size, world, left, dangling, run, gone, LoopAt(conn, swept', pass + 1));
  }

  lemma HeadingNext(target: Passes, s: Loop, size: nat, world: World, left: nat,
                    current: set<Id>, run: RunResult, gone: set<Id>, t: Loop)
    requires size > 0 && left > 0 && Heading(target, s, size, world, left)
    requires current == CurrentDangling(s.f, s.candidates) && current != {}
    requires run == BatchRun(world, s.commits, BatchCount(|current|, size)) && gone == FirstBatches(current, size, run.done)
    requires t.f == s.f - gone && t.swept == s.swept + gone
    requires t.commits == s.commits + run.done && t.passes == s.passes + 1
    requires run.ending.Failed? || t.candidates == s.candidates - current
    ensures run.ending.Failed? ==> target == Passes(t.swept, t.commits, s.passes, false, Some(run.ending.error))
    ensures !run.ending.Failed? ==> Heading(target, t, size, world, left - 1)
  {
    HeadingStep(target, s, size, world, left, current, run, gone);
    if !run.ending.Failed? { assert t == Next(s, current, gone, run.done); }
  }

  /** The tables, the commit count and the report agree with the course of the passes. */
  ghost predicate PassesOutcome(end: Passes, before: Database, swept: set<Id>, after: Database, commits: nat, r: Result<OrphanReport>) {
    && end.swept == swept && end.commits == commits
    && after == DeleteBatch(before, swept)
    && (end.error.Some? ==> r == Failure(end.error.value))
    && (end.error.None? ==> r.Success? && r.value.danglingPasses == end.passes && r.value.iterationBoundHit == end.boundHit
                            && Accounts(before, swept, r.value.deletion))
  }

  lemma Stopped(before: Database, swept: set<Id>, after: Database, report: DeletionReport, commits: nat, passes: nat, boundHit: bool)
    requires Midway(before, swept, after, report)
    ensures PassesOutcome(Passes(swept, commits, passes, boundHit, None), before, swept, after, commits,
                          Success(OrphanReport(report, passes, boundHit)))
  {
    assert after == DeleteBatch(before, swept);
  }

  /** The dangling passes of the sweep, after the deletions already reported. */
  method DanglingPasses(conn: Connection, candidates: set<Id>, size: nat, maxPasses: nat, world: World,
                        start: DeletionReport, ghost before: Database, ghost done: set<Id>)
    returns (r: Result<OrphanReport>, ghost swept: set<Id>, ghost end: Passes)
    requires size > 0 && Midway(before, done, conn.db, start) && conn.db.sessions.Keys !! done
    modifies conn
    ensures Heading(end, Loop(ParentsOf(old(conn.db)), candidates, done, old(conn.commits), 0), size, world, maxPasses)
    ensures PassesOutcome(end, before, swept, conn.db, conn.commits, r)
    ensures r.Success? ==> r.value.deletion.transactions == start.transactions + conn.commits - old(conn.commits)
  {
    conn.candidates := candidates;
    var report := start;
    swept := done;
    end := Destination(LoopAt(conn, swept, 0), size, world, maxPasses);
    for pass := 0 to maxPasses
      invariant Heading(end, LoopAt(conn, swept, pass), size, world, maxPasses - pass)
      invariant Midway(before, swept, conn.db, report) && conn.db.sessions.Keys !! swept
      invariant report.transactions == start.transactions + conn.commits - old(conn.commits)
    {
      var dangling := CurrentDangling(ParentsOf(conn.db), conn.candidates);
      if dangling == {} {
        HeadingEnds(end, LoopAt(conn, swept, pass), size, world, maxPasses - pass);
        Stopped(before, swept, conn.db, report, conn.commits, pass, false);
        return Success(OrphanReport(report, pass, false)), swept, end;
      }
      var error;
      error, report, swept := OnePass(conn, dangling, size, world, report, before, swept, end, pass, maxPasses - pass);
      if error.Some? {
        return Failure(error.value), swept, end;
      }
    }
    HeadingEnds(end, LoopAt(conn, swept, maxPasses), size, world, 0);
    var left := CurrentDangling(ParentsOf(conn.db), conn.candidates);
    Stopped(before, swept, conn.db, report, conn.commits, maxPasses, left != {});
    r := Success(OrphanReport(report, maxPasses, left != {}));
  }

  /** `end` is how a sweep ends whose event phase ran as `run` and deleted `gone`. */
  ghost predicate Course(end: Passes, run: RunResult, gone: set<Id>, f: Parents, candidates: set<Id>, size: nat, world: World,
                         commits: nat, maxPasses: nat)
    requires size > 0
  {
    match run.ending
    case Failed(error) => end == Passes(gone, commits, 0, false, Some(error))
    case Cancelled => end == Passes(gone, commits, 0, false, None)
    case Finished => Heading(end, Loop(f, candidates, gone, commits, 0), size, world, maxPasses)
  }

  /** The batches of `ids` ran as `run` and deleted `gone`. The quantifier over one value keeps the recursion folded. */
  ghost predicate RunsAs(run: RunResult, gone: set<Id>, ids: set<Id>, size: nat, world: World, start: nat)
    requires size > 0
  {
    forall s: nat {:trigger BatchRun(world, s, BatchCount(|ids|, size))} :: s == start ==>
      run == BatchRun(world, s, BatchCount(|ids|, size)) && gone == FirstBatches(ids, size, run.done)
  }

  lemma EventsWithin(run: RunResult, gone: set<Id>, ids: set<Id>, size: nat, world: World, start: nat)
    requires size > 0 && RunsAs(run, gone, ids, size, world, start)
    ensures gone <= ids
    ensures !run.ending.Failed? ==> (run.ending.Cancelled? <==> run.done > 0 && !world.Proceed(start + run.done))
  {
    FirstBatchesWithin(ids, size, BatchRun(world, start, BatchCount(|ids|, size)).done);
    LastAnswer(world, start, BatchCount(|ids|, size));
  }

  /** A batched deletion has the course of a run. */
  lemma OutcomeRuns(before: Database, ids: set<Id>, size: nat, world: World, start: nat, after: Database, end: nat, r: Result<DeletionReport>)
    returns (run: RunResult, gone: set<Id>)
    requires size > 0 && BatchesOutcome(before, ids, size, world, start, after, end, r)
    ensures RunsAs(run, gone, ids, size, world, start) && end == start + run.done
    ensures after == DeleteBatch(before, gone)
    ensures if run.ending.Failed? then r == Failure(run.ending.error)
            else r.Success? && Accounts(before, gone, r.value) && r.value.transactions == run.done
  {
    run := BatchRun(world, start, BatchCount(|ids|, size));
    gone := FirstBatches(ids, size, run.done);
  }

  /** A batched deletion of `ids`, with its course. */
  method DeleteInBatches(conn: Connection, ids: set<Id>, size: nat, world: World)
    returns (r: Result<DeletionReport>, ghost run: RunResult, ghost gone: set<Id>)
    requires size > 0
    modifies conn`db, conn`purge, conn`batch, conn`commits
    ensures RunsAs(run, gone, ids, size, world, old(conn.commits)) && gone <= ids
    ensures conn.commits == old(conn.commits) + run.done && conn.db == DeleteBatch(old(conn.db), gone)
    ensures if run.ending.Failed? then r == Failure(run.ending.error)
            else r.Success? && Accounts(old(conn.db), gone, r.value) && r.value.transactions == run.done
    ensures !run.ending.Failed? ==> (run.ending.Cancelled? <==> run.done > 0 && !world.Proceed(conn.commits))
  {
    r := conn.DeleteWithProgress(ids, size, world);
    run, gone := OutcomeRuns(old(conn.db), ids, size, world, old(conn.commits), conn.db, conn.commits, r);
    EventsWithin(run, gone, ids, size, world, old(conn.commits));
  }

  /** A deletion of ids without a session leaves every session, and its report needs to list none. */
  lemma SessionsUntouched(before: Database, ids: set<Id>, gone: set<Id>, after: Database, report: DeletionReport)
    requires gone <= ids && ids !! before.sessions.Keys && after == DeleteBatch(before, gone)
    ensures after.sessions == before.sessions && ParentsOf(after) == ParentsOf(before) && after.sessions.Keys !! gone
    ensures Accounts(before, gone, report) ==> Midway(before, gone, after, report.(deletedSessions := {}))
  {
    SessionsAfterBatch(before, gone);
    assert gone * before.sessions.Keys == {};
  }

  /** The event phase: deletes the orphan aggregates and says whether a callback asked to stop. */
  method DeleteAggregates(conn: Connection, aggregates: set<Id>, size: nat, world: World)
    returns (r: Result<DeletionReport>, cancelled: bool, ghost run: RunResult, ghost gone: set<Id>)
    requires size > 0 && aggregates !! conn.db.sessions.Keys
    modifies conn
    ensures RunsAs(run, gone, aggregates, size, world, old(conn.commits))
    ensures conn.commits == old(conn.commits) + run.done && conn.db == DeleteBatch(old(conn.db), gone)
    ensures conn.db.sessions == old(conn.db).sessions && ParentsOf(conn.db) == ParentsOf(old(conn.db))
    ensures conn.db.sessions.Keys !! gone
    ensures match run.ending
            case Failed(error) => r == Failure(error)
            case _ => r.Success? && cancelled == run.ending.Cancelled? && Midway(old(conn.db), gone, conn.db, r.value)
                      && r.value.transactions == run.done && r.value.deletedSessions == {}
  {
    var start := conn.commits;
    r, run, gone := DeleteInBatches(conn, aggregates, size, world);
    SessionsUntouched(old(conn.db), aggregates, gone, conn.db, if r.Success? then r.value else EMPTY_REPORT);
    cancelled := conn.commits > start && !world.Proceed(conn.commits);
    if r.Success? {
      r := Success(r.value.(deletedSessions := {}));
    }
  }

  /** A run was cancelled exactly when the last callback of a run without failures asked to stop. */
  lemma {:induction false} LastAnswer(world: World, commits: nat, left: nat)
    ensures var run := BatchRun(world, commits, left);
            !run.ending.Failed? ==> (run.ending.Cancelled? <==> run.done > 0 && !world.Proceed(commits + run.done))
    decreases left
  {
    if left > 0 { LastAnswer(world, commits + 1, left - 1); }
  }

  /** The course of a whole sweep: the event phase, what it deleted, and how the passes end. */
  datatype SweepCourse = SweepCourse(events: RunResult, aggregates: set<Id>, end: Passes)

  /** The outcome of a whole sweep, as a function of the tables, the finalized sets and the world. */
  ghost predicate SweepOutcome(c: SweepCourse, before: Database, aggregates: set<Id>, candidates: set<Id>, size: nat, world: World,
                               start: nat, maxPasses: nat, after: Database, commits: nat, r: Result<OrphanReport>)
    requires size > 0
  {
    && RunsAs(c.events, c.aggregates, aggregates, size, world, start)
    && Course(c.end, c.events, c.aggregates, ParentsOf(before), candidates, size, world, start + c.events.done, maxPasses)
    && PassesOutcome(c.end, before, c.end.swept, after, commits, r)
  }

  /** Both phases of the sweep over finalized sets. */
  method SweepSelected(conn: Connection, aggregates: set<Id>, candidates: set<Id>, size: nat, maxPasses: nat, world: World)
    returns (r: Result<OrphanReport>, ghost c: SweepCourse)
    requires size > 0 && aggregates !! conn.db.sessions.Keys
    modifies conn
    ensures SweepOutcome(c, old(conn.db), aggregates, candidates, size, world, old(conn.commits), maxPasses, conn.db, conn.commits, r)
    ensures r.Success? ==> r.value.deletion.transactions == conn.commits - old(conn.commits)
  {
    ghost var before := conn.db;
    var events, cancelled;
    ghost var run, gone, end;
    events, cancelled, run, gone := DeleteAggregates(conn, aggregates, size, world);
    r, end := FinishSweep(conn, events, cancelled, candidates, size, maxPasses, world, before, run, gone);
    c := SweepCourse(run, gone, end);
  }

  /** What follows the event phase. */
  method FinishSweep(conn: Connection, events: Result<DeletionReport>, cancelled: bool, candidates: set<Id>, size: nat,
                     maxPasses: nat, world: World, ghost before: Database, ghost run: RunResult, ghost gone: set<Id>)
    returns (r: Result<OrphanReport>, ghost end: Passes)
    requires size > 0 && conn.db == DeleteBatch(before, gone) && conn.db.sessions.Keys !! gone
    requires match run.ending
             case Failed(error) => events == Failure(error)
             case _ => events.Success? && cancelled == run.ending.Cancelled? && Midway(before, gone, conn.db, events.value)
    modifies conn
    ensures Course(end, run, gone, ParentsOf(old(conn.db)), candidates, size, world, old(conn.commits), maxPasses)
    ensures PassesOutcome(end, before, end.swept, conn.db, conn.commits, r)
    ensures r.Success? ==> r.value.deletion.transactions == events.value.transactions + conn.commits - old(conn.commits)
  {
    if events.Failure? {
      return Failure(events.error), Passes(gone, conn.commits, 0, false, Some(events.error));
    }
    if cancelled {
      Stopped(before, gone, conn.db, events.value, conn.commits, 0, false);
      return Success(OrphanReport(events.value, 0, false)), Passes(gone, conn.commits, 0, false, None);
    }
    ghost var swept;
    r, swept, end := DanglingPasses(conn, candidates, size, maxPasses, world, events.value, before, gone);
  }

  /**
   * Deletes the orphans selected from this database, sparing retained trees. Retention is
   * computed again on the tables as they are now.
   */
  method DeleteOrphans(conn: Connection, raw: RawOrphans, keepRecent: nat, size: nat, maxPasses: nat, world: World)
    returns (r: Result<OrphanReport>, ghost c: SweepCourse)
    requires raw.aggregates !! conn.db.sessions.Keys
    modifies conn
    ensures !Acyclic(ParentsOf(old(conn.db))) ==> r.Failure? && r.error.ParentCycle? && conn.db == old(conn.db)
    ensures Acyclic(ParentsOf(old(conn.db))) && size == 0 ==> r == Failure(InvalidArgument) && conn.db == old(conn.db)
    ensures Acyclic(ParentsOf(old(conn.db))) && size > 0 ==>
              r.Success? ==> r.value.deletion.transactions == conn.commits - old(conn.commits)
    ensures Acyclic(ParentsOf(old(conn.db))) && size > 0 ==>
              SweepOutcome(c, old(conn.db), (set id | id in raw.aggregates && IsSessionId(id)), raw.dangling - Retained(old(conn.db), keepRecent),
                           size, world, old(conn.commits), maxPasses, conn.db, conn.commits, r)
  {
    c := SweepCourse(RunResult(0, Finished), {}, Passes({}, conn.commits, 0, false, None));
    var retention := Compute(conn.db, keepRecent);
    if retention.Failure? {
      return Failure(retention.error), c;
    }
    if size == 0 {
      return Failure(InvalidArgument), c;
    }
    var shaped := set id | id in raw.aggregates && IsSessionId(id);
    r, c := SweepSelected(conn, shaped, raw.dangling - retention.value, size, maxPasses, world);
  }

  lemma {:induction false} FirstBatchesWithin(ids: set<Id>, size: nat, n: nat)
    ensures FirstBatches(ids, size, n) <= ids
  {
    if n > 0 { FirstBatchesWithin(ids, size, n - 1); }
  }
}
