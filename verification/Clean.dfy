/** A whole cleanup: selection, preview, deletion, orphan sweep and pruning. */
module Clean {
  import opened Basics
  import opened Forest
  import opened Schema
  import opened Retention
  import opened Orphans
  import opened Predicates
  import opened Selection
  import opened Deletion
  import opened Sweep
  import opened SweepProofs
  import opened Impact
  import opened Projects
  import opened Agreement

  const BATCH_SIZE: nat := 2_500

  datatype Options = Options(keepRecent: nat, orphans: bool, pruneEmpty: bool)

  /** The places between the phases where the run looks at the cancellation flag. */
  datatype Checkpoint = BeforeSessions | AfterSessions | AfterOrphans | AfterPrune

  /** What a run meets: batch failures and answers, the flag at the checkpoints, a failing prune. */
  datatype Weather = Weather(world: World, flagged: set<Checkpoint>, pruneFails: bool)

  ghost predicate Undisturbed(w: Weather) {
    Quiet(w.world) && w.flagged == {} && !w.pruneFails
  }

  datatype CleanReport = CleanReport(plan: Plan, rows: RowCounts, projects: set<Id>, deletion: DeletionReport, pruned: set<Id>)

  /** The flag is set at a checkpoint: it was set when the last callback looked, or has been set since. */
  predicate StopsAt(w: Weather, from: nat, commits: nat, c: Checkpoint) {
    (commits > from && !w.world.Proceed(commits)) || c in w.flagged
  }

  /** Why the run stops after its session phase, if it does. */
  ghost function SessionsStop(run: RunResult, w: Weather): Option<Error> {
    if run.ending.Failed? then Some(run.ending.error)
    else if run.ending.Cancelled? || AfterSessions in w.flagged then Some(Interrupted)
    else None
  }

  /** Deletes the selection, and stops if that was cancelled. */
  method SessionPhase(conn: Connection, selected: set<Id>, w: Weather)
    returns (r: Result<DeletionReport>, ghost run: RunResult, ghost gone: set<Id>)
    modifies conn
    ensures RunsAs(run, gone, selected, BATCH_SIZE, w.world, old(conn.commits))
    ensures gone <= selected && conn.db == DeleteBatch(old(conn.db), gone) && conn.commits == old(conn.commits) + run.done
    ensures if SessionsStop(run, w).Some? then r == Failure(SessionsStop(run, w).value)
            else r.Success? && gone == selected && Accounts(old(conn.db), gone, r.value) && r.value.transactions == run.done
    ensures Undisturbed(w) ==> r.Success?
  {
    var from := conn.commits;
    r, run, gone := DeleteInBatches(conn, selected, BATCH_SIZE, w.world);
    RunEndings(run, gone, selected, BATCH_SIZE, w.world, from);
    if Undisturbed(w) { QuietEvents(run, gone, selected, BATCH_SIZE, w.world, from); }
    if r.Success? && StopsAt(w, from, conn.commits, AfterSessions) {
      r := Failure(Interrupted);
    }
  }

  lemma ShapedAlready(db: Database)
    ensures (set id | id in OrphanAggregates(db) && IsSessionId(id)) == OrphanAggregates(db)
  {
  }

  /** What a sweep of these tables may delete. */
  ghost function Sweepings(db: Database, keepRecent: nat): set<Id> {
    OrphanAggregates(db) + (DanglingSessions(ParentsOf(db)) - Retained(db, keepRecent))
  }

  /** What an undisturbed sweep does delete. */
  ghost function Swept(db: Database, keepRecent: nat): set<Id>
    requires Acyclic(ParentsOf(db))
  {
    DanglingIsWhole(ParentsOf(db));
    OrphanAggregates(db) + Shallow(ParentsOf(db), DanglingSessions(ParentsOf(db)) - Retained(db, keepRecent), DEFAULT_MAX_PASSES)
  }

  /** The course of a sweep over these tables, started after `start` commits. */
  ghost predicate Sweeps(c: SweepCourse, db: Database, keepRecent: nat, w: Weather, start: nat) {
    && RunsAs(c.events, c.aggregates, OrphanAggregates(db), BATCH_SIZE, w.world, start)
    && Course(c.end, c.events, c.aggregates, ParentsOf(db), DanglingSessions(ParentsOf(db)) - Retained(db, keepRecent), BATCH_SIZE,
              w.world, start + c.events.done, DEFAULT_MAX_PASSES)
  }

  /** Why the run stops after a sweep that started after `start` commits, if it does. */
  ghost function SweepStop(c: SweepCourse, w: Weather, start: nat): Option<Error> {
    if c.end.error.Some? then c.end.error
    else if StopsAt(w, start, c.end.commits, AfterOrphans) then Some(Interrupted)
    else None
  }

  /** Selects the orphans of the tables as they are now, and deletes them. */
  method OrphanPhase(conn: Connection, keepRecent: nat, w: Weather)
    returns (r: Result<OrphanReport>, owners: set<Id>, ghost c: SweepCourse)
    requires Acyclic(ParentsOf(conn.db))
    requires Sweepable(ParentsOf(conn.db), DanglingSessions(ParentsOf(conn.db)) - Retained(conn.db, keepRecent))
    modifies conn
    ensures Sweeps(c, old(conn.db), keepRecent, w, old(conn.commits)) && conn.commits == c.end.commits
    ensures c.end.swept <= Sweepings(old(conn.db), keepRecent) && conn.db == DeleteBatch(old(conn.db), c.end.swept)
    ensures owners == OwnersOf(old(conn.db), DanglingSessions(ParentsOf(old(conn.db))))
    ensures if SweepStop(c, w, old(conn.commits)).Some? then r == Failure(SweepStop(c, w, old(conn.commits)).value)
            else r.Success? && Accounts(old(conn.db), c.end.swept, r.value.deletion)
                 && r.value.deletion.transactions == conn.commits - old(conn.commits)
    ensures Undisturbed(w) ==> r.Success?
    ensures Undisturbed(w) ==> c.end.swept == Swept(old(conn.db), keepRecent)
  {
    ghost var before, start := conn.db, conn.commits;
    var from := conn.commits;
    var raw := RawOrphans(OrphanAggregates(conn.db), DanglingSessions(ParentsOf(conn.db)));
    DanglingIsWhole(ParentsOf(conn.db));
    ShapedAlready(conn.db);
    var found := OwnersOfSessions(conn.db, raw.dangling);
    owners := found.value;
    r, c := DeleteOrphans(conn, raw, keepRecent, BATCH_SIZE, DEFAULT_MAX_PASSES, w.world);
    ghost var candidates := raw.dangling - Retained(before, keepRecent);
    SweepWithin(c, before, raw.aggregates, candidates, BATCH_SIZE, w.world, start, DEFAULT_MAX_PASSES, conn.db, conn.commits, r);
    if Quiet(w.world) {
      QuietSweep(c, before, raw.aggregates, candidates, BATCH_SIZE, w.world, start, DEFAULT_MAX_PASSES, conn.db, conn.commits, r);
    }
    if r.Success? && StopsAt(w, from, conn.commits, AfterOrphans) {
      r := Failure(Interrupted);
    }
  }

  /** The sessions selected for deletion. */
  ghost function Selected(db: Database, sel: Selectors, keepRecent: nat): set<Id> {
    var retained := Retained(db, keepRecent);
    Descendants(ParentsOf(db), Candidates(db, sel) - retained) - retained
  }

  ghost function StraysOf(db: Database, sel: Selectors, keepRecent: nat): set<Id> {
    Strays(ParentsOf(db), Selected(db, sel, keepRecent), Retained(db, keepRecent))
  }

  /** The tables after the selection is deleted: same retention, same orphan aggregates, only the strays still dangle. */
  lemma AfterSelection(before: Database, sel: Selectors, keepRecent: nat, mid: Database)
    requires Acyclic(ParentsOf(before)) && mid == DeleteBatch(before, Selected(before, sel, keepRecent))
    ensures Acyclic(ParentsOf(mid)) && ParentsOf(mid) == ParentsOf(before) - Selected(before, sel, keepRecent)
    ensures Retained(mid, keepRecent) == Retained(before, keepRecent)
    ensures OrphanAggregates(mid) == OrphanAggregates(before)
    ensures DanglingSessions(ParentsOf(mid)) - Retained(mid, keepRecent) == StraysOf(before, sel, keepRecent)
    ensures Sweepable(ParentsOf(mid), DanglingSessions(ParentsOf(mid)) - Retained(mid, keepRecent))
  {
    var f, retained, selected := ParentsOf(before), Retained(before, keepRecent), Selected(before, sel, keepRecent);
    RetainedIsWhole(before, keepRecent);
    DeletedIsChildClosed(f, Candidates(before, sel) - retained, retained);
    SessionsAfterBatch(before, selected);
    AggregatesAfterBatch(before, selected);
    RetentionStable(before, keepRecent, selected, mid);
    StraysRemain(f, selected, retained, DEFAULT_MAX_PASSES);
    SweepStart(f, selected, retained);
    assert OrphanAggregates(before) !! selected;
  }

  ghost function PlannedSessions(db: Database, sel: Selectors, o: Options): set<Id> {
    Planned(ParentsOf(db), Candidates(db, sel), Retained(db, o.keepRecent), o.orphans)
  }

  ghost function PlannedAggregates(db: Database, o: Options): set<Id> {
    if o.orphans then OrphanAggregates(db) else {}
  }

  /** A session is planned for deletion when no retained tree holds it, and it is at or below a session wanted or orphaned. */
  lemma PlannedExactly(db: Database, sel: Selectors, o: Options, id: Id)
    ensures id in PlannedSessions(db, sel, o) <==>
              && id in db.sessions && id !in Retained(db, o.keepRecent)
              && exists top <- db.sessions | Above(ParentsOf(db), top, id) ::
                   || (Wanted(db, sel, top) && top !in Retained(db, o.keepRecent))
                   || (o.orphans && db.sessions[top].parent.Some? && db.sessions[top].parent.value !in db.sessions)
    ensures id in PlannedAggregates(db, o) <==> o.orphans && id in db.sequences && id !in db.sessions && IsSessionId(id)
  {
    var f, retained := ParentsOf(db), Retained(db, o.keepRecent);
    DanglingExact(f);
    forall top ensures top in Candidates(db, sel) <==> Wanted(db, sel, top) { CandidateExactly(db, sel, top); }
  }

  /** All a cleanup may delete, sessions and event aggregates. */
  ghost function Deletable(db: Database, sel: Selectors, o: Options): set<Id> {
    PlannedSessions(db, sel, o) + PlannedAggregates(db, o)
  }

  /** All an undisturbed cleanup deletes. */
  ghost function Deleted(db: Database, sel: Selectors, o: Options): set<Id>
    requires Acyclic(ParentsOf(db))
  {
    Applied(ParentsOf(db), Candidates(db, sel), Retained(db, o.keepRecent), o.orphans, DEFAULT_MAX_PASSES)
    + PlannedAggregates(db, o)
  }

  lemma SweepingsAfterSelection(before: Database, sel: Selectors, o: Options, mid: Database)
    requires Acyclic(ParentsOf(before)) && o.orphans && mid == DeleteBatch(before, Selected(before, sel, o.keepRecent))
    ensures Selected(before, sel, o.keepRecent) + Sweepings(mid, o.keepRecent) == Deletable(before, sel, o)
  {
    AfterSelection(before, sel, o.keepRecent, mid);
    PlannedSplits(ParentsOf(before), Candidates(before, sel), Retained(before, o.keepRecent));
  }

  lemma SweptAfterSelection(before: Database, sel: Selectors, o: Options, mid: Database)
    requires Acyclic(ParentsOf(before)) && o.orphans && mid == DeleteBatch(before, Selected(before, sel, o.keepRecent))
    ensures Acyclic(ParentsOf(mid))
    ensures Selected(before, sel, o.keepRecent) + Swept(mid, o.keepRecent) == Deleted(before, sel, o)
  {
    var retained := Retained(before, o.keepRecent);
    AfterSelection(before, sel, o.keepRecent, mid);
    RetainedIsWhole(before, o.keepRecent);
    DeletedIsChildClosed(ParentsOf(before), Candidates(before, sel) - retained, retained);
    StraysRemain(ParentsOf(before), Selected(before, sel, o.keepRecent), retained, DEFAULT_MAX_PASSES);
  }

  lemma AccountsMerge(before: Database, a: set<Id>, mid: Database, ra: DeletionReport, b: set<Id>, after: Database, rb: DeletionReport)
    requires a !! b && mid == DeleteBatch(before, a) && after == DeleteBatch(mid, b)
    requires Accounts(before, a, ra) && Accounts(mid, b, rb)
    ensures after == DeleteBatch(before, a + b) && Accounts(before, a + b, Merge(ra, rb))
  {
    MidwayMerge(before, a, mid, ra, b, after, rb);
    BatchCompose(before, a, b);
  }

  /** The owners of everything deleted are among those looked up before the deletions. */
  lemma OwnersCovered(before: Database, gone: set<Id>, mid: Database, keepRecent: nat, more: set<Id>)
    requires mid == DeleteBatch(before, gone) && more <= Sweepings(mid, keepRecent)
    ensures var affected := OwnersOf(before, gone) + OwnersOf(mid, DanglingSessions(ParentsOf(mid)));
            OwnersOf(before, gone + more) <= affected <= OwnersOf(before, before.sessions.Keys)
  {
    SessionsAfterBatch(before, gone);
    DanglingIsWhole(ParentsOf(mid));
    var found := DanglingSessions(ParentsOf(mid));
    forall id <- more | id in before.sessions && id !in gone ensures id in found { assert id in mid.sessions; }
    OwnersAgree(before, mid, gone, found);
    OwnersSplit(before, gone, more, found);
  }

  /** Surviving sessions have the owners they had. */
  lemma OwnersAgree(before: Database, mid: Database, gone: set<Id>, found: set<Id>)
    requires mid.sessions == before.sessions - gone && found <= mid.sessions.Keys
    ensures OwnersOf(mid, found) == OwnersOf(before, found) && found <= before.sessions.Keys
  {
    forall id <- found ensures id in before.sessions && mid.sessions[id] == before.sessions[id] { assert id in mid.sessions; }
  }

  lemma OwnersSplit(before: Database, gone: set<Id>, more: set<Id>, found: set<Id>)
    requires forall id <- more | id in before.sessions && id !in gone :: id in found
    requires found <= before.sessions.Keys
    ensures OwnersOf(before, gone + more) <= OwnersOf(before, gone) + OwnersOf(before, found) <= OwnersOf(before, before.sessions.Keys)
  {
  }

  lemma SweepingsApart(before: Database, gone: set<Id>, mid: Database, keepRecent: nat)
    requires mid == DeleteBatch(before, gone) && gone <= before.sessions.Keys
    ensures gone !! Sweepings(mid, keepRecent)
  {
    SessionsAfterBatch(before, gone);
    AggregatesAfterBatch(before, gone);
    DanglingIsWhole(ParentsOf(mid));
  }

  lemma SelectedDeletable(db: Database, sel: Selectors, o: Options)
    requires Acyclic(ParentsOf(db))
    ensures Selected(db, sel, o.keepRecent) <= Deletable(db, sel, o)
    ensures !o.orphans ==> Deleted(db, sel, o) == Selected(db, sel, o.keepRecent)
  {
  }

  /** How the deletions of a cleanup went: the batches of its session phase with what they deleted, and its sweep. */
  datatype CleanCourse = CleanCourse(sessions: RunResult, first: set<Id>, sweep: Option<SweepCourse>)

  const NO_COURSE := CleanCourse(RunResult(0, Finished), {}, None)

  ghost function GoneBy(c: CleanCourse): set<Id> {
    if c.sweep.Some? then c.first + c.sweep.value.end.swept else c.first
  }

  /** The course of the deletions in a given weather: a sweep follows exactly a session phase that did not stop. */
  ghost predicate Deletes(c: CleanCourse, db: Database, selected: set<Id>, o: Options, w: Weather, start: nat) {
    && RunsAs(c.sessions, c.first, selected, BATCH_SIZE, w.world, start)
    && (c.sweep.Some? <==> o.orphans && SessionsStop(c.sessions, w).None?)
    && (c.sweep.Some? ==> Sweeps(c.sweep.value, DeleteBatch(db, c.first), o.keepRecent, w, start + c.sessions.done))
  }

  lemma CourseWithSweep(run: RunResult, first: set<Id>, sweep: SweepCourse, db: Database, mid: Database, selected: set<Id>, o: Options,
                        w: Weather, start: nat, from: nat)
    requires RunsAs(run, first, selected, BATCH_SIZE, w.world, start) && o.orphans && SessionsStop(run, w).None?
    requires mid == DeleteBatch(db, first) && from == start + run.done && Sweeps(sweep, mid, o.keepRecent, w, from)
    ensures Deletes(CleanCourse(run, first, Some(sweep)), db, selected, o, w, start)
  {
  }

  /** Why the run stops after its deletions, if it does. */
  ghost function DeletionStop(c: CleanCourse, w: Weather, start: nat): Option<Error> {
    if SessionsStop(c.sessions, w).Some? then SessionsStop(c.sessions, w)
    else if c.sweep.Some? then SweepStop(c.sweep.value, w, start + c.sessions.done)
    else None
  }

  /** The projects of the selection, looked up before it is deleted. */
  method OwnersAndSessions(conn: Connection, selected: set<Id>, o: Options, w: Weather, ghost sel: Selectors)
    returns (r: Result<DeletionReport>, owners: set<Id>, ghost run: RunResult, ghost first: set<Id>)
    requires Acyclic(ParentsOf(conn.db)) && selected == Selected(conn.db, sel, o.keepRecent)
    modifies conn
    ensures RunsAs(run, first, selected, BATCH_SIZE, w.world, old(conn.commits)) && selected <= old(conn.db).sessions.Keys
    ensures first <= selected && first <= Deletable(old(conn.db), sel, o) && conn.db == DeleteBatch(old(conn.db), first)
    ensures conn.commits == old(conn.commits) + run.done
    ensures if SessionsStop(run, w).Some? then r == Failure(SessionsStop(run, w).value)
            else r.Success? && first == selected && Accounts(old(conn.db), first, r.value) && r.value.transactions == run.done
    ensures owners == OwnersOf(old(conn.db), selected) && owners <= OwnersOf(old(conn.db), old(conn.db).sessions.Keys)
    ensures Undisturbed(w) ==> r.Success? && (!o.orphans ==> first == Deleted(old(conn.db), sel, o))
  {
    ghost var before := conn.db;
    DescendantsClosed(ParentsOf(before), Candidates(before, sel) - Retained(before, o.keepRecent));
    SelectedDeletable(before, sel, o);
    OwnersSplit(before, selected, {}, {});
    var owned := OwnersOfSessions(conn.db, selected);
    owners := owned.value;
    r, run, first := SessionPhase(conn, selected, w);
  }

  /** The commits of the connection after these deletions. */
  ghost function CommitsAfter(c: CleanCourse, start: nat): nat {
    if c.sweep.Some? then c.sweep.value.end.commits else start + c.sessions.done
  }

  /** What may stop a run after its session or orphan phase: the flag, or the answer of the last callback. */
  ghost predicate Cancelled(o: Options, w: Weather, start: nat, end: nat) {
    AfterSessions in w.flagged || (o.orphans && AfterOrphans in w.flagged) || (end > start && !w.world.Proceed(end))
  }

  /** The deletions stop exactly when an attempt failed, which is then the last one, or a cancellation was seen. */
  lemma DeletionsEnd(c: CleanCourse, db: Database, selected: set<Id>, o: Options, w: Weather, start: nat)
    requires Deletes(c, db, selected, o, w, start)
    ensures var end, stop := CommitsAfter(c, start), DeletionStop(c, w, start);
            && end >= start
            && (stop.None? ==> AllCommit(w.world, start, end) && !Cancelled(o, w, start, end))
            && (stop.Some? ==> || BrokeOff(w.world, start, end, stop.value)
                               || (stop.value == Interrupted && AllCommit(w.world, start, end) && Cancelled(o, w, start, end)))
  {
    var from := start + c.sessions.done;
    RunExactly(c.sessions, c.first, selected, BATCH_SIZE, w.world, start);
    if c.sweep.Some? { SweepsEnd(c.sweep.value, DeleteBatch(db, c.first), o.keepRecent, w, start, from); }
  }

  lemma SweepsEnd(c: SweepCourse, db: Database, keepRecent: nat, w: Weather, start: nat, from: nat)
    requires Sweeps(c, db, keepRecent, w, from) && start <= from && AllCommit(w.world, start, from)
    ensures c.end.commits >= from
    ensures if c.end.error.None? then AllCommit(w.world, start, c.end.commits) else BrokeOff(w.world, start, c.end.commits, c.end.error.value)
  {
    var candidates := DanglingSessions(ParentsOf(db)) - Retained(db, keepRecent);
    CourseEnds(c, ParentsOf(db), OrphanAggregates(db), candidates, BATCH_SIZE, w.world, from, DEFAULT_MAX_PASSES);
    if c.end.error.Some? { Broken(w.world, start, from, c.end.commits, c.end.error.value); }
  }

  /** Both deletion phases. `affected` collects the projects whose sessions they may delete. */
  method DeletePhases(conn: Connection, selected: set<Id>, o: Options, w: Weather, ghost sel: Selectors)
    returns (r: Result<DeletionReport>, affected: set<Id>, ghost c: CleanCourse)
    requires Acyclic(ParentsOf(conn.db)) && selected == Selected(conn.db, sel, o.keepRecent)
    modifies conn
    ensures Deletes(c, old(conn.db), selected, o, w, old(conn.commits)) && c.first <= selected
    ensures conn.commits == CommitsAfter(c, old(conn.commits))
    ensures GoneBy(c) <= Deletable(old(conn.db), sel, o) && conn.db == DeleteBatch(old(conn.db), GoneBy(c))
    ensures if DeletionStop(c, w, old(conn.commits)).Some? then r == Failure(DeletionStop(c, w, old(conn.commits)).value)
            else r.Success? && Accounts(old(conn.db), GoneBy(c), r.value) && r.value.transactions == conn.commits - old(conn.commits)
    ensures r.Success? ==> OwnersOf(old(conn.db), GoneBy(c)) <= affected <= OwnersOf(old(conn.db), old(conn.db).sessions.Keys)
    ensures Undisturbed(w) ==> r.Success?
    ensures Undisturbed(w) ==> GoneBy(c) == Deleted(old(conn.db), sel, o)
  {
    ghost var before, start := conn.db, conn.commits;
    ghost var run, first;
    r, affected, run, first := OwnersAndSessions(conn, selected, o, w, sel);
    c := CleanCourse(run, first, None);
    if r.Success? && o.orphans {
      var sessionReport := r.value;
      var owners;
      ghost var mid, from := conn.db, conn.commits;
      ghost var sweep;
      r, owners, sweep := SweepPhase(conn, sessionReport, o, w, before, selected, sel);
      c := CleanCourse(run, first, Some(sweep));
      CourseWithSweep(run, first, sweep, before, mid, selected, o, w, start, from);
      affected := affected + owners;
    }
  }

  /** The orphan phase after the selection is deleted, with the reports of both combined. */
  method SweepPhase(conn: Connection, report: DeletionReport, o: Options, w: Weather,
                    ghost before: Database, ghost selected: set<Id>, ghost sel: Selectors)
    returns (r: Result<DeletionReport>, owners: set<Id>, ghost c: SweepCourse)
    requires Acyclic(ParentsOf(before)) && selected == Selected(before, sel, o.keepRecent) && selected <= before.sessions.Keys
    requires o.orphans && conn.db == DeleteBatch(before, selected) && Accounts(before, selected, report)
    modifies conn
    ensures Sweeps(c, old(conn.db), o.keepRecent, w, old(conn.commits)) && conn.commits == c.end.commits
    ensures selected + c.end.swept <= Deletable(before, sel, o) && conn.db == DeleteBatch(before, selected + c.end.swept)
    ensures if SweepStop(c, w, old(conn.commits)).Some? then r == Failure(SweepStop(c, w, old(conn.commits)).value)
            else r.Success? && Accounts(before, selected + c.end.swept, r.value)
                 && r.value.transactions == report.transactions + conn.commits - old(conn.commits)
    ensures OwnersOf(before, selected + c.end.swept) <= OwnersOf(before, selected) + owners <= OwnersOf(before, before.sessions.Keys)
    ensures Undisturbed(w) ==> r.Success?
    ensures Undisturbed(w) ==> selected + c.end.swept == Deleted(before, sel, o)
  {
    ghost var mid := conn.db;
    AfterSelection(before, sel, o.keepRecent, mid);
    SweepingsAfterSelection(before, sel, o, mid);
    SweptAfterSelection(before, sel, o, mid);
    SweepingsApart(before, selected, mid, o.keepRecent);
    var swept;
    swept, owners, c := OrphanPhase(conn, o.keepRecent, w);
    ghost var more := c.end.swept;
    OwnersCovered(before, selected, mid, o.keepRecent, more);
    BatchCompose(before, selected, more);
    if swept.Failure? {
      return Failure(swept.error), owners, c;
    }
    AccountsMerge(before, selected, mid, report, more, conn.db, swept.value.deletion);
    r := Success(Merge(report, swept.value.deletion));
  }

  /** The tables after the deletions and the prune. */
  ghost function Cleaned(db: Database, gone: set<Id>, pruned: set<Id>): Database {
    DeleteProjects(DeleteBatch(db, gone), pruned)
  }

  lemma Unchanged(db: Database)
    ensures Cleaned(db, {}, {}) == db
  {
    EmptyBatch(db);
    PruningNothing(db);
  }

  /** What selection yields: the preview, and the sessions the run itself will delete. */
  method Select(db: Database, sel: Selectors, o: Options) returns (r: Result<CleanReport>, selected: set<Id>)
    ensures r.Success? <==> Accepted(db, sel) && Acyclic(ParentsOf(db))
    ensures r.Success? ==> selected == Selected(db, sel, o.keepRecent)
    ensures r.Success? ==> r.value.plan.sessions == PlannedSessions(db, sel, o)
    ensures r.Success? ==> r.value.plan.aggregates == PlannedAggregates(db, o)
    ensures r.Success? ==> r.value.projects == EmptiedBy(db, r.value.plan.sessions, o.pruneEmpty)
    ensures r.Success? ==> Previewed(r.value.rows, db, r.value.plan, r.value.projects)
    ensures r.Success? ==> r.value.deletion == EMPTY_REPORT && r.value.pruned == {}
  {
    selected := {};
    var retained := Compute(db, o.keepRecent);
    if retained.Failure? {
      return Failure(retained.error), selected;
    }
    var candidates := PredicateCandidates(db, sel, retained.value);
    if candidates.Failure? {
      return Failure(candidates.error), selected;
    }
    var expanded := ExpandCandidates(ParentsOf(db), candidates.value, retained.value);
    var plan := PlanSelection(db, sel, o.keepRecent, o.orphans);
    var rows, projects := DatabaseImpact(db, plan.value, o.pruneEmpty);
    selected := expanded.value;
    r := Success(CleanReport(plan.value, rows, projects, EMPTY_REPORT, {}));
  }

  /** Prunes projects after the deletions of `gone`, then looks at the flag once more. */
  method PrunePhase(conn: Connection, affected: set<Id>, o: Options, w: Weather, ghost before: Database, ghost gone: set<Id>)
    returns (r: Result<set<Id>>, ghost pruned: set<Id>)
    requires conn.db == DeleteBatch(before, gone)
    requires OwnersOf(before, gone) <= affected <= OwnersOf(before, before.sessions.Keys)
    modifies conn`db
    ensures conn.db == Cleaned(before, gone, pruned)
    ensures r == if w.pruneFails then Failure(BatchFailed) else if AfterPrune in w.flagged then Failure(Interrupted) else Success(pruned)
    ensures if w.pruneFails then pruned == {} else Housed(before) ==> pruned == EmptiedBy(before, gone, o.pruneEmpty)
    ensures pruned <= EmptyProjects(DeleteBatch(before, gone))
    ensures Undisturbed(w) ==> r.Success?
  {
    ghost var mid := conn.db;
    PruningNothing(mid);
    SessionsAfterBatch(before, gone);
    r := Prune(conn, affected, o.pruneEmpty, w.pruneFails);
    pruned := if r.Success? then r.value else {};
    if Housed(before) { PrunedAsPreviewed(before, mid, gone, affected, o.pruneEmpty); }
    if r.Success? && AfterPrune in w.flagged {
      r := Failure(Interrupted);
    }
  }

  /** Why a confirmed run fails in a given weather, if it does. */
  ghost function CleanStop(c: CleanCourse, w: Weather, start: nat): Option<Error> {
    if DeletionStop(c, w, start).Some? then DeletionStop(c, w, start)
    else if w.pruneFails then Some(BatchFailed)
    else if AfterPrune in w.flagged then Some(Interrupted)
    else None
  }

  /** The run gets as far as its deletions. */
  ghost predicate Confirmed(db: Database, sel: Selectors, dryRun: bool, w: Weather) {
    !dryRun && Accepted(db, sel) && Acyclic(ParentsOf(db)) && BeforeSessions !in w.flagged
  }

  /**
   * One cleanup. Whatever fails and whenever it is cancelled, only planned sessions, orphan
   * aggregates and emptied projects disappear, with the rows that depend on them. How far a
   * confirmed run gets, and what it returns, is determined by the tables and the weather.
   */
  method Run(conn: Connection, sel: Selectors, o: Options, dryRun: bool, w: Weather)
    returns (r: Result<CleanReport>, ghost gone: set<Id>, ghost pruned: set<Id>, ghost c: CleanCourse)
    modifies conn
    ensures conn.db == Cleaned(old(conn.db), gone, pruned) && gone == GoneBy(c)
    ensures gone <= Deletable(old(conn.db), sel, o) && pruned <= EmptyProjects(DeleteBatch(old(conn.db), gone))
    ensures !Confirmed(old(conn.db), sel, dryRun, w) ==> conn.db == old(conn.db) && gone == {} && pruned == {}
    ensures !Accepted(old(conn.db), sel) || !Acyclic(ParentsOf(old(conn.db))) ==> r.Failure?
    ensures dryRun && Accepted(old(conn.db), sel) && Acyclic(ParentsOf(old(conn.db))) ==> r.Success?
    ensures !dryRun && BeforeSessions in w.flagged ==> r.Failure?
    ensures Confirmed(old(conn.db), sel, dryRun, w) ==>
              && Deletes(c, old(conn.db), Selected(old(conn.db), sel, o.keepRecent), o, w, old(conn.commits))
              && (if CleanStop(c, w, old(conn.commits)).Some? then r == Failure(CleanStop(c, w, old(conn.commits)).value) else r.Success?)
    ensures DeletionStop(c, w, old(conn.commits)).Some? || w.pruneFails ==> pruned == {}
    ensures Confirmed(old(conn.db), sel, dryRun, w) && DeletionStop(c, w, old(conn.commits)).None? && !w.pruneFails && Housed(old(conn.db)) ==>
              pruned == EmptiedBy(old(conn.db), gone, o.pruneEmpty)
    // a failed attempt, a failed prune or a cancellation is never passed over, and nothing else makes a confirmed run fail
    ensures !dryRun && (AfterPrune in w.flagged || w.pruneFails) ==> r.Failure?
    ensures !dryRun && o.orphans && AfterOrphans in w.flagged ==> r.Failure? && pruned == {}
    ensures !dryRun && conn.commits > old(conn.commits) && !w.world.Proceed(conn.commits) ==> r.Failure? && pruned == {}
    ensures r.Success? ==> AllCommit(w.world, old(conn.commits), conn.commits)
    ensures Confirmed(old(conn.db), sel, dryRun, w) && r.Failure? ==>
              || BrokeOff(w.world, old(conn.commits), conn.commits, r.error)
              || (r.error == BatchFailed && w.pruneFails && AllCommit(w.world, old(conn.commits), conn.commits))
              || (r.error == Interrupted && AllCommit(w.world, old(conn.commits), conn.commits)
                  && (w.flagged != {} || (conn.commits > old(conn.commits) && !w.world.Proceed(conn.commits))))
    ensures !dryRun && AfterSessions in w.flagged ==> r.Failure? && pruned == {} && gone <= Selected(old(conn.db), sel, o.keepRecent)
    ensures r.Success? ==> Previewed(r.value.rows, old(conn.db), r.value.plan, r.value.projects)
    ensures r.Success? ==> r.value.projects == EmptiedBy(old(conn.db), r.value.plan.sessions, o.pruneEmpty)
    ensures r.Success? ==> r.value.plan.sessions == PlannedSessions(old(conn.db), sel, o)
    ensures r.Success? ==> r.value.plan.aggregates == PlannedAggregates(old(conn.db), o)
    ensures r.Success? && !dryRun ==> Accounts(old(conn.db), gone, r.value.deletion) && r.value.pruned == pruned
    ensures r.Success? ==> r.value.deletion.transactions == conn.commits - old(conn.commits)
    ensures Undisturbed(w) && Accepted(old(conn.db), sel) && Acyclic(ParentsOf(old(conn.db))) ==> r.Success?
    ensures Undisturbed(w) && r.Success? && !dryRun ==> gone == Deleted(old(conn.db), sel, o)
  {
    ghost var before := conn.db;
    gone, pruned, c := {}, {}, NO_COURSE;
    Unchanged(before);
    var selected;
    r, selected := Select(conn.db, sel, o);
    if r.Failure? || dryRun {
      return;
    }
    if BeforeSessions in w.flagged {
      return Failure(Interrupted), gone, pruned, c;
    }
    var preview := r.value;
    r, gone, pruned, c := Apply(conn, preview, selected, sel, o, w);
    DeletionsEnd(c, before, selected, o, w, old(conn.commits));
  }

  /** The mutating phases of a confirmed run. */
  method Apply(conn: Connection, preview: CleanReport, selected: set<Id>, ghost sel: Selectors, o: Options, w: Weather)
    returns (r: Result<CleanReport>, ghost gone: set<Id>, ghost pruned: set<Id>, ghost c: CleanCourse)
    requires Acyclic(ParentsOf(conn.db)) && selected == Selected(conn.db, sel, o.keepRecent)
    modifies conn
    ensures conn.db == Cleaned(old(conn.db), gone, pruned) && gone == GoneBy(c) && c.first <= selected
    ensures gone <= Deletable(old(conn.db), sel, o) && pruned <= EmptyProjects(DeleteBatch(old(conn.db), gone))
    ensures Deletes(c, old(conn.db), selected, o, w, old(conn.commits)) && conn.commits == CommitsAfter(c, old(conn.commits))
    ensures if CleanStop(c, w, old(conn.commits)).Some? then r == Failure(CleanStop(c, w, old(conn.commits)).value)
            else r.Success? && r.value == preview.(deletion := r.value.deletion, pruned := pruned)
                 && Accounts(old(conn.db), gone, r.value.deletion) && r.value.deletion.transactions == conn.commits - old(conn.commits)
    ensures if DeletionStop(c, w, old(conn.commits)).Some? || w.pruneFails then pruned == {}
            else Housed(old(conn.db)) ==> pruned == EmptiedBy(old(conn.db), gone, o.pruneEmpty)
    ensures Undisturbed(w) ==> r.Success?
    ensures Undisturbed(w) ==> gone == Deleted(old(conn.db), sel, o)
  {
    ghost var before := conn.db;
    var deleted, affected;
    deleted, affected, c := DeletePhases(conn, selected, o, w, sel);
    gone := GoneBy(c);
    if deleted.Failure? {
      pruned := {};
      PruningNothing(conn.db);
      return Failure(deleted.error), gone, pruned, c;
    }
    var done;
    done, pruned := PrunePhase(conn, affected, o, w, before, gone);
    if done.Failure? {
      return Failure(done.error), gone, pruned, c;
    }
    r := Success(preview.(deletion := deleted.value, pruned := done.value));
  }
}
