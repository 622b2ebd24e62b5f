/**
 * Batched deletion over a temporary table of purge ids. Each batch is one immediate
 * transaction; a failure inside it rolls it back, a failure of the WAL checkpoint after its
 * commit does not.
 */
module Deletion {
  import opened Basics
  import opened Schema
  import opened Batches
  import opened Recursion
  import opened Subtrees

  /** The statement of a batch transaction that fails: lock contention, deadline or SQLite error. */
  datatype Stage = Beginning | Selecting | Counting | DeletingSessions | DeletingEvents | Completing | Committing

  datatype Fate = Commits | FailsAt(stage: Stage) | CheckpointFails

  predicate Passes(fate: Fate, stage: Stage) {
    !(fate.FailsAt? && fate.stage == stage)
  }

  /**
   * What happens around the batches of a connection. The attempt made when `n` batches have
   * committed fails as `failures[n]` says, and commits when `n` is not listed; the progress
   * callback asks to stop after the `n`-th commit when `n` is in `stops`. Clock, locks and signals
   * reach the code only through these two. Every run is finite, so finite tables cover all runs.
   */
  datatype World = World(failures: map<nat, Fate>, stops: set<nat>) {
    function Fate(n: nat): Fate {
      if n in failures then failures[n] else Commits
    }

    predicate Proceed(n: nat) {
      n !in stops
    }
  }

  const TABLE_COUNTS: seq<Table> :=
    [Events, EventSequences, Messages, Parts, Sessions, ContextEpochs, Inputs, SessionMessages, Shares, Todos]

  /** The report's counters: the multiplicity of a table is its number of rows. */
  type RowCounts = multiset<Table>

  function Add(rows: RowCounts, t: Table, n: nat): RowCounts {
    rows[t := rows[t] + n]
  }

  lemma CountedExactly(t: Table)
    ensures t in TABLE_COUNTS <==> SessionSide(t)
  {
    match t
    case Events => assert TABLE_COUNTS[0] == t;
    case EventSequences => assert TABLE_COUNTS[1] == t;
    case Messages => assert TABLE_COUNTS[2] == t;
    case Parts => assert TABLE_COUNTS[3] == t;
    case Sessions => assert TABLE_COUNTS[4] == t;
    case ContextEpochs => assert TABLE_COUNTS[5] == t;
    case Inputs => assert TABLE_COUNTS[6] == t;
    case SessionMessages => assert TABLE_COUNTS[7] == t;
    case Shares => assert TABLE_COUNTS[8] == t;
    case Todos => assert TABLE_COUNTS[9] == t;
    case _ =>
  }

  ghost predicate AreCounts(rows: RowCounts, db: Database, ids: set<Id>) {
    forall t {:trigger rows[t]} :: rows[t] == if SessionSide(t) then CountOwnedBy(db, t, ids) else 0
  }

  lemma {:induction false} CountsExist(tables: set<Table>, db: Database, ids: set<Id>) returns (rows: RowCounts)
    ensures forall t {:trigger rows[t]} :: rows[t] == if t in tables then CountOwnedBy(db, t, ids) else 0
  {
    if tables == {} {
      rows := multiset{};
    } else {
      var t :| t in tables;
      rows := CountsExist(tables - {t}, db, ids);
      rows := Add(rows, t, CountOwnedBy(db, t, ids));
    }
  }

  /** The rows the counting queries find for a set of ids, by table. */
  ghost function CountsOf(db: Database, ids: set<Id>): (rows: RowCounts)
    ensures AreCounts(rows, db, ids)
  {
    assert exists rows :: AreCounts(rows, db, ids) by {
      var rows := CountsExist((set t | SessionSide(t)), db, ids);
      assert AreCounts(rows, db, ids);
    }
    var rows :| AreCounts(rows, db, ids);
    rows
  }

  datatype DeletionReport = DeletionReport(rows: RowCounts, transactions: nat, deletedSessions: set<Id>)

  const EMPTY_REPORT := DeletionReport(multiset{}, 0, {})

  /** Why a run of batches stopped. */
  datatype Ending = Finished | Cancelled | Failed(error: Error)

  /** How many batches of a run commit, and why it stops. */
  datatype RunResult = RunResult(done: nat, ending: Ending)

  /** The course of a run with `left` batches to go, after `commits` commits of the connection. */
  ghost function BatchRun(world: World, commits: nat, left: nat): (r: RunResult)
    ensures r.done <= left
    ensures r.ending.Finished? ==> r.done == left
    decreases left
  {
    if left == 0 then RunResult(0, Finished)
    else match world.Fate(commits)
      case FailsAt(_) => RunResult(0, Failed(BatchFailed))
      case CheckpointFails => RunResult(1, Failed(CheckpointFailed))
      case Commits =>
        if !world.Proceed(commits + 1) then RunResult(1, Cancelled)
        else Later(1, BatchRun(world, commits + 1, left - 1))
  }

  /** Every attempt from `from` on, up to the one at `to`, commits. */
  ghost predicate AllCommit(world: World, from: nat, to: nat) {
    forall m: nat | from <= m < to :: world.Fate(m) == Commits
  }

  /** No callback between two commits asks to stop. */
  ghost predicate NoStop(world: World, from: nat, to: nat) {
    forall m: nat | from < m < to :: world.Proceed(m)
  }

  /** The last attempt made, after which `end` batches are committed, failed with this error, and none before it. */
  ghost predicate BrokeOff(world: World, start: nat, end: nat, error: Error) {
    || (error == BatchFailed && world.Fate(end).FailsAt? && AllCommit(world, start, end))
    || (error == CheckpointFailed && end > start && world.Fate(end - 1).CheckpointFails? && AllCommit(world, start, end - 1))
  }

  ghost function Later(n: nat, run: RunResult): RunResult {
    RunResult(n + run.done, run.ending)
  }

  /** What one attempt contributes to a run: commit or not, and whether the run stops there. */
  ghost predicate Attempt(world: World, commits: nat, commits': nat, ending: Option<Ending>) {
    match world.Fate(commits)
    case FailsAt(_) => commits' == commits && ending == Some(Failed(BatchFailed))
    case CheckpointFails => commits' == commits + 1 && ending == Some(Failed(CheckpointFailed))
    case Commits => commits' == commits + 1 && ending == if world.Proceed(commits') then None else Some(Cancelled)
  }

  /**
   * A run goes through its batches until one fails, the checkpoint after one fails, a callback asks to
   * stop, or none is left. Its ending says which.
   */
  lemma {:induction false} BatchRunExactly(world: World, commits: nat, left: nat)
    ensures var run := BatchRun(world, commits, left);
            var end := commits + run.done;
            && end <= commits + left && NoStop(world, commits, end)
            && match run.ending
               case Finished => run.done == left && AllCommit(world, commits, end) && (left > 0 ==> world.Proceed(end))
               case Cancelled => run.done > 0 && AllCommit(world, commits, end) && !world.Proceed(end)
               case Failed(error) =>
                 && BrokeOff(world, commits, end, error)
                 && (error == BatchFailed ==> run.done < left && (run.done > 0 ==> world.Proceed(end)))
    decreases left
  {
    if left > 0 { BatchRunExactly(world, commits + 1, left - 1); }
  }

  /** Where a run started at `start` stands when the connection has committed `commits` batches. */
  ghost predicate OnCourse(total: nat, world: World, start: nat, commits: nat, ending: Option<Ending>) {
    && start <= commits <= start + total
    && match ending
       case None => BatchRun(world, start, total) == Later(commits - start, BatchRun(world, commits, start + total - commits))
       case Some(e) => BatchRun(world, start, total) == RunResult(commits - start, e)
  }

  lemma OnCourseStep(total: nat, world: World, start: nat, commits: nat, commits': nat, ending: Option<Ending>)
    requires OnCourse(total, world, start, commits, None) && commits < start + total
    requires Attempt(world, commits, commits', ending)
    ensures OnCourse(total, world, start, commits', ending)
  {
  }

  /** No batch fails and no callback asks to stop. */
  ghost predicate Quiet(world: World) {
    forall n: nat :: world.Fate(n) == Commits && world.Proceed(n)
  }

  lemma {:induction false} QuietRun(world: World, commits: nat, left: nat)
    requires Quiet(world)
    ensures BatchRun(world, commits, left) == RunResult(left, Finished)
    decreases left
  {
    if left > 0 {
      assert world.Fate(commits) == Commits && world.Proceed(commits + 1);
      QuietRun(world, commits + 1, left - 1);
    }
  }

  ghost function AddBatch(report: DeletionReport, db: Database, taken: set<Id>): DeletionReport {
    DeletionReport(report.rows + CountsOf(db, taken), report.transactions + 1,
                   report.deletedSessions + taken * db.sessions.Keys)
  }

  /** The report accounts for exactly the sessions and rows of the ids taken so far. */
  ghost predicate Accounts(before: Database, taken: set<Id>, report: DeletionReport) {
    && report.deletedSessions == taken * before.sessions.Keys
    && (Integrity(before) ==> report.rows == CountsOf(before, taken))
  }

  /**
   * The tables and the report once the ids of some batches have been taken. The quantifier over one
   * value keeps the counts folded in proofs that do not mention the deletion.
   */
  ghost predicate Midway(before: Database, taken: set<Id>, db: Database, report: DeletionReport) {
    forall ids {:trigger DeleteBatch(before, ids)} ::
      ids == taken ==> db == DeleteBatch(before, ids) && Accounts(before, ids, report)
  }

  /** Rows owned by different ids are different rows, and a batch leaves the rows of other ids alone. */
  lemma CountsAdd(before: Database, a: set<Id>, b: set<Id>, t: Table)
    requires Integrity(before) && a !! b && SessionSide(t)
    ensures CountOwnedBy(before, t, a + b) == CountOwnedBy(before, t, a) + CountOwnedBy(DeleteBatch(before, a), t, b)
  {
    var after := DeleteBatch(before, a);
    KeysExact(before, t);
    KeysExact(after, t);
    forall id ensures id in KeysOwnedBy(after, t, b) <==> id in KeysOwnedBy(before, t, b) {
      BatchRemoves(before, a, Ref(t, id));
    }
    assert KeysOwnedBy(after, t, b) == KeysOwnedBy(before, t, b);
    OwnedBySplit(before, t, a, b);
  }

  lemma OwnedBySplit(db: Database, t: Table, a: set<Id>, b: set<Id>)
    requires a !! b
    ensures CountOwnedBy(db, t, a + b) == CountOwnedBy(db, t, a) + CountOwnedBy(db, t, b)
  {
    var ka, kb := KeysOwnedBy(db, t, a), KeysOwnedBy(db, t, b);
    assert KeysOwnedBy(db, t, a + b) == ka + kb && ka !! kb;
  }

  lemma AllCountsAdd(before: Database, a: set<Id>, b: set<Id>)
    requires Integrity(before) && a !! b
    ensures CountsOf(before, a) + CountsOf(DeleteBatch(before, a), b) == CountsOf(before, a + b)
  {
    var ca, cb, cab := CountsOf(before, a), CountsOf(DeleteBatch(before, a), b), CountsOf(before, a + b);
    forall t ensures ca[t] + cb[t] == cab[t] {
      if SessionSide(t) { CountsAdd(before, a, b, t); }
    }
  }

  lemma NothingCounted(db: Database)
    ensures CountsOf(db, {}) == multiset{}
  {
    var rows := CountsOf(db, {});
    forall t ensures rows[t] == 0 { assert KeysOwnedBy(db, t, {}) == {}; }
  }

  lemma MidwayNext(before: Database, taken: set<Id>, more: set<Id>, db: Database, report: DeletionReport)
    requires taken !! more && Midway(before, taken, db, report)
    ensures Midway(before, taken + more, DeleteBatch(db, more), AddBatch(report, db, more))
  {
    assert db == DeleteBatch(before, taken);
    BatchCompose(before, taken, more);
    SessionsAfterBatch(before, taken);
    if Integrity(before) { AllCountsAdd(before, taken, more); }
  }

  lemma MidwayStart(before: Database)
    ensures Midway(before, {}, before, EMPTY_REPORT)
  {
    EmptyBatch(before);
    NothingCounted(before);
  }

  /** The result of a batched deletion run, as a function of the ids, the start and the world. */
  ghost predicate BatchesOutcome(
    before: Database, ids: set<Id>, size: nat, world: World, start: nat,
    after: Database, end: nat, r: Result<DeletionReport>)
    requires size > 0
  {
    var run := BatchRun(world, start, BatchCount(|ids|, size));
    var taken := FirstBatches(ids, size, run.done);
    && end == start + run.done
    && after == DeleteBatch(before, taken)
    && match run.ending
       case Failed(error) => r == Failure(error)
       case _ => r.Success? && r.value.transactions == run.done && Accounts(before, taken, r.value)
  }

  /** A run that has stopped, or has no ids left, has its outcome. */
  lemma Conclude(before: Database, ids: set<Id>, size: nat, world: World, start: nat, end: nat, ending: Option<Ending>,
                 taken: set<Id>, db: Database, report: DeletionReport, r: Result<DeletionReport>)
    requires size > 0 && OnCourse(BatchCount(|ids|, size), world, start, end, ending)
    requires ending.None? ==> end == start + BatchCount(|ids|, size)
    requires TakenBy(ids, size, end - start, taken)
    requires Midway(before, taken, db, report) && report.transactions == end - start
    requires var last := if ending.Some? then ending.value else Finished;
             r == if last.Failed? then Failure(last.error) else Success(report)
    ensures BatchesOutcome(before, ids, size, world, start, db, end, r)
  {
    assert taken == FirstBatches(ids, size, end - start);
  }

  /** One turn of the batch loop takes the next batch, unless its transaction fails. */
  lemma TurnDone(ids: set<Id>, size: nat, world: World, start: nat, from: nat, to: nat, had: set<Id>, taken: set<Id>, purge: set<Id>,
                 ending: Option<Ending>)
    requires size > 0 && start <= from && OnCourse(BatchCount(|ids|, size), world, start, from, None)
    requires from < start + BatchCount(|ids|, size) && Attempt(world, from, to, ending)
    requires TakenBy(ids, size, from - start, had) && purge == ids - had
    requires taken == if to == from then had else had + Smallest(purge, size)
    ensures start <= to <= start + BatchCount(|ids|, size) && OnCourse(BatchCount(|ids|, size), world, start, to, ending)
    ensures TakenBy(ids, size, to - start, taken) && purge - taken == ids - taken
  {
    TakenNext(ids, size, from - start, had);
    OnCourseStep(BatchCount(|ids|, size), world, start, from, to, ending);
  }

  class Connection {
    var db: Database
    var purge: set<Id>       // temporary table purge_ids
    var batch: set<Id>       // temporary table batch_ids
    var candidates: set<Id>  // temporary table dangling_session_candidates
    var commits: nat         // committed deletion batches

    constructor (db: Database)
      ensures this.db == db && commits == 0
    {
      this.db, purge, batch, candidates, commits := db, {}, {}, {}, 0;
    }

    method Materialize(ids: set<Id>)
      modifies this`purge, this`batch
      ensures purge == ids && batch == {}
    {
      purge, batch := {}, {};
      var order := Ascending(ids);
      for i := 0 to |order|
        invariant forall id :: id in purge <==> id in order[..i]
        invariant batch == {}
      {
        purge := purge + {order[i]};
      }
      assert order[..|order|] == order;
    }

    /** Selects the next batch, if any purge ids are left. */
    method BeginBatch(size: nat) returns (begun: bool)
      modifies this`batch
      ensures begun <==> purge != {}
      ensures begun ==> batch == Smallest(purge, size)
      ensures !begun ==> batch == old(batch)
    {
      if purge == {} {
        return false;
      }
      var order := Ascending(purge);
      var n := if size < |order| then size else |order|;
      batch := set id | id in order[..n];
      assert order == order[..n] + order[n..];
      DistinctSize(order[..n]) by { forall i, j | 0 <= i < j < n ensures order[i] != order[j] { IdOrder(order[i], order[j]); } }
      SmallestUnique(batch, Smallest(purge, size), purge, size);
      return true;
    }

    method RemoveCompleted()
      modifies this`purge, this`batch
      ensures purge == old(purge) - old(batch) && batch == {}
    {
      purge := purge - batch;
      batch := {};
    }

    /** Adds the batch's row counts, one counting query per table. */
    method AccumulateCounts(rows: RowCounts) returns (r: RowCounts)
      ensures r == rows + CountsOf(db, batch)
    {
      r := rows;
      for i := 0 to |TABLE_COUNTS|
        invariant forall t :: r[t] == rows[t] + (if t in TABLE_COUNTS[..i] then CountOwnedBy(db, t, batch) else 0)
      {
        var t := TABLE_COUNTS[i];
        assert TABLE_COUNTS[..i + 1] == TABLE_COUNTS[..i] + [t];
        assert t !in TABLE_COUNTS[..i];
        r := Add(r, t, CountOwnedBy(db, t, batch));
      }
      ghost var counts := CountsOf(db, batch);
      assert TABLE_COUNTS[..|TABLE_COUNTS|] == TABLE_COUNTS;
      forall t ensures r[t] == rows[t] + counts[t] {
        CountedExactly(t);
      }
      assert r == rows + counts;
    }

    /**
     * One transaction over the next batch. Either it commits, and exactly the batch and its
     * dependent rows are gone, or it fails and nothing has changed.
     */
    method RunBatch(size: nat, fate: Fate, report: DeletionReport) returns (ok: bool, r: DeletionReport)
      requires size > 0 && purge != {} && batch == {}
      modifies this`db, this`purge, this`batch, this`commits
      ensures ok <==> !fate.FailsAt?
      ensures !ok ==> db == old(db) && purge == old(purge) && batch == {} && commits == old(commits)
      ensures ok ==> var taken := Smallest(old(purge), size);
                && db == DeleteBatch(old(db), taken) && purge == old(purge) - taken
                && r == AddBatch(report, old(db), taken) && batch == {} && commits == old(commits) + 1
    {
      var savedDb, savedPurge := db, purge;
      r := report;
      ok := false;
      var begun := BeginBatch(size);
      if Passes(fate, Beginning) && Passes(fate, Selecting) {
        var existing := batch * db.sessions.Keys;
        if Passes(fate, Counting) {
          var rows := AccumulateCounts(report.rows);
          r := DeletionReport(rows, report.transactions + 1, report.deletedSessions + existing);
          if Passes(fate, DeletingSessions) {
            db := ExecuteDelete(db, SessionSeeds(batch));
            if Passes(fate, DeletingEvents) {
              db := ExecuteDelete(db, SequenceSeeds(batch));
              if Passes(fate, Completing) {
                TwoStatements(savedDb, batch);
                RemoveCompleted();
                ok := Passes(fate, Committing);
              }
            }
          }
        }
      }
      if ok {
        commits := commits + 1;
      } else {
        db, purge, batch := savedDb, savedPurge, {};  // the dropped transaction rolls back
      }
    }

    /** One turn of the batch loop, and the reason to stop after it, if any. */
    method NextBatch(size: nat, world: World, report: DeletionReport, ghost before: Database, ghost taken: set<Id>)
      returns (ending: Option<Ending>, next: DeletionReport, ghost taken': set<Id>)
      requires size > 0 && purge != {} && batch == {}
      requires Midway(before, taken, db, report) && taken !! purge
      modifies this`db, this`purge, this`batch, this`commits
      ensures batch == {} && Attempt(world, old(commits), commits, ending)
      ensures taken' == if commits == old(commits) then taken else taken + Smallest(old(purge), size)
      ensures Midway(before, taken', db, next) && purge == old(purge) - taken'
      ensures next.transactions == report.transactions + commits - old(commits)
    {
      var fate := world.Fate(commits);
      ghost var more := Smallest(purge, size);
      MidwayNext(before, taken, more, db, report);
      var ok, counted := RunBatch(size, fate, report);
      if !ok {
        return Some(Failed(BatchFailed)), report, taken;
      }
      next, taken' := counted, taken + more;
      if fate.CheckpointFails? {
        return Some(Failed(CheckpointFailed)), next, taken';
      }
      ending := if world.Proceed(commits) then None else Some(Cancelled);
    }

    /**
     * Deletes a set of sessions, or event aggregates, in batches. The ids deleted are always the
     * smallest of the set, in whole batches; how many batches commit is determined by the
     * failures and answers the run meets.
     */
    method DeleteWithProgress(ids: set<Id>, size: nat, world: World) returns (r: Result<DeletionReport>)
      modifies this`db, this`purge, this`batch, this`commits
      ensures size == 0 ==> r == Failure(InvalidArgument) && db == old(db) && commits == old(commits)
      ensures size > 0 ==> BatchesOutcome(old(db), ids, size, world, old(commits), db, commits, r)
    {
      if size == 0 {
        return Failure(InvalidArgument);
      }
      Materialize(ids);
      var report := EMPTY_REPORT;
      var ending: Option<Ending> := None;
      ghost var before, start, total := db, commits, BatchCount(|ids|, size);
      ghost var taken: set<Id> := {};
      MidwayStart(before);
      while purge != {} && ending.None?
        invariant batch == {} && start <= commits <= start + total
        invariant TakenBy(ids, size, commits - start, taken) && purge == ids - taken
        invariant Midway(before, taken, db, report) && report.transactions == commits - start
        invariant OnCourse(total, world, start, commits, ending)
        decreases start + total - commits, ending.None?
      {
        ghost var from, had, all := commits, taken, purge;
        BatchesLeft(ids, size, from - start, had);
        ending, report, taken := NextBatch(size, world, report, before, taken);
        TurnDone(ids, size, world, start, from, commits, had, taken, all, ending);
      }
      BatchesLeft(ids, size, commits - start, taken);
      var last := if ending.Some? then ending.value else Finished;
      r := if last.Failed? then Failure(last.error) else Success(report);
      Conclude(before, ids, size, world, start, commits, ending, taken, db, report, r);
    }
  }
}
