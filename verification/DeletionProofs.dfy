/** Batched deletion against deletion in one go. */
module DeletionProofs {
  import opened Basics
  import opened Schema
  import opened Batches
  import opened Deletion
  import opened Sweep
  import opened SweepProofs

  lemma FirstTaken(ids: set<Id>, size: nat, n: nat, taken: nat)
    requires taken == n * size
    ensures FirstBatches(ids, size, n) == Smallest(ids, taken)
  {
    FirstBatchesAreSmallest(ids, size, n);
  }

  lemma RunTakes(run: RunResult, gone: set<Id>, ids: set<Id>, size: nat, world: World, start: nat, n: nat, taken: nat)
    requires size > 0 && n == run.done && taken == n * size && RunsAs(run, gone, ids, size, world, start)
    ensures n <= BatchCount(|ids|, size) && gone == Smallest(ids, taken)
  {
    assert run == BatchRun(world, start, BatchCount(|ids|, size));
    FirstTaken(ids, size, n, taken);
  }

  /**
   * However a deletion ends, only whole batches are gone: after `n` commits exactly the `n * size`
   * smallest ids, with everything that depends on them.
   */
  lemma WholeBatchesOnly(before: Database, ids: set<Id>, size: nat, world: World, start: nat,
                         after: Database, end: nat, r: Result<DeletionReport>, n: nat, taken: nat)
    requires size > 0 && taken == n * size && end == start + n
    requires BatchesOutcome(before, ids, size, world, start, after, end, r)
    ensures n <= BatchCount(|ids|, size) && after == DeleteBatch(before, Smallest(ids, taken))
    ensures r.Success? ==> r.value.transactions == n && Accounts(before, Smallest(ids, taken), r.value)
  {
    var run, gone := OutcomeRuns(before, ids, size, world, start, after, end, r);
    RunTakes(run, gone, ids, size, world, start, n, taken);
  }

  /**
   * How every deletion ends. It succeeds exactly when no attempt it made failed; then all ids are gone,
   * or the last callback asked to stop. Otherwise the last attempt failed, and its error is returned.
   */
  lemma DeletionEnds(before: Database, ids: set<Id>, size: nat, world: World, start: nat,
                     after: Database, end: nat, r: Result<DeletionReport>)
    requires size > 0 && BatchesOutcome(before, ids, size, world, start, after, end, r)
    ensures start <= end && NoStop(world, start, end)
    ensures r.Success? ==> AllCommit(world, start, end)
    ensures r.Success? && !(end > start && !world.Proceed(end)) ==> after == DeleteBatch(before, ids)
    ensures r.Failure? ==> BrokeOff(world, start, end, r.error)
  {
    var run, gone := OutcomeRuns(before, ids, size, world, start, after, end, r);
    RunSettles(run, gone, ids, size, world, start, end);
  }

  lemma RunSettles(run: RunResult, gone: set<Id>, ids: set<Id>, size: nat, world: World, start: nat, end: nat)
    requires size > 0 && RunsAs(run, gone, ids, size, world, start) && end == start + run.done
    ensures NoStop(world, start, end)
    ensures if run.ending.Failed? then BrokeOff(world, start, end, run.ending.error) else AllCommit(world, start, end)
    ensures !run.ending.Failed? && !(end > start && !world.Proceed(end)) ==> gone == ids
  {
    RunExactly(run, gone, ids, size, world, start);
    RunEndings(run, gone, ids, size, world, start);
  }

  /** Undisturbed, batches of any size amount to one deletion of all ids, in as many transactions as cover them. */
  lemma OneShot(before: Database, ids: set<Id>, size: nat, world: World, start: nat,
                after: Database, end: nat, r: Result<DeletionReport>)
    requires size > 0 && Quiet(world) && BatchesOutcome(before, ids, size, world, start, after, end, r)
    ensures after == DeleteBatch(before, ids) && end == start + BatchCount(|ids|, size)
    ensures r.Success? && r.value.transactions == BatchCount(|ids|, size) && Accounts(before, ids, r.value)
  {
    QuietTakesAll(world, start, ids, size);
  }

  /** A callback that first says stop after a certain commit stops the deletion exactly there. */
  lemma StopsAfterBatch(before: Database, ids: set<Id>, size: nat, world: World, start: nat,
                        after: Database, end: nat, r: Result<DeletionReport>, stop: nat, taken: nat)
    requires size > 0 && start < stop && taken == (stop - start) * size
    requires stop <= start + BatchCount(|ids|, size) && forall m: nat | start <= m < stop :: world.Fate(m) == Commits
    requires !world.Proceed(stop) && forall m: nat | start < m < stop :: world.Proceed(m)
    requires BatchesOutcome(before, ids, size, world, start, after, end, r)
    ensures end == stop && after == DeleteBatch(before, Smallest(ids, taken)) && r.Success? && r.value.transactions == stop - start
  {
    RunStopsAt(world, start, BatchCount(|ids|, size), stop);
    WholeBatchesOnly(before, ids, size, world, start, after, end, r, stop - start, taken);
  }
}
