/** Incremental vacuum: freelist pages given back in bounded, interruptible calls. */
module Incremental {
  import opened Basics
  import opened Batches

  datatype Progress = Progress(pages: nat, bytes: nat)

  datatype VacuumError = NotIncremental | InvalidBatchSize | Cancelled(progress: Progress) | Sqlite

  const U64_MAX: nat := 0xFFFF_FFFF_FFFF_FFFF

  function SaturatingSub(a: nat, b: nat): nat {
    if a < b then 0 else a - b
  }

  function SaturatingMul(a: nat, b: nat): nat {
    if a * b > U64_MAX then U64_MAX else a * b
  }

  function ProgressOf(initial: nat, current: nat, pageSize: nat): Progress {
    var pages := SaturatingSub(initial, current);
    Progress(pages, SaturatingMul(pages, pageSize))
  }

  /**
   * What a run meets, by the number of batches before it: calls that fail, moments where a
   * cancellation is seen, and freelists that another connection has changed.
   */
  datatype Weather = Weather(fails: set<nat>, cancels: set<nat>, interference: map<nat, nat>)

  class Store {
    const autoVacuum: nat
    const pageSize: nat
    var freelist: nat
    var batches: nat
    ghost var reports: seq<Progress>   // what the progress callback was given

    constructor (autoVacuum: nat, pageSize: nat, freelist: nat)
      ensures this.autoVacuum == autoVacuum && this.pageSize == pageSize && this.freelist == freelist && batches == 0 && reports == []
    {
      this.autoVacuum, this.pageSize, this.freelist, batches, reports := autoVacuum, pageSize, freelist, 0, [];
    }

    /** `PRAGMA incremental_vacuum(n)`, and whatever else happened to the freelist meanwhile. */
    method Batch(n: nat, w: Weather) returns (ok: bool)
      modifies this`freelist, this`batches
      ensures ok <==> old(batches) !in w.fails
      ensures !ok ==> freelist == old(freelist) && batches == old(batches)
      ensures ok ==> batches == old(batches) + 1
      ensures ok ==> freelist == if old(batches) in w.interference then w.interference[old(batches)] else SaturatingSub(old(freelist), n)
    {
      if batches in w.fails {
        return false;
      }
      freelist := if batches in w.interference then w.interference[batches] else SaturatingSub(freelist, n);
      batches := batches + 1;
      ok := true;
    }

    /**
     * Gives freelist pages back until none is left or a call gains nothing. However it ends, the
     * totals are those of the freelist at that moment.
     */
    method IncrementalVacuum(pagesPerBatch: nat, w: Weather) returns (r: Outcome<Progress, VacuumError>)
      modifies this
      ensures autoVacuum != 2 ==> r == Failure(NotIncremental)
      ensures autoVacuum == 2 && pagesPerBatch == 0 ==> r == Failure(InvalidBatchSize)
      ensures autoVacuum != 2 || pagesPerBatch == 0 ==> freelist == old(freelist) && batches == old(batches)
      ensures r.Success? ==> r.value == ProgressOf(old(freelist), freelist, pageSize)
      ensures r.Failure? && r.error.Cancelled? ==> r.error.progress == ProgressOf(old(freelist), freelist, pageSize)
      ensures old(batches) <= batches <= old(batches) + old(freelist)
      ensures |reports| == |old(reports)| + batches - old(batches) && old(reports) <= reports
      ensures batches > old(batches) ==> reports[|reports| - 1] == ProgressOf(old(freelist), freelist, pageSize)
      ensures forall b | old(batches) <= b < batches :: b !in w.cancels && b !in w.fails
      ensures r.Failure? && r.error.Cancelled? ==> batches in w.cancels
      ensures r == Failure(Sqlite) ==> batches in w.fails
      ensures autoVacuum == 2 && pagesPerBatch > 0 && w == Weather({}, {}, map[]) ==>
                r == Success(Progress(old(freelist), SaturatingMul(old(freelist), pageSize)))
                && freelist == 0 && batches == old(batches) + BatchCount(old(freelist), pagesPerBatch)
    {
      if autoVacuum != 2 {
        return Failure(NotIncremental);
      }
      if pagesPerBatch == 0 {
        return Failure(InvalidBatchSize);
      }
      var initial := freelist;
      var remaining := initial;
      var progress := Progress(0, 0);
      ghost var start := batches;
      NoProgress(initial, pageSize);
      PlanStart(initial, pagesPerBatch);
      while remaining > 0
        invariant remaining <= initial && freelist == remaining && progress == ProgressOf(initial, freelist, pageSize)
        invariant start <= batches <= start + initial - remaining
        invariant |reports| == |old(reports)| + batches - start && old(reports) <= reports
        invariant batches > start ==> reports[|reports| - 1] == progress
        invariant forall b | start <= b < batches :: b !in w.cancels && b !in w.fails
        invariant w == Weather({}, {}, map[]) ==> OnPlan(initial, pagesPerBatch, batches - start, remaining)
      {
        if batches in w.cancels {
          return Failure(Cancelled(progress));
        }
        if OnPlan(initial, pagesPerBatch, batches - start, remaining) { PlanNext(initial, pagesPerBatch, batches - start, remaining); }
        var ok := Batch(pagesPerBatch, w);
        if !ok {
          return Failure(Sqlite);
        }
        var current := freelist;
        progress := ProgressOf(initial, current, pageSize);
        reports := reports + [progress];
        if current >= remaining {
          break;
        }
        remaining := current;
      }
      if w == Weather({}, {}, map[]) { PlanEnd(initial, pagesPerBatch, batches - start, pageSize); }
      r := Success(progress);
    }
  }

  lemma NoProgress(initial: nat, pageSize: nat)
    ensures ProgressOf(initial, initial, pageSize) == Progress(0, 0)
  {
  }

  /**
   * `remaining` pages are left after `done` undisturbed batches. The quantifier keeps the product
   * out of proofs that do not mention the batch count.
   */
  ghost predicate OnPlan(initial: nat, size: nat, done: nat, remaining: nat)
    requires size > 0
  {
    forall n: nat {:trigger BatchCount(n, size)} :: n == initial ==>
      remaining == SaturatingSub(n, done * size) && done <= BatchCount(n, size)
  }

  lemma PlanStart(initial: nat, size: nat)
    requires size > 0
    ensures OnPlan(initial, size, 0, initial)
  {
  }

  lemma PlanNext(initial: nat, size: nat, done: nat, remaining: nat)
    requires size > 0 && remaining > 0 && OnPlan(initial, size, done, remaining)
    ensures OnPlan(initial, size, done + 1, SaturatingSub(remaining, size)) && SaturatingSub(remaining, size) < remaining
  {
    var all := BatchCount(initial, size);
    BatchCountCovers(initial, size);
    assert done == all ==> done * size >= initial;
    assert (done + 1) * size == done * size + size;
  }

  lemma PlanEnd(initial: nat, size: nat, done: nat, pageSize: nat)
    requires size > 0 && OnPlan(initial, size, done, 0)
    ensures done == BatchCount(initial, size)
    ensures ProgressOf(initial, 0, pageSize) == Progress(initial, SaturatingMul(initial, pageSize))
  {
    var all := BatchCount(initial, size);
    BatchCountCovers(initial, size);
    assert done < all ==> done * size < initial;
  }
}
