/** Effective session ages and the age predicate. */
module Ages {
  import opened Basics
  import opened Forest
  import opened Recursion
  import opened Ranking
  import opened Schema

  /** The update times of a session and all its descendants. */
  ghost function SubtreeTimes(db: Database, id: Id): set<int> {
    set d | d in db.sessions && Above(ParentsOf(db), id, d) :: db.sessions[d].timeUpdated
  }

  lemma OwnTimeCounts(db: Database, id: Id)
    requires id in db.sessions
    ensures db.sessions[id].timeUpdated in SubtreeTimes(db, id)
  {
    AboveSelf(ParentsOf(db), id);
  }

  /**
   * The greatest of the update times in a session's subtree. As in `Batches.TakenBy` the quantifier over
   * one value keeps the definition folded in proofs that do not mention the subtree's times.
   */
  ghost predicate IsLatest(db: Database, id: Id, t: int) {
    forall s {:trigger SubtreeTimes(db, s)} :: s == id ==> t in SubtreeTimes(db, s) && forall x <- SubtreeTimes(db, s) :: x <= t
  }

  lemma LatestExists(db: Database, id: Id)
    requires id in db.sessions
    ensures exists t :: IsLatest(db, id, t)
  {
    OwnTimeCounts(db, id);
    assert IsLatest(db, id, MaxOf(SubtreeTimes(db, id)));
  }

  /** The latest activity anywhere in a session's subtree. */
  ghost function EffectiveTime(db: Database, id: Id): (t: int)
    requires id in db.sessions
    ensures IsLatest(db, id, t)
  {
    LatestExists(db, id);
    var t :| IsLatest(db, id, t);
    t
  }

  lemma EqualTimes(db: Database, time: int)
    requires forall id <- db.sessions :: db.sessions[id].timeUpdated == time
    ensures forall id <- db.sessions :: EffectiveTime(db, id) == time
  {
    forall id <- db.sessions ensures EffectiveTime(db, id) == time { assert EffectiveTime(db, id) in SubtreeTimes(db, id); }
  }

  ghost function EffectiveTimes(db: Database): Times {
    map id | id in db.sessions :: EffectiveTime(db, id)
  }

  /** The rows of one root in the result of the recursive query over all sessions. */
  lemma GroupExact(f: Parents, id: Id)
    requires id in f
    ensures (set p | p in Subtree(f, f.Keys) && p[0] == id) == Subtree(f, {id})
    ensures Subtree(f, {id}) != {}
    ensures (exists p :: p in Subtree(f, {id}) && Repeats(p)) <==> OnCycle(f, id)
  {
    SubtreeExact(f, f.Keys);
    SubtreeExact(f, {id});
    assert IsRow(f, [id]) && [id] in Subtree(f, {id});
    CycleMarker(f, id);
  }

  /** `GROUP BY root_id`: the maximum over an acyclic root's rows is its effective time. */
  lemma GroupTime(db: Database, id: Id, times: set<int>)
    requires id in db.sessions && !OnCycle(ParentsOf(db), id)
    requires forall t :: t in times <==>
                           exists p :: p in Subtree(ParentsOf(db), {id}) && Last(p) in db.sessions && db.sessions[Last(p)].timeUpdated == t
    ensures times == SubtreeTimes(db, id)
  {
    var f := ParentsOf(db);
    SubtreeCovers(f, id);
    forall t ensures t in times <==> t in SubtreeTimes(db, id) {
      if t in SubtreeTimes(db, id) {
        var d :| d in db.sessions && Above(f, id, d) && db.sessions[d].timeUpdated == t;
      }
      if t in times {
        var p :| p in Subtree(f, {id}) && Last(p) in db.sessions && db.sessions[Last(p)].timeUpdated == t;
        assert Above(f, id, Last(p));
      }
    }
  }

  /** One group of the query: its maximum time, or none when a row carries the cycle marker. */
  method GroupAge(db: Database, rows: set<Path>, id: Id) returns (age: Option<int>)
    requires rows == Subtree(ParentsOf(db), ParentsOf(db).Keys) && id in db.sessions
    ensures age.None? <==> OnCycle(ParentsOf(db), id)
    ensures age.Some? ==> age.value == EffectiveTime(db, id)
  {
    ghost var f := ParentsOf(db);
    var group := set p | p in rows && p[0] == id;
    GroupExact(f, id);
    if exists p <- group :: Repeats(p) {
      return None;
    }
    SubtreeExact(f, {id});
    assert forall p <- group :: Last(p) in db.sessions;
    var times := set p | p in group :: db.sessions[Last(p)].timeUpdated;
    GroupTime(db, id, times);
    OwnTimeCounts(db, id);
    age := Some(MaxOf(times));
  }

  /** The sessions measured so far are on no cycle, and have their effective times. */
  ghost predicate Measured(db: Database, times: Times) {
    forall id <- times :: id in db.sessions && !OnCycle(ParentsOf(db), id) && times[id] == EffectiveTime(db, id)
  }

  lemma AllMeasured(db: Database, times: Times)
    requires Measured(db, times) && times.Keys == db.sessions.Keys
    ensures Acyclic(ParentsOf(db)) && times == EffectiveTimes(db)
  {
    forall id <- db.sessions ensures !OnCycle(ParentsOf(db), id) { assert id in times; }
  }

  lemma SmallestOnCycle(db: Database, times: Times, id: Id)
    requires Measured(db, times) && IsLeast(id, db.sessions.Keys - times.Keys) && OnCycle(ParentsOf(db), id)
    ensures !Acyclic(ParentsOf(db))
    ensures forall other <- db.sessions :: OnCycle(ParentsOf(db), other) ==> !Less(other, id)
  {
    forall other <- db.sessions | OnCycle(ParentsOf(db), other) ensures !Less(other, id) {
      assert other !in times;
      IdOrder(id, other);
    }
  }

  /** Effective times of all sessions, or the smallest session on a parent cycle. */
  method EffectiveTimeUpdated(db: Database) returns (r: Result<Times>)
    ensures r.Success? <==> Acyclic(ParentsOf(db))
    ensures r.Success? ==> r.value == EffectiveTimes(db)
    ensures r.Failure? ==> r.error.ParentCycle? && OnCycle(ParentsOf(db), r.error.root)
    ensures r.Failure? ==> forall id <- db.sessions :: OnCycle(ParentsOf(db), id) ==> !Less(id, r.error.root)
  {
    var rows := Subtree(ParentsOf(db), ParentsOf(db).Keys);
    var times: Times := map[];
    var pending := db.sessions.Keys;
    while pending != {}
      invariant pending <= db.sessions.Keys && times.Keys == db.sessions.Keys - pending
      invariant Measured(db, times)
    {
      var id := Least(pending);
      var age := GroupAge(db, rows, id);
      if age.None? {
        assert db.sessions.Keys - times.Keys == pending;
        SmallestOnCycle(db, times, id);
        return Failure(ParentCycle(id));
      }
      times := times[id := age.value];
      pending := pending - {id};
    }
    AllMeasured(db, times);
    r := Success(times);
  }

  /** The signed 64-bit range of millisecond epochs. */
  const MIN_EPOCH: int := -0x8000_0000_0000_0000
  const MAX_EPOCH: int := 0x7FFF_FFFF_FFFF_FFFF

  ghost function OlderSet(db: Database, boundary: int): set<Id> {
    set id | id in db.sessions && EffectiveTime(db, id) <= boundary
  }

  /** Sessions whose whole subtree has been inactive for at least `ageMs`. */
  method OlderThan(db: Database, ageMs: nat, nowMs: int) returns (r: Result<set<Id>>)
    ensures r.Success? <==> ageMs <= MAX_EPOCH && nowMs - ageMs >= MIN_EPOCH && Acyclic(ParentsOf(db))
    ensures r.Success? ==> r.value == OlderSet(db, nowMs - ageMs)
  {
    if ageMs > MAX_EPOCH || nowMs - ageMs < MIN_EPOCH {
      return Failure(InvalidArgument);
    }
    var ages := EffectiveTimeUpdated(db);
    match ages
    case Failure(error) => return Failure(error);
    case Success(times) => r := Success(set id | id in times && times[id] <= nowMs - ageMs);
  }

  /** A session is old exactly when every session of its subtree is: selection is by whole subtree. */
  lemma OlderMeansQuietSubtree(db: Database, boundary: int, id: Id)
    requires id in db.sessions
    ensures id in OlderSet(db, boundary) <==>
              forall d <- db.sessions :: Above(ParentsOf(db), id, d) ==> db.sessions[d].timeUpdated <= boundary
  {
    var times := SubtreeTimes(db, id);
    assert EffectiveTime(db, id) in times;
    forall d <- db.sessions | Above(ParentsOf(db), id, d) ensures db.sessions[d].timeUpdated in times {}
  }
}
