/** Project owners of sessions, and the pruning of projects left without a session. */
module Projects {
  import opened Basics
  import opened Schema
  import opened Attribution
  import opened Deletion
  import opened Subtrees
  import opened Impact

  ghost function OwnersOf(db: Database, ids: set<Id>): set<Id> {
    set id | id in ids && id in db.sessions :: db.sessions[id].project
  }

  /** Looks up the project of every given session; all of them must exist. */
  method OwnersOfSessions(db: Database, ids: set<Id>) returns (r: Result<set<Id>>)
    ensures r.Success? <==> ids <= db.sessions.Keys
    ensures r.Success? ==> r.value == OwnersOf(db, ids)
    ensures r.Failure? ==> r.error == MissingSession
  {
    var owners: set<Id> := {};
    var order := Ascending(ids);
    for i := 0 to |order|
      invariant forall j | 0 <= j < i :: order[j] in db.sessions
      invariant owners == set j | 0 <= j < i :: db.sessions[order[j]].project
    {
      if order[i] !in db.sessions {
        assert order[i] in ids;
        return Failure(MissingSession);
      }
      owners := owners + {db.sessions[order[i]].project};
    }
    forall id <- ids ensures id in db.sessions { assert id in order; }
    forall p ensures p in owners <==> p in OwnersOf(db, ids) {
      if p in OwnersOf(db, ids) {
        var id :| id in ids && id in db.sessions && db.sessions[id].project == p;
        assert id in order;
      }
      if p in owners {
        var j :| 0 <= j < |order| && db.sessions[order[j]].project == p;
        assert order[j] in ids;
      }
    }
    r := Success(owners);
  }

  function EmptyProjects(db: Database): set<Id> {
    set p | p in db.projects && forall id <- db.sessions :: db.sessions[id].project != p
  }

  /** The projects a prune deletes: the empty ones that a deletion touched, or all empty ones. */
  function Prunable(db: Database, affected: set<Id>, pruneEmpty: bool): set<Id> {
    set p | p in EmptyProjects(db) && (pruneEmpty || p in affected)
  }

  /** Deletes empty projects in one transaction. A failed transaction changes nothing. */
  method Prune(conn: Connection, affected: set<Id>, pruneEmpty: bool, fails: bool) returns (r: Result<set<Id>>)
    modifies conn`db
    ensures r.Success? <==> !fails
    ensures r.Failure? ==> r.error == BatchFailed && conn.db == old(conn.db)
    ensures r.Success? ==> r.value == Prunable(old(conn.db), affected, pruneEmpty)
    ensures r.Success? ==> conn.db == DeleteProjects(old(conn.db), r.value)
  {
    var saved := conn.db;
    var candidates: set<Id> := {};
    var order := Ascending(affected);
    for i := 0 to |order|
      invariant conn.db == saved
      invariant forall p :: p in candidates <==> p in order[..i]
    {
      candidates := candidates + {order[i]};
    }
    assert order[..|order|] == order;
    assert candidates == affected;
    var pruned := Prunable(conn.db, candidates, pruneEmpty);
    conn.db := ExecuteDelete(conn.db, ProjectSeeds(pruned));
    if fails {
      conn.db := saved;
      return Failure(BatchFailed);
    }
    r := Success(pruned);
  }

  lemma PruningNothing(db: Database)
    ensures DeleteProjects(db, {}) == db
  {
    assert ProjectSeeds({}) == BatchSeeds({});
    EmptyBatch(db);
  }

  /** Every session's project row exists. */
  ghost predicate Housed(db: Database) {
    forall id <- db.sessions :: db.sessions[id].project in db.projects
  }

  lemma IntegrityHouses(db: Database)
    requires Integrity(db)
    ensures Housed(db)
  {
    forall id <- db.sessions ensures db.sessions[id].project in db.projects {
      var target := Target(db, Ref(Sessions, id));
      assert Has(db, target.value);
    }
  }

  /**
   * The preview's project count is the applied one: when a run has deleted the sessions `gone`,
   * and the affected projects include the owners of all of these and none without a session, the
   * prune deletes exactly the projects the preview listed.
   */
  lemma PrunedAsPreviewed(before: Database, after: Database, gone: set<Id>, affected: set<Id>, pruneEmpty: bool)
    requires Housed(before) && after.projects == before.projects && after.sessions == before.sessions - gone
    requires OwnersOf(before, gone) <= affected <= OwnersOf(before, before.sessions.Keys)
    ensures Prunable(after, affected, pruneEmpty) == EmptiedBy(before, gone, pruneEmpty)
  {
    forall id <- before.sessions ensures id in after.sessions <==> id !in gone {}
    forall p ensures p in EmptyProjects(after) <==> p in before.projects && SessionsOf(before, p) <= gone {}
    forall p ensures p in Prunable(after, affected, pruneEmpty) <==> p in EmptiedBy(before, gone, pruneEmpty) {
      if p in EmptiedBy(before, gone, pruneEmpty) && (exists id <- before.sessions :: before.sessions[id].project == p) {
        var id :| id in before.sessions && before.sessions[id].project == p;
        assert id in SessionsOf(before, p);
        assert p in OwnersOf(before, gone);
      }
    }
  }
}
