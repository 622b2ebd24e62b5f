/**
 * The fourteen tables that cleanup can shrink, and SQLite's `ON DELETE CASCADE` over the
 * foreign keys the program accepts.
 */
module Schema {
  import opened Basics
  import opened Forest

  datatype Table =
    | Events | EventSequences | Messages | Parts | Permissions | Projects | ProjectDirectories
    | Sessions | ContextEpochs | Inputs | SessionMessages | Shares | Todos | Workspaces

  datatype Session = Session(parent: Option<Id>, project: Id, timeUpdated: int, archived: bool)

  datatype Part = Part(message: Id, session: Id, bytes: nat)

  /** A row with one owner column, which is also its foreign key. */
  datatype OwnedRow = OwnedRow(owner: Id, bytes: nat, text: string)

  /** A row of some table, by primary key. */
  datatype Ref = Ref(table: Table, id: Id)

  datatype Database = Database(
    projects: map<Id, string>,  // worktree paths
    sessions: map<Id, Session>,
    sequences: set<Id>,         // event_sequence.aggregate_id
    parts: map<Id, Part>,
    owned: map<OwnedRef, OwnedRow>)

  /** The ten tables with a single owner column. */
  predicate OwnedTable(t: Table) {
    !(t.Projects? || t.Sessions? || t.EventSequences? || t.Parts?)
  }

  type OwnedRef = r: Ref | OwnedTable(r.table) witness Ref(Events, Id(""))

  /** Tables whose rows a session deletion can remove. */
  predicate SessionSide(t: Table) {
    !ProjectSide(t)
  }

  /** Tables whose rows only a project deletion can remove. */
  predicate ProjectSide(t: Table) {
    t.Projects? || t.Permissions? || t.ProjectDirectories? || t.Workspaces?
  }

  /** The table a table's cascading foreign key points to. */
  function ParentTable(t: Table): Option<Table> {
    match t
    case Projects | EventSequences => None
    case Events => Some(EventSequences)
    case Parts => Some(Messages)
    case Sessions | Permissions | ProjectDirectories | Workspaces => Some(Projects)
    case Messages | ContextEpochs | Inputs | SessionMessages | Shares | Todos => Some(Sessions)
  }

  function Rank(t: Table): nat {
    match t
    case Projects | EventSequences => 0
    case Sessions | Permissions | ProjectDirectories | Workspaces | Events => 1
    case Messages | ContextEpochs | Inputs | SessionMessages | Shares | Todos => 2
    case Parts => 3
  }

  predicate Has(db: Database, r: Ref) {
    match r.table
    case Projects => r.id in db.projects
    case Sessions => r.id in db.sessions
    case EventSequences => r.id in db.sequences
    case Parts => r.id in db.parts
    case _ => r in db.owned
  }

  /** The value of a row's cascading foreign key column. */
  function ForeignKey(db: Database, r: Ref): Id
    requires Has(db, r) && ParentTable(r.table).Some?
  {
    if r.table.Sessions? then db.sessions[r.id].project
    else if r.table.Parts? then db.parts[r.id].message
    else db.owned[r].owner
  }

  /** The value of the column by which the program attributes and counts a row. */
  function Owner(db: Database, r: Ref): Id
    requires Has(db, r)
  {
    match r.table
    case Projects | Sessions | EventSequences => r.id
    case Parts => db.parts[r.id].session
    case _ => db.owned[r].owner
  }

  /** The row a cascading foreign key refers to, present or not. */
  function Target(db: Database, r: Ref): Option<Ref> {
    if Has(db, r) && ParentTable(r.table).Some?
    then Some(Ref(ParentTable(r.table).value, ForeignKey(db, r)))
    else None
  }

  /** The rows a deletion names directly, by primary key. */
  datatype Seeds = Seeds(sessions: set<Id>, sequences: set<Id>, projects: set<Id>) {
    predicate Holds(r: Ref) {
      match r.table
      case Sessions => r.id in sessions
      case EventSequences => r.id in sequences
      case Projects => r.id in projects
      case _ => false
    }

    ghost function Plus(other: Seeds): Seeds {
      Seeds(sessions + other.sessions, sequences + other.sequences, projects + other.projects)
    }
  }

  /** Deleting the seeds removes this row, directly or by cascade. */
  predicate Doomed(db: Database, seeds: Seeds, r: Ref)
    decreases Rank(r.table)
  {
    Has(db, r) && (seeds.Holds(r) || (Target(db, r).Some? && Doomed(db, seeds, Target(db, r).value)))
  }

  /** Two databases agree on the columns of a row. */
  ghost predicate SameRow(a: Database, b: Database, r: Ref)
    requires Has(a, r) && Has(b, r)
  {
    match r.table
    case Projects => a.projects[r.id] == b.projects[r.id]
    case Sessions => a.sessions[r.id] == b.sessions[r.id]
    case EventSequences => true
    case Parts => a.parts[r.id] == b.parts[r.id]
    case _ => a.owned[r] == b.owned[r]
  }

  /** `after` holds exactly the rows of `db` that the deletion does not doom, unchanged. */
  ghost predicate IsDelete(db: Database, seeds: Seeds, after: Database) {
    && (forall r {:trigger Has(after, r)} :: Has(after, r) <==> Has(db, r) && !Doomed(db, seeds, r))
    && (forall r {:trigger Has(after, r)} :: Has(after, r) ==> SameRow(db, after, r))
  }

  lemma SameDatabase(a: Database, b: Database)
    requires forall r :: Has(a, r) <==> Has(b, r)
    requires forall r :: Has(a, r) ==> SameRow(a, b, r)
    ensures a == b
  {
    forall id ensures id in a.projects <==> id in b.projects
      ensures id in a.projects ==> a.projects[id] == b.projects[id] { var r := Ref(Projects, id); assert Has(a, r) <==> Has(b, r); }
    forall id ensures id in a.sessions <==> id in b.sessions
      ensures id in a.sessions ==> a.sessions[id] == b.sessions[id] { var r := Ref(Sessions, id); assert Has(a, r) <==> Has(b, r); }
    forall id ensures id in a.sequences <==> id in b.sequences { var r := Ref(EventSequences, id); assert Has(a, r) <==> Has(b, r); }
    forall id ensures id in a.parts <==> id in b.parts
      ensures id in a.parts ==> a.parts[id] == b.parts[id] { var r := Ref(Parts, id); assert Has(a, r) <==> Has(b, r); }
    forall r: OwnedRef ensures r in a.owned <==> r in b.owned
      ensures r in a.owned ==> a.owned[r] == b.owned[r] { assert Has(a, r) <==> Has(b, r); }
    assert a.projects == b.projects && a.sessions == b.sessions && a.sequences == b.sequences;
    assert a.parts == b.parts && a.owned == b.owned;
  }

  lemma DeleteUnique(db: Database, seeds: Seeds, a: Database, b: Database)
    requires IsDelete(db, seeds, a) && IsDelete(db, seeds, b)
    ensures a == b
  {
    forall r ensures Has(a, r) <==> Has(b, r)
      ensures Has(a, r) ==> SameRow(a, b, r) { assert Has(a, r) <==> Has(db, r) && !Doomed(db, seeds, r); }
    SameDatabase(a, b);
  }

  /** The tables after filtering out the doomed rows. */
  function Filtered(db: Database, seeds: Seeds): Database {
    Database(
      map id | id in db.projects && !Doomed(db, seeds, Ref(Projects, id)) :: db.projects[id],
      map id | id in db.sessions && !Doomed(db, seeds, Ref(Sessions, id)) :: db.sessions[id],
      set id | id in db.sequences && !Doomed(db, seeds, Ref(EventSequences, id)),
      map id | id in db.parts && !Doomed(db, seeds, Ref(Parts, id)) :: db.parts[id],
      map r | r in db.owned && !Doomed(db, seeds, r) :: db.owned[r])
  }

  lemma FilteredIsDelete(db: Database, seeds: Seeds)
    ensures IsDelete(db, seeds, Filtered(db, seeds))
  {
  }

  /** One `DELETE` statement with foreign keys enabled. */
  ghost function Delete(db: Database, seeds: Seeds): (after: Database)
    ensures IsDelete(db, seeds, after)
  {
    FilteredIsDelete(db, seeds);
    var after :| IsDelete(db, seeds, after);
    after
  }

  method ExecuteDelete(db: Database, seeds: Seeds) returns (after: Database)
    ensures after == Delete(db, seeds)
  {
    after := Filtered(db, seeds);
    FilteredIsDelete(db, seeds);
    DeleteUnique(db, seeds, after, Delete(db, seeds));
  }

  function SessionSeeds(ids: set<Id>): Seeds {
    Seeds(ids, {}, {})
  }

  function SequenceSeeds(ids: set<Id>): Seeds {
    Seeds({}, ids, {})
  }

  function ProjectSeeds(ids: set<Id>): Seeds {
    Seeds({}, {}, ids)
  }

  /** A deletion batch: the sessions of the given ids, and their event aggregates. */
  ghost function DeleteBatch(db: Database, ids: set<Id>): Database {
    Delete(db, BatchSeeds(ids))
  }

  function BatchSeeds(ids: set<Id>): Seeds {
    Seeds(ids, ids, {})
  }

  ghost function DeleteProjects(db: Database, ids: set<Id>): Database {
    Delete(db, ProjectSeeds(ids))
  }

  function ParentsOf(db: Database): Parents {
    map id | id in db.sessions :: db.sessions[id].parent
  }

  function Keys(db: Database, t: Table): set<Id> {
    match t
    case Projects => db.projects.Keys
    case Sessions => db.sessions.Keys
    case EventSequences => db.sequences
    case Parts => db.parts.Keys
    case _ => set r | r in db.owned && r.table == t :: r.id
  }

  /** The rows of a table whose owner column holds one of `ids`. */
  function KeysOwnedBy(db: Database, t: Table, ids: set<Id>): set<Id> {
    set id | id in Keys(db, t) && Owner(db, Ref(t, id)) in ids
  }

  function Count(db: Database, t: Table): nat {
    |Keys(db, t)|
  }

  function CountOwnedBy(db: Database, t: Table, ids: set<Id>): nat {
    |KeysOwnedBy(db, t, ids)|
  }

  /** Foreign-key integrity, and `part.session_id` agreeing with the part's message. */
  ghost predicate Integrity(db: Database) {
    && (forall r {:trigger Target(db, r)} :: Target(db, r).Some? ==> Has(db, Target(db, r).value))
    && (forall id <- db.parts :: AttributedPart(db, id))
  }

  /** The part's message exists and belongs to the session the part names. */
  predicate AttributedPart(db: Database, id: Id)
    requires id in db.parts
  {
    var message := Ref(Messages, db.parts[id].message);
    message in db.owned && db.owned[message].owner == db.parts[id].session
  }

  lemma KeysExact(db: Database, t: Table)
    ensures forall id :: id in Keys(db, t) <==> Has(db, Ref(t, id))
  {
    forall id | Has(db, Ref(t, id)) ensures id in Keys(db, t) { var r := Ref(t, id); assert r.table == t; }
  }

  /** A deletion keeps exactly the rows it does not doom, with their columns. */
  lemma AfterDelete(db: Database, seeds: Seeds, r: Ref)
    ensures Has(Delete(db, seeds), r) <==> Has(db, r) && !Doomed(db, seeds, r)
    ensures Has(Delete(db, seeds), r) ==>
              && SameRow(db, Delete(db, seeds), r)
              && Target(Delete(db, seeds), r) == Target(db, r) && Owner(Delete(db, seeds), r) == Owner(db, r)
  {
    assert Has(Delete(db, seeds), r) <==> Has(db, r) && !Doomed(db, seeds, r);
  }

  lemma {:induction false} DoomedCompose(db: Database, a: Seeds, b: Seeds, r: Ref)
    ensures Doomed(db, a.Plus(b), r) <==> Doomed(db, a, r) || Doomed(Delete(db, a), b, r)
    decreases Rank(r.table)
  {
    AfterDelete(db, a, r);
    if Target(db, r).Some? {
      DoomedCompose(db, a, b, Target(db, r).value);
    }
  }

  /** Two deletions in a row are one deletion of both seed sets. */
  lemma DeleteCompose(db: Database, a: Seeds, b: Seeds)
    ensures Delete(Delete(db, a), b) == Delete(db, a.Plus(b))
  {
    var first := Delete(db, a);
    var both := Delete(first, b);
    forall r
      ensures Has(both, r) <==> Has(db, r) && !Doomed(db, a.Plus(b), r)
      ensures Has(both, r) ==> SameRow(db, both, r)
    {
      DoomedCompose(db, a, b, r);
      assert Has(both, r) <==> Has(first, r) && !Doomed(first, b, r);
      assert Has(first, r) <==> Has(db, r) && !Doomed(db, a, r);
    }
    DeleteUnique(db, a.Plus(b), both, Delete(db, a.Plus(b)));
  }

  /** Cascading deletion preserves foreign-key integrity and part attribution. */
  lemma DeleteKeepsIntegrity(db: Database, seeds: Seeds)
    requires Integrity(db)
    ensures Integrity(Delete(db, seeds))
  {
    var after := Delete(db, seeds);
    forall r | Has(after, r) && Target(after, r).Some? ensures Has(after, Target(after, r).value) {
      AfterDelete(db, seeds, r);
      AfterDelete(db, seeds, Target(db, r).value);
    }
    forall id <- after.parts ensures AttributedPart(after, id) {
      var part := Ref(Parts, id);
      AfterDelete(db, seeds, part);
      assert AttributedPart(db, id);
      AfterDelete(db, seeds, Target(db, part).value);
    }
  }

  /** The batch's two statements, sessions first, amount to one deletion. */
  lemma TwoStatements(db: Database, ids: set<Id>)
    ensures Delete(Delete(db, SessionSeeds(ids)), SequenceSeeds(ids)) == DeleteBatch(db, ids)
  {
    DeleteCompose(db, SessionSeeds(ids), SequenceSeeds(ids));
    assert SessionSeeds(ids).Plus(SequenceSeeds(ids)) == BatchSeeds(ids);
  }

  /** The rows of session-side tables whose owner column names a batch id. */
  ghost predicate OwnedByBatch(db: Database, ids: set<Id>, r: Ref) {
    Has(db, r) && SessionSide(r.table) && Owner(db, r) in ids
  }

  lemma {:induction false} BatchDooms(db: Database, ids: set<Id>, r: Ref)
    requires Integrity(db)
    ensures Doomed(db, BatchSeeds(ids), r) <==> OwnedByBatch(db, ids, r)
    decreases Rank(r.table)
  {
    var target := Target(db, r);
    if target.Some? {
      BatchDooms(db, ids, target.value);
      assert Has(db, target.value);
      if r.table.Parts? { assert AttributedPart(db, r.id); }
    }
  }

  /**
   * A batch removes exactly the rows its counting queries count: those of session-side tables
   * whose owner column names a batch id. Parts are counted by `session_id` but removed through
   * their message, which is where their attribution is needed.
   */
  lemma BatchRemoves(db: Database, ids: set<Id>, r: Ref)
    requires Integrity(db)
    ensures Has(DeleteBatch(db, ids), r) <==> Has(db, r) && !OwnedByBatch(db, ids, r)
    ensures Has(DeleteBatch(db, ids), r) ==> Owner(DeleteBatch(db, ids), r) == Owner(db, r)
  {
    AfterDelete(db, BatchSeeds(ids), r);
    BatchDooms(db, ids, r);
  }

  ghost predicate OwnedByProjects(db: Database, projects: set<Id>, r: Ref) {
    Has(db, r) && ProjectSide(r.table) && Owner(db, r) in projects && Has(db, Ref(Projects, Owner(db, r)))
  }

  lemma {:induction false} ProjectsDoom(db: Database, projects: set<Id>, r: Ref)
    requires forall id <- db.sessions :: db.sessions[id].project !in projects
    ensures Doomed(db, ProjectSeeds(projects), r) <==> OwnedByProjects(db, projects, r)
    decreases Rank(r.table)
  {
    if Target(db, r).Some? { ProjectsDoom(db, projects, Target(db, r).value); }
  }

  /** Deleting projects that own no session removes exactly the project-side rows they own. */
  lemma ProjectsRemove(db: Database, projects: set<Id>, r: Ref)
    requires forall id <- db.sessions :: db.sessions[id].project !in projects
    ensures Has(DeleteProjects(db, projects), r) <==> Has(db, r) && !OwnedByProjects(db, projects, r)
  {
    AfterDelete(db, ProjectSeeds(projects), r);
    ProjectsDoom(db, projects, r);
  }

  lemma KeyDooms(db: Database, ids: set<Id>, id: Id)
    ensures !Doomed(db, BatchSeeds(ids), Ref(Projects, id))
    ensures Doomed(db, BatchSeeds(ids), Ref(Sessions, id)) <==> id in db.sessions && id in ids
    ensures Doomed(db, BatchSeeds(ids), Ref(EventSequences, id)) <==> id in db.sequences && id in ids
  {
    if id in db.sessions {
      var owner := Ref(Projects, db.sessions[id].project);
      assert Target(db, owner).None?;
    }
  }

  /** A batch cuts exactly its ids out of the session table and leaves the projects alone. */
  lemma SessionsAfterBatch(db: Database, ids: set<Id>)
    ensures DeleteBatch(db, ids).sessions == db.sessions - ids
    ensures DeleteBatch(db, ids).projects == db.projects
    ensures DeleteBatch(db, ids).sequences == db.sequences - ids
    ensures ParentsOf(DeleteBatch(db, ids)) == ParentsOf(db) - ids
  {
    var after := DeleteBatch(db, ids);
    forall id
      ensures id in after.projects <==> id in db.projects
      ensures id in after.projects ==> after.projects[id] == db.projects[id]
      ensures id in after.sessions <==> id in db.sessions && id !in ids
      ensures id in after.sessions ==> after.sessions[id] == db.sessions[id]
      ensures id in after.sequences <==> id in db.sequences && id !in ids
    {
      KeyDooms(db, ids, id);
      AfterDelete(db, BatchSeeds(ids), Ref(Projects, id));
      AfterDelete(db, BatchSeeds(ids), Ref(Sessions, id));
      AfterDelete(db, BatchSeeds(ids), Ref(EventSequences, id));
    }
  }

  /** Batches compose. */
  lemma BatchCompose(db: Database, a: set<Id>, b: set<Id>)
    ensures DeleteBatch(DeleteBatch(db, a), b) == DeleteBatch(db, a + b)
  {
    DeleteCompose(db, BatchSeeds(a), BatchSeeds(b));
    assert BatchSeeds(a + b) == BatchSeeds(a).Plus(BatchSeeds(b));
  }

  lemma EmptyBatch(db: Database)
    ensures DeleteBatch(db, {}) == db
  {
    forall r ensures !Doomed(db, BatchSeeds({}), r) { NothingDoomed(db, r); }
    DeleteUnique(db, BatchSeeds({}), db, DeleteBatch(db, {}));
  }

  lemma {:induction false} NothingDoomed(db: Database, r: Ref)
    ensures !Doomed(db, BatchSeeds({}), r)
    decreases Rank(r.table)
  {
    if Target(db, r).Some? { NothingDoomed(db, Target(db, r).value); }
  }
}
