/** The preview is what is applied: sessions, rows of every table, projects. */
module CleanProofs {
  import opened Basics
  import opened Forest
  import opened Schema
  import opened Ages
  import opened Retention
  import opened Orphans
  import opened Attribution
  import opened Predicates
  import opened Deletion
  import opened Sweep
  import opened SweepProofs
  import opened Impact
  import opened Projects
  import opened Agreement
  import opened Clean

  /** A run removes exactly the sessions of its batches: the pruned projects have none. */
  lemma SessionsAfterRun(db: Database, gone: set<Id>, pruned: set<Id>)
    requires pruned <= EmptyProjects(DeleteBatch(db, gone))
    ensures Cleaned(db, gone, pruned).sessions.Keys == db.sessions.Keys - gone
    ensures Cleaned(db, gone, pruned).sessions == db.sessions - gone
    ensures ParentsOf(Cleaned(db, gone, pruned)) == ParentsOf(db) - gone
    ensures Cleaned(db, gone, pruned).sequences == db.sequences - gone
  {
    var mid := DeleteBatch(db, gone);
    var after := Cleaned(db, gone, pruned);
    SessionsAfterBatch(db, gone);
    forall id
      ensures id in after.sessions <==> id in mid.sessions
      ensures id in after.sessions ==> after.sessions[id] == mid.sessions[id]
      ensures id in after.sequences <==> id in mid.sequences
    {
      AfterDelete(mid, ProjectSeeds(pruned), Ref(Sessions, id));
      ProjectsRemove(mid, pruned, Ref(Sessions, id));
      ProjectsRemove(mid, pruned, Ref(EventSequences, id));
    }
  }

  /** The sweep, if there is one, does not meet its pass bound. */
  ghost predicate Bounded(db: Database, sel: Selectors, o: Options)
    requires Acyclic(ParentsOf(db))
  {
    o.orphans ==> WithinBound(ParentsOf(db), Candidates(db, sel), Retained(db, o.keepRecent), DEFAULT_MAX_PASSES)
  }

  /**
   * The sessions an undisturbed run deletes are the previewed ones exactly when it does not sweep
   * orphans, or no dangling session outside the selection and retention has 32 ancestors or more.
   */
  lemma PreviewIsApplied(db: Database, sel: Selectors, o: Options, pruned: set<Id>)
    requires Acyclic(ParentsOf(db)) && pruned <= EmptyProjects(DeleteBatch(db, Deleted(db, sel, o)))
    ensures db.sessions.Keys - Cleaned(db, Deleted(db, sel, o), pruned).sessions.Keys <= PlannedSessions(db, sel, o)
    ensures db.sessions.Keys - Cleaned(db, Deleted(db, sel, o), pruned).sessions.Keys == PlannedSessions(db, sel, o) <==> Bounded(db, sel, o)
  {
    var f, c, r := ParentsOf(db), Candidates(db, sel), Retained(db, o.keepRecent);
    SessionsAfterRun(db, Deleted(db, sel, o), pruned);
    AppliedIsPlanned(f, c, r, o.orphans, DEFAULT_MAX_PASSES);
    PlannedPresent(db, sel, o);
    TakenOut(db.sessions.Keys, Applied(f, c, r, o.orphans, DEFAULT_MAX_PASSES), PlannedAggregates(db, o));
  }

  lemma TakenOut<T>(all: set<T>, some: set<T>, others: set<T>)
    requires some <= all && others !! all
    ensures all - (all - (some + others)) == some == (some + others) * all
  {
  }

  lemma PlannedPresent(db: Database, sel: Selectors, o: Options)
    ensures PlannedSessions(db, sel, o) <= db.sessions.Keys && PlannedAggregates(db, o) !! db.sessions.Keys
  {
    DescendantsClosed(ParentsOf(db), Candidates(db, sel) - Retained(db, o.keepRecent));
    DanglingIsWhole(ParentsOf(db));
  }

  /** The rows of one table that a run removes. */
  ghost function RowsRemoved(db: Database, gone: set<Id>, pruned: set<Id>, t: Table): set<Id> {
    if ProjectSide(t) then KeysOwnedBy(db, t, pruned) else KeysOwnedBy(db, t, gone)
  }

  lemma RowRemoved(db: Database, gone: set<Id>, pruned: set<Id>, t: Table, id: Id)
    requires Integrity(db) && pruned <= EmptyProjects(DeleteBatch(db, gone))
    ensures id in Keys(Cleaned(db, gone, pruned), t) <==> id in Keys(db, t) && id !in RowsRemoved(db, gone, pruned, t)
  {
    var mid, r := DeleteBatch(db, gone), Ref(t, id);
    KeysExact(db, t);
    KeysExact(Cleaned(db, gone, pruned), t);
    BatchRemoves(db, gone, r);
    ProjectsRemove(mid, pruned, r);
  }

  lemma RowsLeft(db: Database, gone: set<Id>, pruned: set<Id>, t: Table)
    requires Integrity(db) && pruned <= EmptyProjects(DeleteBatch(db, gone))
    ensures Count(db, t) == Count(Cleaned(db, gone, pruned), t) + |RowsRemoved(db, gone, pruned, t)|
  {
    var before, after, removed := Keys(db, t), Keys(Cleaned(db, gone, pruned), t), RowsRemoved(db, gone, pruned, t);
    forall id ensures id in after <==> id in before && id !in removed { RowRemoved(db, gone, pruned, t, id); }
    SplitSize(before, after, removed);
  }

  lemma SplitSize(all: set<Id>, left: set<Id>, removed: set<Id>)
    requires removed <= all && forall id :: id in left <==> id in all && id !in removed
    ensures |all| == |left| + |removed|
  {
    assert left + removed == all && left !! removed;
  }

  /** Only event tables hold rows of an aggregate without a session. */
  lemma NoOtherOrphanRows(db: Database, aggregates: set<Id>, t: Table)
    requires Integrity(db) && aggregates !! db.sessions.Keys && !ProjectSide(t) && t !in ORPHAN_TABLES
    ensures CountOwnedBy(db, t, aggregates) == 0
  {
    KeysExact(db, t);
    assert ORPHAN_TABLES[0] == EventSequences && ORPHAN_TABLES[1] == Events;
    forall id <- Keys(db, t) ensures Owner(db, Ref(t, id)) !in aggregates { OwnerIsSession(db, Ref(t, id)); }
    assert KeysOwnedBy(db, t, aggregates) == {};
  }

  lemma OwnerIsSession(db: Database, r: Ref)
    requires Integrity(db) && Has(db, r) && !ProjectSide(r.table) && !r.table.EventSequences? && !r.table.Events?
    ensures Owner(db, r) in db.sessions
  {
    if !r.table.Sessions? {
      var target := Target(db, r).value;
      assert Has(db, target);
      if r.table.Parts? {
        assert AttributedPart(db, r.id);
        assert Has(db, Target(db, target).value);
      }
    }
  }

  /**
   * For each of the fourteen tables the previewed rows are the rows before minus the rows after,
   * cascades included, for a run that deletes what was planned.
   */
  lemma RowsAsPreviewed(db: Database, plan: Plan, projects: set<Id>, rows: RowCounts, t: Table)
    requires Integrity(db) && Previewed(rows, db, plan, projects)
    requires plan.sessions <= db.sessions.Keys && plan.aggregates !! db.sessions.Keys
    requires projects <= EmptyProjects(DeleteBatch(db, plan.sessions + plan.aggregates))
    ensures Count(db, t) == Count(Cleaned(db, plan.sessions + plan.aggregates, projects), t) + rows[t]
  {
    RowsLeft(db, plan.sessions + plan.aggregates, projects, t);
    if !ProjectSide(t) {
      OwnedBySplit(db, t, plan.sessions, plan.aggregates);
      if t !in ORPHAN_TABLES { NoOtherOrphanRows(db, plan.aggregates, t); }
    }
  }

  lemma EmptiedAlike(db: Database, ids: set<Id>, others: set<Id>, pruneEmpty: bool)
    requires others !! db.sessions.Keys
    ensures EmptiedBy(db, ids + others, pruneEmpty) == EmptiedBy(db, ids, pruneEmpty)
  {
    forall p ensures SessionsOf(db, p) <= ids + others <==> SessionsOf(db, p) <= ids {}
  }

  lemma AllDeleted(db: Database, sel: Selectors, o: Options)
    requires Acyclic(ParentsOf(db))
    requires Bounded(db, sel, o)
    ensures Deleted(db, sel, o) == PlannedSessions(db, sel, o) + PlannedAggregates(db, o)
  {
    AppliedIsPlanned(ParentsOf(db), Candidates(db, sel), Retained(db, o.keepRecent), o.orphans, DEFAULT_MAX_PASSES);
  }

  /**
   * The preview of an undisturbed run is what the run does, within the pass bound and on a database
   * with integrity: the sessions it lists, the rows it counts for each of the fourteen tables, and
   * the projects it names. The premises are what `Clean.Run` promises of such a run.
   */
  lemma PreviewKept(db: Database, sel: Selectors, o: Options, plan: Plan, rows: RowCounts, projects: set<Id>, pruned: set<Id>, t: Table)
    requires Acyclic(ParentsOf(db)) && Integrity(db) && Bounded(db, sel, o)
    requires plan.sessions == PlannedSessions(db, sel, o) && plan.aggregates == PlannedAggregates(db, o)
    requires Previewed(rows, db, plan, projects) && projects == EmptiedBy(db, plan.sessions, o.pruneEmpty)
    requires pruned == EmptiedBy(db, Deleted(db, sel, o), o.pruneEmpty)
    requires pruned <= EmptyProjects(DeleteBatch(db, Deleted(db, sel, o)))
    ensures var after := Cleaned(db, Deleted(db, sel, o), pruned);
            && db.sessions.Keys - after.sessions.Keys == plan.sessions
            && pruned == projects
            && Count(db, t) == Count(after, t) + rows[t]
  {
    AllDeleted(db, sel, o);
    PlannedPresent(db, sel, o);
    EmptiedAlike(db, plan.sessions, plan.aggregates, o.pruneEmpty);
    PreviewIsApplied(db, sel, o, pruned);
    RowsAsPreviewed(db, plan, projects, rows, t);
  }

  /**
   * An undisturbed run keeps its preview. On a database with integrity the sessions it deletes are
   * the previewed ones exactly within the pass bound, and then the projects and the rows of all
   * fourteen tables are the previewed ones as well.
   */
  method RunAsPreviewed(conn: Connection, sel: Selectors, o: Options, w: Weather) returns (r: Result<CleanReport>)
    modifies conn
    ensures Undisturbed(w) ==> (r.Success? <==> Accepted(old(conn.db), sel) && Acyclic(ParentsOf(old(conn.db))))
    ensures r.Success? ==> Acyclic(ParentsOf(old(conn.db)))
    ensures r.Success? && Undisturbed(w) ==>
              (old(conn.db).sessions.Keys - conn.db.sessions.Keys == r.value.plan.sessions <==> Bounded(old(conn.db), sel, o))
    ensures r.Success? && Undisturbed(w) && Bounded(old(conn.db), sel, o) && Integrity(old(conn.db)) ==>
              r.value.pruned == r.value.projects && forall t :: Count(old(conn.db), t) == Count(conn.db, t) + r.value.rows[t]
  {
    ghost var before := conn.db;
    ghost var gone, pruned, c;
    r, gone, pruned, c := Run(conn, sel, o, false, w);
    if r.Success? && Undisturbed(w) {
      PreviewIsApplied(before, sel, o, pruned);
      if Bounded(before, sel, o) && Integrity(before) {
        IntegrityHouses(before);
        forall t ensures pruned == r.value.projects && Count(before, t) == Count(conn.db, t) + r.value.rows[t] {
          PreviewKept(before, sel, o, r.value.plan, r.value.rows, r.value.projects, pruned, t);
        }
        assert Count(before, Sessions) == Count(conn.db, Sessions) + r.value.rows[Sessions];
      }
    }
  }

  /** The run's own counters are the rows before minus the rows after in the tables it deletes from. */
  lemma RowsAsReported(db: Database, gone: set<Id>, pruned: set<Id>, report: DeletionReport, t: Table)
    requires Integrity(db) && Accounts(db, gone, report) && pruned <= EmptyProjects(DeleteBatch(db, gone)) && SessionSide(t)
    ensures Count(db, t) == Count(Cleaned(db, gone, pruned), t) + report.rows[t]
  {
    RowsLeft(db, gone, pruned, t);
    var counts := CountsOf(db, gone);
    assert counts[t] == CountOwnedBy(db, t, gone);
  }

  lemma ProjectsAfterRun(db: Database, gone: set<Id>, pruned: set<Id>, p: Id)
    requires pruned <= EmptyProjects(DeleteBatch(db, gone)) && p in db.projects
    ensures p in Cleaned(db, gone, pruned).projects <==> p !in pruned
  {
    var mid := DeleteBatch(db, gone);
    SessionsAfterBatch(db, gone);
    ProjectsRemove(mid, pruned, Ref(Projects, p));
    AfterDelete(mid, ProjectSeeds(pruned), Ref(Projects, p));
  }

  /** A project is emptied by a deletion, or was empty before and is asked for. */
  lemma EmptiedMeans(db: Database, gone: set<Id>, pruneEmpty: bool, p: Id)
    requires p in db.projects
    ensures p in EmptiedBy(db, gone, pruneEmpty) <==>
              && (forall id <- db.sessions | db.sessions[id].project == p :: id in gone)
              && (pruneEmpty || exists id <- db.sessions :: id in gone && db.sessions[id].project == p)
  {
    if id :| id in db.sessions && db.sessions[id].project == p { assert id in SessionsOf(db, p); }
  }

  /** The project has no session left, and lost one or was empty before, which only goes on request. */
  ghost predicate Dropped(before: Database, after: Database, pruneEmpty: bool, p: Id) {
    && (forall id <- after.sessions :: after.sessions[id].project != p)
    && (pruneEmpty || exists id <- before.sessions :: id !in after.sessions && before.sessions[id].project == p)
  }

  lemma ProjectGone(db: Database, gone: set<Id>, pruned: set<Id>, pruneEmpty: bool, after: Database, p: Id)
    requires pruned == EmptiedBy(db, gone, pruneEmpty) && pruned <= EmptyProjects(DeleteBatch(db, gone)) && p in db.projects
    requires after == Cleaned(db, gone, pruned)
    ensures p !in after.projects <==> Dropped(db, after, pruneEmpty, p)
  {
    SessionsAfterRun(db, gone, pruned);
    ProjectsAfterRun(db, gone, pruned, p);
    EmptiedMeans(db, gone, pruneEmpty, p);
    forall id <- db.sessions ensures id in after.sessions <==> id !in gone {}
    forall id <- after.sessions ensures after.sessions[id] == db.sessions[id] {}
  }

  lemma SessionsReported(db: Database, gone: set<Id>, pruned: set<Id>, after: Database, report: DeletionReport)
    requires pruned <= EmptyProjects(DeleteBatch(db, gone)) && after == Cleaned(db, gone, pruned) && Accounts(db, gone, report)
    ensures report.deletedSessions == db.sessions.Keys - after.sessions.Keys
  {
    SessionsAfterRun(db, gone, pruned);
  }

  /**
   * Whatever the weather, a report that is returned is right: it lists the sessions that are gone and
   * counts the rows that are gone from the tables of sessions, and of the projects exactly those
   * disappear that have no session left and lost one, or were empty and asked for.
   */
  method RunAccounts(conn: Connection, sel: Selectors, o: Options, w: Weather) returns (r: Result<CleanReport>)
    modifies conn
    ensures r.Success? ==> r.value.deletion.deletedSessions == old(conn.db).sessions.Keys - conn.db.sessions.Keys
    ensures r.Success? && Integrity(old(conn.db)) ==> forall t | !ProjectSide(t) ::
              Count(old(conn.db), t) == Count(conn.db, t) + r.value.deletion.rows[t]
    ensures r.Success? && Integrity(old(conn.db)) ==> forall p <- old(conn.db).projects ::
              p !in conn.db.projects <==> Dropped(old(conn.db), conn.db, o.pruneEmpty, p)
  {
    ghost var before := conn.db;
    ghost var gone, pruned, c;
    r, gone, pruned, c := Run(conn, sel, o, false, w);
    if r.Success? {
      SessionsReported(before, gone, pruned, conn.db, r.value.deletion);
      if Integrity(before) {
        IntegrityHouses(before);
        forall t | !ProjectSide(t) ensures Count(before, t) == Count(conn.db, t) + r.value.deletion.rows[t] {
          RowsAsReported(before, gone, pruned, r.value.deletion, t);
        }
        forall p <- before.projects ensures p !in conn.db.projects <==> Dropped(before, conn.db, o.pruneEmpty, p) {
          ProjectGone(before, gone, pruned, o.pruneEmpty, conn.db, p);
        }
      }
    }
  }

  /** Every run keeps foreign-key integrity and part attribution, however it ends. */
  lemma RunKeepsIntegrity(db: Database, gone: set<Id>, pruned: set<Id>)
    requires Integrity(db)
    ensures Integrity(Cleaned(db, gone, pruned))
  {
    DeleteKeepsIntegrity(db, BatchSeeds(gone));
    DeleteKeepsIntegrity(DeleteBatch(db, gone), ProjectSeeds(pruned));
  }

  /** Every run leaves all retained sessions in place, however it ends. */
  lemma RetainedSurvive(db: Database, sel: Selectors, o: Options, gone: set<Id>, pruned: set<Id>)
    requires gone <= Deletable(db, sel, o) && pruned <= EmptyProjects(DeleteBatch(db, gone))
    ensures Retained(db, o.keepRecent) <= Cleaned(db, gone, pruned).sessions.Keys
  {
    SessionsAfterRun(db, gone, pruned);
    RetainedIsWhole(db, o.keepRecent);
    PlannedPresent(db, sel, o);
  }

  /**
   * Retention computed again after a run is the same exactly when every session that lost its parent
   * is outranked by a full quota of the roots retained before the run.
   */
  lemma RetentionAfterRun(db: Database, sel: Selectors, o: Options, gone: set<Id>, pruned: set<Id>)
    requires gone <= Deletable(db, sel, o) && pruned <= EmptyProjects(DeleteBatch(db, gone))
    ensures Retained(Cleaned(db, gone, pruned), o.keepRecent) == Retained(db, o.keepRecent)
            <==> forall n <- Severed(ParentsOf(db), gone) :: n in db.sessions && Outranked(db, o.keepRecent, gone, n)
  {
    CutAfterRun(db, gone, pruned);
    SparesRetained(db, sel, o);
    RetentionSurvives(db, o.keepRecent, gone, Cleaned(db, gone, pruned));
  }

  lemma CutAfterRun(db: Database, gone: set<Id>, pruned: set<Id>)
    requires pruned <= EmptyProjects(DeleteBatch(db, gone))
    ensures Cut(db, gone, Cleaned(db, gone, pruned))
  {
    SessionsAfterRun(db, gone, pruned);
  }

  lemma SparesRetained(db: Database, sel: Selectors, o: Options)
    ensures Deletable(db, sel, o) !! Retained(db, o.keepRecent)
  {
    RetainedIsWhole(db, o.keepRecent);
    PlannedPresent(db, sel, o);
  }

  /** Three equally old sessions of one project: "a" dangles, "m" is a root, "z" is a child of "a". */
  function Family(): Database {
    Database(map[Id("project") := "/"],
             map[Id("a") := Session(Some(Id("absent")), Id("project"), 5, false), Id("m") := Session(None, Id("project"), 5, false),
                 Id("z") := Session(Some(Id("a")), Id("project"), 5, false)],
             {}, map[], map[])
  }

  lemma FamilyAfterFirstPass(after: Database)
    requires after == DeleteBatch(Family(), {Id("a")})
    ensures after.sessions == Family().sessions - {Id("a")} && ParentsOf(after) == ParentsOf(Family()) - {Id("a")}
  {
    SessionsAfterBatch(Family(), {Id("a")});
  }

  lemma FamilyLinks()
    ensures var f, a, z := ParentsOf(Family()), Id("a"), Id("z"); a in f && f[a].Some? && f[a].value !in f && z in f && f[z] == Some(a)
  {
    assert |Id("absent").text| == 6;
  }

  lemma FamilyKept(after: Database)
    requires after == DeleteBatch(Family(), {Id("a")})
    ensures KeptRoots(Family(), EffectiveTimes(Family()), 1) == {Id("m")}
    ensures KeptRoots(after, EffectiveTimes(after), 1) == {Id("z")}
  {
    var a, m, z := Id("a"), Id("m"), Id("z");
    FamilyAfterFirstPass(after);
    assert a.text[0] != m.text[0] && m.text[0] != z.text[0] && |Id("absent").text| == 6;
    GreaterIsKept(Family(), a, m, Id("project"), 5);
    GreaterIsKept(after, m, z, Id("project"), 5);
  }

  /**
   * With one root kept, that is "m". A sweep whose second pass fails has deleted "a" only. The root
   * kept from then on is "z", so the next run no longer protects "m".
   */
  lemma RetentionShifts(end: Passes)
    requires Heading(end, Loop(ParentsOf(Family()), {Id("a"), Id("z")}, {}, 0, 0), BATCH_SIZE,
                     World(map[1 := FailsAt(Beginning)], {}), DEFAULT_MAX_PASSES)
    ensures end == Passes({Id("a")}, 1, 1, false, Some(BatchFailed))
    ensures KeptRoots(Family(), EffectiveTimes(Family()), 1) == {Id("m")}
    ensures var after := DeleteBatch(Family(), {Id("a")}); KeptRoots(after, EffectiveTimes(after), 1) == {Id("z")}
  {
    FamilyKept(DeleteBatch(Family(), {Id("a")}));
    FamilyLinks();
    var world := World(map[1 := FailsAt(Beginning)], {});
    InterruptedPair(end, ParentsOf(Family()), Id("a"), Id("z"), BATCH_SIZE, world, DEFAULT_MAX_PASSES);
  }

  /**
   * An undisturbed sweeping run within the pass bound leaves no orphan aggregate, and no dangling
   * session that is not retained.
   */
  lemma NothingOrphanedRemains(db: Database, sel: Selectors, o: Options, pruned: set<Id>)
    requires Acyclic(ParentsOf(db)) && o.orphans && Bounded(db, sel, o)
    requires pruned <= EmptyProjects(DeleteBatch(db, Deleted(db, sel, o)))
    ensures var after := Cleaned(db, Deleted(db, sel, o), pruned);
            && OrphanAggregates(after) == {}
            && DanglingSessions(ParentsOf(after)) == DanglingSessions(ParentsOf(db)) * Retained(db, o.keepRecent)
  {
    var f, c, r := ParentsOf(db), Candidates(db, sel), Retained(db, o.keepRecent);
    var deleted := Deleted(db, sel, o);
    SessionsAfterRun(db, deleted, pruned);
    AppliedIsPlanned(f, c, r, true, DEFAULT_MAX_PASSES);
    RetainedIsWhole(db, o.keepRecent);
    PlannedPresent(db, sel, o);
    TakenOut(f.Keys, PlannedSessions(db, sel, o), PlannedAggregates(db, o));
    StraysGone(f, c, r, deleted);
    AggregatesAfterRun(db, deleted, pruned);
  }

  lemma AggregatesAfterRun(db: Database, gone: set<Id>, pruned: set<Id>)
    requires pruned <= EmptyProjects(DeleteBatch(db, gone))
    ensures OrphanAggregates(Cleaned(db, gone, pruned)) == OrphanAggregates(db) - gone
  {
    SessionsAfterRun(db, gone, pruned);
  }

  lemma {:induction false} DepthBelowAncestors(f: Parents, d: Id)
    requires Acyclic(f) && d in f
    ensures Depth(f, d) < |Ancestors(f, d)|
    decreases Ancestors(f, d)
  {
    if ParentPresent(f, d) {
      AncestorsShrink(f, d);
      SubsetSize(Ancestors(f, f[d].value), Ancestors(f, d));
      DepthBelowAncestors(f, f[d].value);
    } else {
      AboveSelf(f, d);
      assert d in Ancestors(f, d);
    }
  }

  /** No database of up to 32 sessions meets the pass bound. */
  lemma FewSessionsAgree(db: Database, sel: Selectors, o: Options, pruned: set<Id>)
    requires Acyclic(ParentsOf(db)) && pruned <= EmptyProjects(DeleteBatch(db, Deleted(db, sel, o)))
    requires |db.sessions| <= DEFAULT_MAX_PASSES
    ensures db.sessions.Keys - Cleaned(db, Deleted(db, sel, o), pruned).sessions.Keys == PlannedSessions(db, sel, o)
  {
    var f := ParentsOf(db);
    forall d <- f ensures Depth(f, d) < DEFAULT_MAX_PASSES {
      DepthBelowAncestors(f, d);
      SubsetSize(Ancestors(f, d), f.Keys);
      assert f.Keys == db.sessions.Keys;
    }
    DanglingIsWhole(f);
    PreviewIsApplied(db, sel, o, pruned);
  }

  /** A chain of `n` sessions that hangs below an absent one. Chain session `i` has a name of `i` letters. */
  function Link(i: nat): Id {
    Id(seq(i, _ => 'x'))
  }

  lemma LinkLength(i: nat, j: nat)
    ensures Link(i) == Link(j) <==> i == j
  {
    assert |Link(i).text| == i && |Link(j).text| == j;
  }

  ghost predicate IsChain(f: Parents, n: nat) {
    && (forall id :: id in f <==> exists i: nat :: 0 < i <= n && id == Link(i))
    && (forall i: nat {:trigger Link(i)} | 0 < i <= n :: Link(i) in f && f[Link(i)] == Some(Link(i - 1)))
  }

  lemma {:induction false} ChainDepth(f: Parents, n: nat, i: nat)
    requires IsChain(f, n) && Acyclic(f) && 0 < i <= n
    ensures Depth(f, Link(i)) == i - 1 && Link(i) in DanglingSessions(f)
    decreases i
  {
    ghost var p := i - 1;
    assert f[Link(i)] == Some(Link(p));
    DanglingIsWhole(f);
    if i == 1 {
      forall j: nat | 0 < j <= n ensures Link(0) != Link(j) { LinkLength(0, j); }
      assert Link(i) in DanglingRoots(f);
    } else {
      ChainDepth(f, n, p);
    }
  }

  /** A chain of dangling sessions, none selected or retained, is within the bound exactly up to 32 sessions. */
  lemma ChainWithinBound(f: Parents, n: nat)
    requires IsChain(f, n) && Acyclic(f)
    ensures WithinBound(f, {}, {}, DEFAULT_MAX_PASSES) <==> n <= DEFAULT_MAX_PASSES
  {
    var selected := Descendants(f, {} - {}) - {};
    assert selected == {};
    DanglingIsWhole(f);
    var strays := Strays(f, selected, {});
    assert strays == DanglingSessions(f);
    if n > DEFAULT_MAX_PASSES {
      ChainDepth(f, n, n);
      assert Link(n) in strays;
    } else {
      forall d <- strays ensures Depth(f, d) < DEFAULT_MAX_PASSES { ChainShallow(f, n, d); }
    }
  }

  lemma ChainShallow(f: Parents, n: nat, d: Id)
    requires IsChain(f, n) && Acyclic(f) && d in f
    ensures Depth(f, d) < n
  {
    var i: nat :| 0 < i <= n && d == Link(i);
    ChainDepth(f, n, i);
  }

  lemma ChainStep(f: Parents, n: nat, id: Id)
    requires IsChain(f, n) && id in f
    ensures f[id].Some? && |f[id].value.text| + 1 == |id.text|
  {
    var i: nat :| 0 < i <= n && id == Link(i);
    assert f[Link(i)] == Some(Link(i - 1));
  }

  lemma {:induction false} ChainUp(f: Parents, n: nat, id: Id, k: nat)
    requires IsChain(f, n)
    ensures Up(f, id, k).Some? ==> |Up(f, id, k).value.text| + k == |id.text|
    decreases k
  {
    if k > 0 && id in f {
      ChainStep(f, n, id);
      ChainUp(f, n, f[id].value, k - 1);
    }
  }

  function ChainDatabase(n: nat): Database {
    var links := set i | 0 < i <= n :: Link(i);
    Database(map[Id("project") := "/"], map id | id in links :: Session(Some(Link(|id.text| - 1)), Id("project"), 0, false),
             {}, map[], map[])
  }

  lemma ChainForest(n: nat)
    ensures IsChain(ParentsOf(ChainDatabase(n)), n) && Acyclic(ParentsOf(ChainDatabase(n)))
  {
    var f := ParentsOf(ChainDatabase(n));
    forall id <- f, k: nat | k > 0 ensures Up(f, id, k) != Some(id) { ChainUp(f, n, id, k); }
  }

  const SWEEP_ONLY := Selectors(None, None, None, false, map[], 0)

  lemma NothingSelected(db: Database)
    ensures Candidates(db, SWEEP_ONLY) == {} && Retained(db, 0) == {}
  {
    forall c ensures !Asked(SWEEP_ONLY, c) {}
    assert KeptRoots(db, EffectiveTimes(db), 0) == {};
  }

  /** A sweep of such a chain deletes what its preview listed exactly up to 32 sessions. */
  lemma ChainRun(n: nat)
    ensures Acyclic(ParentsOf(ChainDatabase(n)))
    ensures var db, o := ChainDatabase(n), Options(0, true, false);
            db.sessions.Keys - Cleaned(db, Deleted(db, SWEEP_ONLY, o), {}).sessions.Keys == PlannedSessions(db, SWEEP_ONLY, o)
            <==> n <= 32
  {
    var db := ChainDatabase(n);
    ChainForest(n);
    NothingSelected(db);
    ChainWithinBound(ParentsOf(db), n);
    PreviewIsApplied(db, SWEEP_ONLY, Options(0, true, false), {});
  }
}
