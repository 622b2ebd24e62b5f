/** The preview: which sessions, projects and rows a cleanup would delete. */
module Impact {
  import opened Basics
  import opened Forest
  import opened Schema
  import opened Subtrees
  import opened Retention
  import opened Orphans
  import opened Attribution
  import opened Sums
  import opened Predicates
  import opened Deletion

  /** The candidates whose parent is not one. */
  ghost function Tops(f: Parents, candidates: set<Id>): set<Id> {
    set id | id in f && id in candidates && (f[id].None? || f[id].value !in candidates)
  }

  method SelectionRoots(f: Parents, candidates: set<Id>) returns (roots: set<Id>)
    ensures roots == Tops(f, candidates)
    ensures forall id :: id in roots <==> id in f && id in candidates && !exists p <- candidates :: f[id] == Some(p)
  {
    roots := {};
    var rest := f.Keys;
    while rest != {}
      invariant rest <= f.Keys
      invariant forall id :: id in roots <==> id in Tops(f, candidates) && id !in rest
    {
      var id :| id in rest;
      if id in candidates && (f[id].None? || f[id].value !in candidates) {
        roots := roots + {id};
      }
      rest := rest - {id};
    }
  }

  /** The highest candidate reached from a candidate through candidates. */
  ghost function Climb(f: Parents, candidates: set<Id>, c: Id): (t: Id)
    requires Acyclic(f) && candidates <= f.Keys && c in candidates
    ensures t in Tops(f, candidates) && Above(f, t, c)
    decreases Ancestors(f, c)
  {
    if f[c].Some? && f[c].value in candidates then
      AncestorsShrink(f, c);
      var t := Climb(f, candidates, f[c].value);
      ParentAbove(f, c);
      AboveTransitive(f, t, f[c].value, c);
      t
    else
      AboveSelf(f, c);
      c
  }

  /** Expanding the unretained selection roots reaches the same sessions as expanding all unretained candidates. */
  lemma RootsSuffice(f: Parents, candidates: set<Id>, retained: set<Id>)
    requires Acyclic(f) && candidates <= f.Keys && ChildClosed(f, retained)
    ensures Descendants(f, Tops(f, candidates) - retained) == Descendants(f, candidates - retained)
  {
    forall d ensures d in Descendants(f, Tops(f, candidates) - retained) <==> d in Descendants(f, candidates - retained) {
      if d in Descendants(f, candidates - retained) {
        var c :| c in candidates - retained && Above(f, c, d);
        var t := Climb(f, candidates, c);
        AboveTransitive(f, t, c, d);
        if t in retained { ClosedBelow(f, retained, t, c); }
      }
    }
  }

  /** The sessions of the preview. */
  ghost function Planned(f: Parents, candidates: set<Id>, retained: set<Id>, sweep: bool): set<Id> {
    (Descendants(f, candidates - retained) - retained) + (if sweep then DanglingSessions(f) - retained else {})
  }

  datatype Plan = Plan(rootCount: nat, sessions: set<Id>, dangling: set<Id>, aggregates: set<Id>)

  /** The common members of the predicates asked for. */
  method CandidateRoots(db: Database, sel: Selectors) returns (r: Result<set<Id>>)
    ensures r.Success? <==> Accepted(db, sel)
    ensures r.Success? ==> r.value == Candidates(db, sel)
    ensures r.Success? ==> forall id :: id in r.value <==> Wanted(db, sel, id)
  {
    CandidatesExactly(db, sel);
    var sets := Push(db, sel, ByAge, [], {});
    if sets.Success? { sets := Push(db, sel, ByArchival, sets.value, {ByAge}); }
    if sets.Success? { sets := Push(db, sel, BySize, sets.value, {ByAge, ByArchival}); }
    if sets.Success? { sets := Push(db, sel, ByPath, sets.value, {ByAge, ByArchival, BySize}); }
    if sets.Failure? {
      return Failure(sets.error);
    }
    assert {ByAge, ByArchival, BySize} + {ByPath} == CRITERIA;
    PushedAll(db, sel, sets.value);
    var common := IntersectCandidateSets(sets.value);
    r := Success(if common.None? then {} else common.value);
  }

  /** Plans the sessions and event aggregates a cleanup would delete. */
  method PlanSelection(db: Database, sel: Selectors, keepRecent: nat, sweep: bool) returns (r: Result<Plan>)
    ensures r.Success? <==> Accepted(db, sel) && Acyclic(ParentsOf(db))
    ensures r.Success? ==> r.value.sessions == Planned(ParentsOf(db), Candidates(db, sel), Retained(db, keepRecent), sweep)
    ensures r.Success? ==> r.value.rootCount == |Tops(ParentsOf(db), Candidates(db, sel)) - Retained(db, keepRecent)|
    ensures r.Success? ==> r.value.dangling == if sweep then DanglingSessions(ParentsOf(db)) - Retained(db, keepRecent) else {}
    ensures r.Success? ==> r.value.aggregates == if sweep then OrphanAggregates(db) else {}
  {
    var f := ParentsOf(db);
    var candidates := CandidateRoots(db, sel);
    if candidates.Failure? {
      return Failure(candidates.error);
    }
    var roots := SelectionRoots(f, candidates.value);
    var retention := Compute(db, keepRecent);
    if retention.Failure? {
      return Failure(retention.error);
    }
    var retained := retention.value;
    roots := roots - retained;
    var expanded := Expand(f, roots);
    RetainedIsWhole(db, keepRecent);
    RootsSuffice(f, candidates.value, retained);
    var dangling := if sweep then DanglingSessions(f) - retained else {};
    var aggregates := if sweep then OrphanAggregates(db) else {};
    match expanded
    case Failure(error) => r := Failure(error);
    case Success(ids) => r := Success(Plan(|roots|, ids - retained + dangling, dangling, aggregates));
  }

  /** The projects a run prunes: those left without a session, old empty ones only on request. */
  ghost function EmptiedBy(db: Database, ids: set<Id>, pruneEmpty: bool): set<Id> {
    (if pruneEmpty then set p | p in db.projects && SessionsOf(db, p) <= ids else {})
    + (set id | id in db.sessions && SessionsOf(db, db.sessions[id].project) <= ids :: db.sessions[id].project)
  }

  datatype Tally = Tally(total: nat, selected: nat)

  function TallyOf(counts: map<Id, Tally>, project: Id): Tally {
    if project in counts then counts[project] else Tally(0, 0)
  }

  /** A project's counters after the sessions of `seen`, given every session's project. */
  ghost predicate Tallied(owner: map<Id, Id>, seen: set<Id>, ids: set<Id>, counts: map<Id, Tally>, project: Id)
    requires seen <= owner.Keys
  {
    var mine := Group(seen, owner, project);
    TallyOf(counts, project) == Tally(|mine|, |mine * ids|)
  }

  function Tallying(counts: map<Id, Tally>, project: Id, selected: bool): map<Id, Tally> {
    var t := TallyOf(counts, project);
    counts[project := Tally(t.total + 1, if selected then t.selected + 1 else t.selected)]
  }

  lemma TallyNext(owner: map<Id, Id>, seen: set<Id>, ids: set<Id>, counts: map<Id, Tally>, id: Id, project: Id)
    requires seen <= owner.Keys && id in owner && id !in seen && Tallied(owner, seen, ids, counts, project)
    ensures Tallied(owner, seen + {id}, ids, Tallying(counts, owner[id], id in ids), project)
  {
    GroupNext(owner, seen, id, project);
    OneMore(Group(seen, owner, project), id, ids);
  }

  lemma GroupNext(owner: map<Id, Id>, seen: set<Id>, id: Id, project: Id)
    requires seen <= owner.Keys && id in owner && id !in seen
    ensures Group(seen + {id}, owner, project) == Group(seen, owner, project) + (if owner[id] == project then {id} else {})
    ensures id !in Group(seen, owner, project)
  {
  }

  lemma OneMore(s: set<Id>, id: Id, ids: set<Id>)
    requires id !in s
    ensures |s + {id}| == |s| + 1
    ensures |(s + {id}) * ids| == |s * ids| + if id in ids then 1 else 0
  {
    assert (s + {id}) * ids == s * ids + (if id in ids then {id} else {});
  }

  /** The projects of the sessions in `seen`. */
  ghost function Owning(owner: map<Id, Id>, seen: set<Id>): set<Id>
    requires seen <= owner.Keys
  {
    set id | id in seen :: owner[id]
  }

  lemma TallyStarts(owner: map<Id, Id>, ids: set<Id>, start: map<Id, Tally>, project: Id)
    requires project in start ==> start[project] == Tally(0, 0)
    ensures Tallied(owner, {}, ids, start, project)
  {
  }

  lemma OwningAll(owner: map<Id, Id>)
    ensures Owning(owner, owner.Keys) == owner.Values
  {
  }

  lemma OwningNext(owner: map<Id, Id>, seen: set<Id>, id: Id)
    requires seen <= owner.Keys && id in owner
    ensures Owning(owner, seen + {id}) == Owning(owner, seen) + {owner[id]}
  {
  }

  /** Counts every project's sessions and the selected ones among them. */
  method CountSessions(owner: map<Id, Id>, ids: set<Id>, start: map<Id, Tally>) returns (counts: map<Id, Tally>)
    requires forall p <- start :: start[p] == Tally(0, 0)
    ensures forall p :: Tallied(owner, owner.Keys, ids, counts, p)
    ensures counts.Keys == start.Keys + owner.Values
  {
    counts := start;
    ghost var seen: set<Id> := {};
    var rest := owner.Keys;
    forall p ensures Tallied(owner, seen, ids, counts, p) { TallyStarts(owner, ids, start, p); }
    while rest != {}
      invariant seen <= owner.Keys && rest == owner.Keys - seen
      invariant forall p :: Tallied(owner, seen, ids, counts, p)
      invariant counts.Keys == start.Keys + Owning(owner, seen)
    {
      var id :| id in rest;
      var next := Tallying(counts, owner[id], id in ids);
      forall p ensures Tallied(owner, seen + {id}, ids, next, p) { TallyNext(owner, seen, ids, counts, id, p); }
      OwningNext(owner, seen, id);
      counts, seen, rest := next, seen + {id}, rest - {id};
    }
    assert seen == owner.Keys;
    OwningAll(owner);
  }

  lemma TallyMeans(owner: map<Id, Id>, ids: set<Id>, counts: map<Id, Tally>, project: Id)
    requires Tallied(owner, owner.Keys, ids, counts, project) && project in counts
    ensures counts[project].total == counts[project].selected <==> Group(owner.Keys, owner, project) <= ids
  {
    var mine := Group(owner.Keys, owner, project);
    SubsetSize(mine * ids, mine);
    if mine <= ids { assert mine * ids == mine; }
  }

  function ProjectOf(db: Database): map<Id, Id> {
    map id | id in db.sessions :: db.sessions[id].project
  }

  /** The projects whose sessions are all selected, by counting. */
  method ProjectsEmptiedBy(db: Database, ids: set<Id>, pruneEmpty: bool) returns (projects: set<Id>)
    ensures projects == EmptiedBy(db, ids, pruneEmpty)
  {
    var start: map<Id, Tally> := if pruneEmpty then map p | p in db.projects :: Tally(0, 0) else map[];
    var owner := ProjectOf(db);
    var counts := CountSessions(owner, ids, start);
    projects := set p | p in counts && counts[p].total == counts[p].selected;
    forall p ensures p in projects <==> p in EmptiedBy(db, ids, pruneEmpty) {
      if p in counts { TallyMeans(owner, ids, counts, p); }
      GroupIsSessionsOf(db, p);
    }
  }

  lemma GroupIsSessionsOf(db: Database, p: Id)
    ensures Group(db.sessions.Keys, ProjectOf(db), p) == SessionsOf(db, p)
    ensures p in ProjectOf(db).Values <==> exists id <- db.sessions :: db.sessions[id].project == p
  {
    if p in ProjectOf(db).Values {
      var id :| id in ProjectOf(db) && ProjectOf(db)[id] == p;
      assert id in db.sessions && db.sessions[id].project == p;
    }
    if id :| id in db.sessions && db.sessions[id].project == p { assert ProjectOf(db)[id] == p; }
  }

  /** Adds the rows of some tables owned by the given ids, counted in chunks. */
  method TableImpact(db: Database, tables: seq<Table>, owners: set<Id>, start: RowCounts) returns (rows: RowCounts)
    requires forall i, j | 0 <= i < j < |tables| :: tables[i] != tables[j]
    ensures forall t {:trigger rows[t]} :: rows[t] == start[t] + if t in tables then CountOwnedBy(db, t, owners) else 0
  {
    rows := start;
    if owners == {} {
      forall t ensures CountOwnedBy(db, t, owners) == 0 { assert KeysOwnedBy(db, t, {}) == {}; }
      return;
    }
    for i := 0 to |tables|
      invariant forall t {:trigger rows[t]} :: rows[t] == start[t] + if t in tables[..i] then CountOwnedBy(db, t, owners) else 0
    {
      assert tables[..i + 1] == tables[..i] + [tables[i]];
      assert tables[i] !in tables[..i];
      var n := CountChunks(db, tables[i], owners);
      rows := Add(rows, tables[i], n);
    }
    assert tables[..|tables|] == tables;
  }

  /** Counts the rows of one table, some owners at a time. */
  method CountChunks(db: Database, t: Table, owners: set<Id>) returns (n: nat)
    ensures n == CountOwnedBy(db, t, owners)
  {
    var order := Ascending(owners);
    n := 0;
    var i := 0;
    ghost var done: set<Id> := {};
    assert KeysOwnedBy(db, t, {}) == {};
    while i < |order|
      invariant 0 <= i <= |order| && done == set id | id in order[..i]
      invariant n == CountOwnedBy(db, t, done)
    {
      var j := if i + CHUNK < |order| then i + CHUNK else |order|;
      var chunk := set id | id in order[i..j];
      SplitPrefix(order, i, j);
      forall id <- chunk ensures id !in done { Distinct(order, i, j, id); }
      OwnedBySplit(db, t, done, chunk);
      n, i, done := n + CountOwnedBy(db, t, chunk), j, done + chunk;
    }
    assert order[..i] == order && done == owners;
  }

  lemma Distinct(order: seq<Id>, i: nat, j: nat, id: Id)
    requires i <= j <= |order| && id in order[i..j] && forall i, j | 0 <= i < j < |order| :: Less(order[i], order[j])
    ensures id !in order[..i]
  {
    var m :| i <= m < j && order[m] == id;
    forall k | 0 <= k < i ensures order[k] != id { IdOrder(order[k], order[m]); }
  }

  const SESSION_TABLES: seq<Table> :=
    [Sessions, Messages, Parts, ContextEpochs, Inputs, SessionMessages, Shares, Todos, EventSequences, Events]

  const PROJECT_TABLES: seq<Table> := [Projects, ProjectDirectories, Permissions, Workspaces]

  const ORPHAN_TABLES: seq<Table> := [EventSequences, Events]

  /** The rows of the preview, by table. */
  ghost predicate Previewed(rows: RowCounts, db: Database, plan: Plan, projects: set<Id>) {
    forall t {:trigger rows[t]} ::
      rows[t] == (if ProjectSide(t) then CountOwnedBy(db, t, projects)
                  else CountOwnedBy(db, t, plan.sessions) + if t in ORPHAN_TABLES then CountOwnedBy(db, t, plan.aggregates) else 0)
  }

  lemma TablesCovered(t: Table)
    ensures t in SESSION_TABLES <==> !ProjectSide(t)
    ensures t in PROJECT_TABLES <==> ProjectSide(t)
    ensures t in ORPHAN_TABLES ==> !ProjectSide(t)
  {
    if ProjectSide(t) {
      assert t == PROJECT_TABLES[0] || t == PROJECT_TABLES[1] || t == PROJECT_TABLES[2] || t == PROJECT_TABLES[3];
    } else {
      match t
      case Sessions => assert SESSION_TABLES[0] == t;
      case Messages => assert SESSION_TABLES[1] == t;
      case Parts => assert SESSION_TABLES[2] == t;
      case ContextEpochs => assert SESSION_TABLES[3] == t;
      case Inputs => assert SESSION_TABLES[4] == t;
      case SessionMessages => assert SESSION_TABLES[5] == t;
      case Shares => assert SESSION_TABLES[6] == t;
      case Todos => assert SESSION_TABLES[7] == t;
      case EventSequences => assert SESSION_TABLES[8] == t;
      case Events => assert SESSION_TABLES[9] == t;
    }
  }

  /** Counts the rows the planned deletion would remove, and the projects it would prune. */
  method DatabaseImpact(db: Database, plan: Plan, pruneEmpty: bool) returns (rows: RowCounts, projects: set<Id>)
    ensures projects == EmptiedBy(db, plan.sessions, pruneEmpty)
    ensures Previewed(rows, db, plan, projects)
  {
    projects := ProjectsEmptiedBy(db, plan.sessions, pruneEmpty);
    rows := TableImpact(db, SESSION_TABLES, plan.sessions, multiset{});
    rows := TableImpact(db, PROJECT_TABLES, projects, rows);
    rows := TableImpact(db, ORPHAN_TABLES, plan.aggregates, rows);
    forall t ensures t in SESSION_TABLES <==> !ProjectSide(t) ensures t in PROJECT_TABLES <==> ProjectSide(t)
      ensures t in ORPHAN_TABLES ==> !ProjectSide(t) { TablesCovered(t); }
  }
}
