/** The session predicates of a cleanup, and their intersection. */
module Predicates {
  import opened Basics
  import opened Forest
  import opened Schema
  import opened Ages
  import opened Attribution
  import opened Paths

  function Archived(db: Database): set<Id> {
    set id | id in db.sessions && db.sessions[id].archived
  }

  datatype PathSelector = PathSelector(pattern: string, exclude: bool)

  /** A session joined with its project's worktree and one registered directory, if there is any. */
  datatype PathRow = PathRow(session: Id, worktree: string, directory: Option<string>)

  function Directories(db: Database, project: Id): set<string> {
    set r | r in db.owned && r.table.ProjectDirectories? && db.owned[r].owner == project :: db.owned[r].text
  }

  /** `session JOIN project LEFT JOIN project_directory`. */
  function PathRows(db: Database): set<PathRow> {
    (set id, d | id in db.sessions && db.sessions[id].project in db.projects && d in Directories(db, db.sessions[id].project)
       :: PathRow(id, db.projects[db.sessions[id].project], Some(d)))
    + (set id | id in db.sessions && db.sessions[id].project in db.projects && Directories(db, db.sessions[id].project) == {}
         :: PathRow(id, db.projects[db.sessions[id].project], None))
  }

  ghost predicate RowSelected(row: PathRow, pattern: string, fold: CaseFold) {
    Selects(pattern, fold, row.worktree) || (row.directory.Some? && Selects(pattern, fold, row.directory.value))
  }

  /** The pattern selects the project's worktree or one of its registered directories. */
  ghost predicate ProjectSelected(db: Database, project: Id, pattern: string, fold: CaseFold)
    requires project in db.projects
  {
    Selects(pattern, fold, db.projects[project]) || exists d <- Directories(db, project) :: Selects(pattern, fold, d)
  }

  /** Sessions of matching projects, or of the others. A session without a project row is in neither. */
  ghost function PathSet(db: Database, selector: PathSelector, fold: CaseFold): set<Id> {
    set id | id in db.sessions && db.sessions[id].project in db.projects &&
             ProjectSelected(db, db.sessions[id].project, selector.pattern, fold) != selector.exclude
  }

  lemma RowsOfSession(db: Database, id: Id, pattern: string, fold: CaseFold)
    ensures (exists row <- PathRows(db) :: row.session == id) <==> id in db.sessions && db.sessions[id].project in db.projects
    ensures (exists row <- PathRows(db) :: row.session == id && RowSelected(row, pattern, fold)) <==>
              id in db.sessions && db.sessions[id].project in db.projects && ProjectSelected(db, db.sessions[id].project, pattern, fold)
  {
    if id in db.sessions && db.sessions[id].project in db.projects {
      var project := db.sessions[id].project;
      var dirs := Directories(db, project);
      if dirs == {} {
        assert PathRow(id, db.projects[project], None) in PathRows(db);
      } else {
        var d := Pick(dirs);
        assert PathRow(id, db.projects[project], Some(d)) in PathRows(db);
        forall e <- dirs ensures PathRow(id, db.projects[project], Some(e)) in PathRows(db) {}
      }
    }
  }

  /** One row of the path query. */
  method VisitRow(row: PathRow, matcher: Matcher, fold: CaseFold, ghost pattern: string) returns (selected: bool)
    requires Decides(matcher, pattern, fold)
    ensures selected <==> RowSelected(row, pattern, fold)
  {
    selected := MatchesPath(matcher, row.worktree, fold, pattern);
    if !selected && row.directory.Some? {
      selected := MatchesPath(matcher, row.directory.value, fold, pattern);
    }
  }

  /** The sessions of some rows, and of the rows the matcher selects. */
  method VisitRows(rows: set<PathRow>, matcher: Matcher, fold: CaseFold, ghost pattern: string)
    returns (selected: set<Id>, visited: set<Id>)
    requires Decides(matcher, pattern, fold)
    ensures forall id :: id in visited <==> exists row <- rows :: row.session == id
    ensures forall id :: id in selected <==> exists row <- rows :: row.session == id && RowSelected(row, pattern, fold)
  {
    selected, visited := {}, {};
    var rest := rows;
    while rest != {}
      invariant rest <= rows
      invariant forall id :: id in visited <==> exists row <- rows - rest :: row.session == id
      invariant forall id :: id in selected <==> exists row <- rows - rest :: row.session == id && RowSelected(row, pattern, fold)
    {
      var row :| row in rest;
      var matches := VisitRow(row, matcher, fold, pattern);
      if matches {
        selected := selected + {row.session};
      }
      visited, rest := visited + {row.session}, rest - {row};
    }
    assert rows - rest == rows;
  }

  /** Selects sessions by project path; exclusion is decided per session, not per directory row. */
  method Project(db: Database, selector: PathSelector, fold: CaseFold) returns (r: Result<set<Id>>)
    ensures r.Success? <==> WellFormed(selector.pattern, fold)
    ensures r.Success? ==> r.value == PathSet(db, selector, fold)
    ensures r.Failure? ==> r.error == InvalidArgument
  {
    var matcher := NewMatcher(selector.pattern, fold);
    if matcher.Failure? {
      return Failure(matcher.error);
    }
    var selected, visited := VisitRows(PathRows(db), matcher.value, fold, selector.pattern);
    forall id
      ensures id in visited <==> id in db.sessions && db.sessions[id].project in db.projects
      ensures id in selected <==> id in visited && ProjectSelected(db, db.sessions[id].project, selector.pattern, fold)
    {
      RowsOfSession(db, id, selector.pattern, fold);
    }
    r := Success(if selector.exclude then visited - selected else selected);
  }

  ghost predicate InAll(sets: seq<set<Id>>, id: Id) {
    forall i | 0 <= i < |sets| :: id in sets[i]
  }

  /** The members of every set; none stands for no set at all. */
  method IntersectCandidateSets(sets: seq<set<Id>>) returns (r: Option<set<Id>>)
    ensures r.None? <==> sets == []
    ensures r.Some? ==> forall id :: id in r.value <==> InAll(sets, id)
  {
    if sets == [] {
      return None;
    }
    var intersection := sets[0];
    for n := 1 to |sets|
      invariant forall id :: id in intersection <==> forall i | 0 <= i < n :: id in sets[i]
    {
      intersection := intersection * sets[n];
    }
    r := Some(intersection);
  }

  /** The predicates a cleanup can be asked for. */
  datatype Criterion = ByAge | ByPath | BySize | ByArchival

  datatype Selectors = Selectors(
    olderThan: Option<nat>, path: Option<PathSelector>, largerThan: Option<nat>, archived: bool, fold: CaseFold, nowMs: int)

  predicate Asked(sel: Selectors, c: Criterion) {
    match c
    case ByAge => sel.olderThan.Some?
    case ByPath => sel.path.Some?
    case BySize => sel.largerThan.Some?
    case ByArchival => sel.archived
  }

  ghost function SetOf(db: Database, sel: Selectors, c: Criterion): set<Id>
    requires Asked(sel, c)
  {
    match c
    case ByAge => OlderSet(db, sel.nowMs - sel.olderThan.value)
    case ByPath => PathSet(db, sel.path.value, sel.fold)
    case BySize => LargeSet(db, sel.largerThan.value)
    case ByArchival => Archived(db)
  }

  ghost predicate Evaluable(db: Database, sel: Selectors, c: Criterion)
    requires Asked(sel, c)
  {
    match c
    case ByAge => sel.olderThan.value <= MAX_EPOCH && sel.nowMs - sel.olderThan.value >= MIN_EPOCH && Acyclic(ParentsOf(db))
    case ByPath => WellFormed(sel.path.value.pattern, sel.fold)
    case BySize => AllAttributed(db) && Acyclic(ParentsOf(db))
    case ByArchival => true
  }

  /** Every predicate asked for can be evaluated. */
  ghost predicate Accepted(db: Database, sel: Selectors) {
    forall c :: Asked(sel, c) ==> Evaluable(db, sel, c)
  }

  /** The session meets every predicate of `cs` that was asked for. */
  ghost predicate Meets(db: Database, sel: Selectors, cs: set<Criterion>, id: Id) {
    forall c <- cs | Asked(sel, c) :: id in SetOf(db, sel, c)
  }

  ghost predicate AnyAsked(sel: Selectors, cs: set<Criterion>) {
    exists c <- cs :: Asked(sel, c)
  }

  const CRITERIA: set<Criterion> := {ByAge, ByPath, BySize, ByArchival}

  /** The sessions that meet every predicate asked for; none when none was asked for. */
  ghost function Candidates(db: Database, sel: Selectors): set<Id> {
    set id | id in db.sessions && AnyAsked(sel, CRITERIA) && Meets(db, sel, CRITERIA, id)
  }

  /** Evaluates one predicate. */
  method Evaluate(db: Database, sel: Selectors, c: Criterion) returns (r: Result<set<Id>>)
    requires Asked(sel, c)
    ensures r.Success? <==> Evaluable(db, sel, c)
    ensures r.Success? ==> r.value == SetOf(db, sel, c)
  {
    match c
    case ByAge => r := OlderThan(db, sel.olderThan.value, sel.nowMs);
    case ByPath => r := Project(db, sel.path.value, sel.fold);
    case BySize => r := LargerThan(db, sel.largerThan.value);
    case ByArchival => r := Success(Archived(db));
  }

  /** `sets` holds the results of the predicates of `done` that were asked for. */
  ghost predicate Pushed(db: Database, sel: Selectors, done: set<Criterion>, sets: seq<set<Id>>) {
    && (forall c <- done | Asked(sel, c) :: Evaluable(db, sel, c))
    && (sets != [] <==> AnyAsked(sel, done))
    && (forall id :: InAll(sets, id) <==> Meets(db, sel, done, id))
  }

  lemma InAllNext(sets: seq<set<Id>>, s: set<Id>, id: Id)
    ensures InAll(sets + [s], id) <==> InAll(sets, id) && id in s
  {
    var all := sets + [s];
    assert all[|sets|] == s;
    assert forall i | 0 <= i < |sets| :: all[i] == sets[i];
  }

  lemma PushedNext(db: Database, sel: Selectors, done: set<Criterion>, sets: seq<set<Id>>, c: Criterion, s: set<Id>)
    requires Asked(sel, c) && Evaluable(db, sel, c) && Pushed(db, sel, done, sets) && s == SetOf(db, sel, c)
    ensures Pushed(db, sel, done + {c}, sets + [s])
  {
    forall id ensures InAll(sets + [s], id) <==> Meets(db, sel, done + {c}, id) { InAllNext(sets, s, id); }
  }

  /** Evaluates one predicate if it was asked for, and adds its result to the list. */
  method Push(db: Database, sel: Selectors, c: Criterion, sets: seq<set<Id>>, ghost done: set<Criterion>)
    returns (r: Result<seq<set<Id>>>)
    requires Pushed(db, sel, done, sets)
    ensures r.Success? <==> (Asked(sel, c) ==> Evaluable(db, sel, c))
    ensures r.Success? ==> Pushed(db, sel, done + {c}, r.value)
  {
    if !Asked(sel, c) {
      return Success(sets);
    }
    var s := Evaluate(db, sel, c);
    if s.Failure? {
      return Failure(s.error);
    }
    PushedNext(db, sel, done, sets, c, s.value);
    r := Success(sets + [s.value]);
  }

  lemma SetWithin(db: Database, sel: Selectors, c: Criterion)
    requires Asked(sel, c)
    ensures SetOf(db, sel, c) <= db.sessions.Keys
  {
  }

  /** With all predicates evaluated, the common members of the results are the candidates. */
  lemma PushedAll(db: Database, sel: Selectors, sets: seq<set<Id>>)
    requires Pushed(db, sel, CRITERIA, sets)
    ensures Accepted(db, sel)
    ensures forall id :: id in Candidates(db, sel) <==> sets != [] && InAll(sets, id)
  {
    forall c | Asked(sel, c) ensures Evaluable(db, sel, c) { EveryCriterion(c); }
    forall id | AnyAsked(sel, CRITERIA) && Meets(db, sel, CRITERIA, id) ensures id in db.sessions {
      var c :| c in CRITERIA && Asked(sel, c);
      SetWithin(db, sel, c);
    }
  }

  lemma EveryCriterion(c: Criterion)
    ensures c in CRITERIA
  {
  }

  /** The pattern selects the worktree of a project, or the text of a directory row that names it. */
  ghost predicate PathWanted(db: Database, project: Id, pattern: string, fold: CaseFold)
    requires project in db.projects
  {
    || Selects(pattern, fold, db.projects[project])
    || exists r <- db.owned :: r.table.ProjectDirectories? && db.owned[r].owner == project && Selects(pattern, fold, db.owned[r].text)
  }

  /** What a session must be like to be a candidate, on the columns of its own and other rows. */
  ghost predicate Wanted(db: Database, sel: Selectors, id: Id) {
    && id in db.sessions && (sel.olderThan.Some? || sel.path.Some? || sel.largerThan.Some? || sel.archived)
    && (sel.archived ==> db.sessions[id].archived)
    && (sel.olderThan.Some? ==> forall d <- db.sessions | Above(ParentsOf(db), id, d) ::
                                  db.sessions[d].timeUpdated <= sel.nowMs - sel.olderThan.value)
    && (sel.largerThan.Some? ==> PayloadBelow(db, id) >= sel.largerThan.value)
    && (sel.path.Some? ==> db.sessions[id].project in db.projects
                           && PathWanted(db, db.sessions[id].project, sel.path.value.pattern, sel.fold) != sel.path.value.exclude)
  }

  lemma PathExactly(db: Database, selector: PathSelector, fold: CaseFold, id: Id)
    ensures id in PathSet(db, selector, fold) <==>
              && id in db.sessions && db.sessions[id].project in db.projects
              && PathWanted(db, db.sessions[id].project, selector.pattern, fold) != selector.exclude
  {
    if id in db.sessions && db.sessions[id].project in db.projects {
      var project := db.sessions[id].project;
      if r :| r in db.owned && r.table.ProjectDirectories? && db.owned[r].owner == project && Selects(selector.pattern, fold, db.owned[r].text) {
        assert db.owned[r].text in Directories(db, project);
      }
    }
  }

  lemma SetExactly(db: Database, sel: Selectors, c: Criterion, id: Id)
    requires Asked(sel, c)
    ensures id in SetOf(db, sel, c) <==>
              id in db.sessions &&
              match c
              case ByAge => forall d <- db.sessions | Above(ParentsOf(db), id, d) ::
                              db.sessions[d].timeUpdated <= sel.nowMs - sel.olderThan.value
              case ByPath => db.sessions[id].project in db.projects
                             && PathWanted(db, db.sessions[id].project, sel.path.value.pattern, sel.fold) != sel.path.value.exclude
              case BySize => PayloadBelow(db, id) >= sel.largerThan.value
              case ByArchival => db.sessions[id].archived
  {
    match c
    case ByAge => if id in db.sessions { OlderMeansQuietSubtree(db, sel.nowMs - sel.olderThan.value, id); }
    case ByPath => PathExactly(db, sel.path.value, sel.fold, id);
    case BySize => LargeExactly(db, sel.largerThan.value);
    case ByArchival =>
  }

  /** The candidates are the sessions that meet the columns' conditions of all predicates asked for. */
  lemma CandidatesExactly(db: Database, sel: Selectors)
    ensures forall id :: id in Candidates(db, sel) <==> Wanted(db, sel, id)
  {
    forall id ensures id in Candidates(db, sel) <==> Wanted(db, sel, id) { CandidateExactly(db, sel, id); }
  }

  lemma CandidateExactly(db: Database, sel: Selectors, id: Id)
    ensures id in Candidates(db, sel) <==> Wanted(db, sel, id)
  {
    forall c | Asked(sel, c) { SetExactly(db, sel, c, id); }
    assert AnyAsked(sel, CRITERIA) <==> sel.olderThan.Some? || sel.path.Some? || sel.largerThan.Some? || sel.archived by {
      assert ByAge in CRITERIA && ByPath in CRITERIA && BySize in CRITERIA && ByArchival in CRITERIA;
    }
    forall c | Asked(sel, c) ensures c in CRITERIA { EveryCriterion(c); }
  }
}
