/** Hard retention: the most recently active roots of each project, with their whole trees. */
module Retention {
  import opened Basics
  import opened Forest
  import opened Ranking
  import opened Schema
  import opened Ages
  import opened Subtrees

  ghost function ProjectRoots(db: Database, project: Id): set<Id> {
    set id | id in db.sessions && IsRoot(ParentsOf(db), id) && db.sessions[id].project == project
  }

  /** The roots retention selects under given times: those among the `k` newest of their project. */
  ghost function KeptRoots(db: Database, times: Times, k: nat): set<Id>
    requires db.sessions.Keys <= times.Keys
  {
    set id | id in db.sessions && IsRoot(ParentsOf(db), id) &&
             id in Newest(ProjectRoots(db, db.sessions[id].project), times, k)
  }

  ghost function Retained(db: Database, k: nat): set<Id> {
    Descendants(ParentsOf(db), KeptRoots(db, EffectiveTimes(db), k))
  }

  /** A retained set is a union of complete trees. */
  lemma RetainedIsWhole(db: Database, k: nat)
    ensures WholeTrees(ParentsOf(db), Retained(db, k))
    ensures KeptRoots(db, EffectiveTimes(db), k) <= Retained(db, k)
  {
    RootTreesAreWhole(ParentsOf(db), KeptRoots(db, EffectiveTimes(db), k));
    DescendantsClosed(ParentsOf(db), KeptRoots(db, EffectiveTimes(db), k));
  }

  /** The roots of the same project that come first: later activity in their tree, or as late and a greater identifier. */
  ghost function Outrankers(db: Database, root: Id): set<Id>
    requires root in db.sessions
  {
    var mine := db.sessions[root];
    var latest := EffectiveTime(db, root);
    set q | q in db.sessions && db.sessions[q].project == mine.project && (db.sessions[q].parent.None? || db.sessions[q].parent.value !in db.sessions)
            && (EffectiveTime(db, q) > latest || (EffectiveTime(db, q) == latest && TextLess(root.text, q.text)))
  }

  lemma OutrankersAreAhead(db: Database, root: Id)
    requires root in db.sessions
    ensures Outrankers(db, root) == Ahead(ProjectRoots(db, db.sessions[root].project), EffectiveTimes(db), root)
  {
  }

  /** A root outranked by fewer than `k` others of its project. */
  ghost predicate WithinQuota(db: Database, k: nat, root: Id) {
    root in db.sessions && (db.sessions[root].parent.None? || db.sessions[root].parent.value !in db.sessions)
    && |Outrankers(db, root)| < k
  }

  lemma KeptExactly(db: Database, k: nat, root: Id)
    ensures root in KeptRoots(db, EffectiveTimes(db), k) <==> WithinQuota(db, k, root)
  {
    if root in db.sessions { OutrankersAreAhead(db, root); }
  }

  /** A session is retained exactly when it is at or below a root that fewer than `k` roots of its project outrank. */
  lemma RetainedExactly(db: Database, k: nat, id: Id)
    ensures id in Retained(db, k) <==> exists root <- db.sessions :: WithinQuota(db, k, root) && Above(ParentsOf(db), root, id)
  {
    var kept := KeptRoots(db, EffectiveTimes(db), k);
    forall root ensures root in kept <==> WithinQuota(db, k, root) { KeptExactly(db, k, root); }
    if root: Id :| root in kept && Above(ParentsOf(db), root, id) { AboveIsPresent(db, root, id); }
  }

  lemma AboveIsPresent(db: Database, root: Id, id: Id)
    requires Above(ParentsOf(db), root, id)
    ensures id in db.sessions
  {
  }

  /** Every project keeps exactly min(k, n) of its n roots, and they are newer than the others. */
  lemma QuotaPerProject(db: Database, times: Times, project: Id, k: nat)
    requires db.sessions.Keys <= times.Keys
    ensures var roots := ProjectRoots(db, project);
            var kept := KeptRoots(db, times, k) * roots;
            && |kept| == (if k < |roots| then k else |roots|)
            && forall r, s | r in kept && s in roots - kept :: Newer(times, r, s)
  {
    var roots := ProjectRoots(db, project);
    NewestSize(roots, times, k);
    var kept := KeptRoots(db, times, k) * roots;
    assert kept == Newest(roots, times, k);
    forall r, s | r in kept && s in roots - kept ensures Newer(times, r, s) {
      NewestAreNewer(roots, times, k, r, s);
    }
  }

  /** `after` holds exactly the sessions of `db` outside `gone`, unchanged. */
  ghost predicate Cut(db: Database, gone: set<Id>, after: Database) {
    after.sessions == db.sessions - gone && ParentsOf(after) == ParentsOf(db) - gone
  }

  /** Deleting sessions can only make the others look older. */
  lemma TimesFall(db: Database, gone: set<Id>, after: Database, id: Id)
    requires Cut(db, gone, after) && id in after.sessions
    ensures EffectiveTime(after, id) <= EffectiveTime(db, id)
    ensures (forall d :: Above(ParentsOf(db), id, d) ==> d !in gone) ==> EffectiveTime(after, id) == EffectiveTime(db, id)
  {
    var f := ParentsOf(db);
    OwnTimeCounts(db, id);
    OwnTimeCounts(after, id);
    forall d | Above(f - gone, id, d) ensures Above(f, id, d) && d in f && d !in gone { AboveBeforeRemoval(f, gone, id, d); }
    assert SubtreeTimes(after, id) <= SubtreeTimes(db, id);
    if forall d :: Above(f, id, d) ==> d !in gone {
      forall d | Above(f, id, d) ensures Above(f - gone, id, d) { AboveSpared(f, gone, id, d); }
      assert SubtreeTimes(db, id) <= SubtreeTimes(after, id);
    }
  }

  lemma ProjectStable(db: Database, times: Times, after: Database, times': Times, k: nat, gone: set<Id>, project: Id)
    requires Cut(db, gone, after) && db.sessions.Keys <= times.Keys && after.sessions.Keys <= times'.Keys
    requires forall n <- Severed(ParentsOf(db), gone) :: n !in KeptRoots(after, times', k)
    requires forall r <- KeptRoots(db, times, k) :: r in after.sessions && times'[r] == times[r]
    requires forall q <- after.sessions :: times'[q] <= times[q]
    ensures Newest(ProjectRoots(after, project), times', k) == Newest(ProjectRoots(db, project), times, k)
  {
    var roots, roots' := ProjectRoots(db, project), ProjectRoots(after, project);
    forall id
      ensures id in roots' <==> (id in roots && id !in gone)
                                || (id in after.sessions && after.sessions[id].project == project && id in Severed(ParentsOf(db), gone))
    {
      RootsAfterRemoval(ParentsOf(db), gone, id);
    }
    forall r <- Newest(roots, times, k) ensures r in roots' && times'[r] == times[r] {
      assert r in KeptRoots(db, times, k);
    }
    NewestStable(roots, times, roots - gone, times', k);
    forall r <- Newest(roots', times', k) ensures r in roots - gone { assert r in KeptRoots(after, times', k); }
    NewestWithout(roots', roots - gone, times', k);
  }

  lemma KeptRootsStable(db: Database, times: Times, after: Database, times': Times, k: nat, gone: set<Id>)
    requires Cut(db, gone, after) && db.sessions.Keys <= times.Keys && after.sessions.Keys <= times'.Keys
    requires forall n <- Severed(ParentsOf(db), gone) :: n !in KeptRoots(after, times', k)
    requires forall r <- KeptRoots(db, times, k) :: r in after.sessions && times'[r] == times[r]
    requires forall q <- after.sessions :: times'[q] <= times[q]
    ensures KeptRoots(after, times', k) == KeptRoots(db, times, k)
  {
    forall id ensures id in KeptRoots(after, times', k) <==> id in KeptRoots(db, times, k) {
      RootsAfterRemoval(ParentsOf(db), gone, id);
      if id in db.sessions { ProjectStable(db, times, after, times', k, gone, db.sessions[id].project); }
    }
  }

  lemma DescendantsStable(f: Parents, gone: set<Id>, roots: set<Id>)
    requires gone !! Descendants(f, roots)
    ensures Descendants(f - gone, roots) == Descendants(f, roots)
  {
    forall d ensures d in Descendants(f - gone, roots) <==> d in Descendants(f, roots) {
      if d in Descendants(f - gone, roots) {
        var a :| a in roots && Above(f - gone, a, d);
        AboveBeforeRemoval(f, gone, a, d);
      }
      if d in Descendants(f, roots) {
        var a :| a in roots && Above(f, a, d);
        forall x | Above(f, a, x) ensures x !in gone { AbovePresent(f, a, x); assert x in Descendants(f, roots); }
        AboveSpared(f, gone, a, d);
      }
    }
  }

  lemma KeptTimesStay(db: Database, k: nat, gone: set<Id>, after: Database, r: Id)
    requires Cut(db, gone, after) && gone !! Retained(db, k) && r in KeptRoots(db, EffectiveTimes(db), k)
    ensures r in after.sessions && EffectiveTime(after, r) == EffectiveTime(db, r)
  {
    RetainedIsWhole(db, k);
    forall d | Above(ParentsOf(db), r, d) ensures d !in gone { ClosedBelow(ParentsOf(db), Retained(db, k), r, d); }
    TimesFall(db, gone, after, r);
  }

  /** No survivor whose parent was deleted is now among the newest roots of its project. */
  ghost predicate NoneRises(db: Database, k: nat, gone: set<Id>, after: Database) {
    forall n <- Severed(ParentsOf(db), gone) :: n !in KeptRoots(after, EffectiveTimes(after), k)
  }

  /** The hypotheses of the stability lemmas hold for effective times. */
  lemma KeptTimes(db: Database, k: nat, gone: set<Id>, after: Database)
    requires Cut(db, gone, after) && gone !! Retained(db, k)
    ensures forall r <- KeptRoots(db, EffectiveTimes(db), k) :: r in after.sessions && EffectiveTime(after, r) == EffectiveTime(db, r)
    ensures forall q <- after.sessions :: q in db.sessions && EffectiveTime(after, q) <= EffectiveTime(db, q)
  {
    forall r <- KeptRoots(db, EffectiveTimes(db), k) ensures r in after.sessions && EffectiveTime(after, r) == EffectiveTime(db, r) {
      KeptTimesStay(db, k, gone, after, r);
    }
    forall q <- after.sessions ensures EffectiveTime(after, q) <= EffectiveTime(db, q) { TimesFall(db, gone, after, q); }
  }

  lemma RetentionUnsevered(db: Database, k: nat, gone: set<Id>, after: Database)
    requires Cut(db, gone, after) && gone !! Retained(db, k) && NoneRises(db, k, gone, after)
    ensures Retained(after, k) == Retained(db, k)
  {
    KeptTimes(db, k, gone, after);
    KeptRootsStable(db, EffectiveTimes(db), after, EffectiveTimes(after), k, gone);
    DescendantsStable(ParentsOf(db), gone, KeptRoots(db, EffectiveTimes(db), k));
  }

  lemma RetentionSevered(db: Database, k: nat, gone: set<Id>, after: Database)
    requires gone !! Retained(db, k) && !NoneRises(db, k, gone, after)
    ensures Retained(after, k) != Retained(db, k)
  {
    var n :| n in Severed(ParentsOf(db), gone) && n in KeptRoots(after, EffectiveTimes(after), k);
    assert n !in Retained(db, k) by { RetainedIsWhole(db, k); }
    RetainedIsWhole(after, k);
  }

  /** The root `r` is newer than all that a deletion of `gone` leaves below `n`. */
  ghost predicate Outranks(db: Database, gone: set<Id>, r: Id, n: Id)
    requires r in db.sessions
  {
    forall d <- db.sessions | Above(ParentsOf(db) - gone, n, d) ::
      || EffectiveTime(db, r) > db.sessions[d].timeUpdated
      || (EffectiveTime(db, r) == db.sessions[d].timeUpdated && Less(n, r))
  }

  /** The roots its project retains before the deletion use up the quota, and all of them outrank `n`. */
  ghost predicate Outranked(db: Database, k: nat, gone: set<Id>, n: Id)
    requires n in db.sessions
  {
    var top := Newest(ProjectRoots(db, db.sessions[n].project), EffectiveTimes(db), k);
    |top| == k && forall r <- top :: Outranks(db, gone, r, n)
  }

  lemma OutranksIsNewer(db: Database, gone: set<Id>, after: Database, r: Id, n: Id)
    requires Cut(db, gone, after) && r in db.sessions && n in after.sessions
    ensures Outranks(db, gone, r, n) <==>
              || EffectiveTime(db, r) > EffectiveTime(after, n)
              || (EffectiveTime(db, r) == EffectiveTime(after, n) && Less(n, r))
  {
    var times := SubtreeTimes(after, n);
    assert EffectiveTime(after, n) in times && forall t <- times :: t <= EffectiveTime(after, n);
    forall d | Above(ParentsOf(db) - gone, n, d) ensures d in after.sessions && after.sessions[d] == db.sessions[d] {
      AboveBeforeRemoval(ParentsOf(db), gone, n, d);
    }
    forall d <- db.sessions | Above(ParentsOf(db) - gone, n, d) ensures db.sessions[d].timeUpdated in times {}
  }

  lemma OutrankedStaysOut(db: Database, k: nat, gone: set<Id>, after: Database, n: Id)
    requires Cut(db, gone, after) && gone !! Retained(db, k) && n in after.sessions && n in db.sessions
    ensures Outranked(db, k, gone, n) ==> n !in KeptRoots(after, EffectiveTimes(after), k)
  {
    var project := db.sessions[n].project;
    var top := Newest(ProjectRoots(db, project), EffectiveTimes(db), k);
    var times' := EffectiveTimes(after);
    if n in ProjectRoots(after, project) && Outranked(db, k, gone, n) {
      forall r <- top ensures r in Ahead(ProjectRoots(after, project), times', n) {
        assert r in KeptRoots(db, EffectiveTimes(db), k);
        KeptTimesStay(db, k, gone, after, r);
        RootsAfterRemoval(ParentsOf(db), gone, r);
        OutranksIsNewer(db, gone, after, r, n);
      }
      SubsetSize(top, Ahead(ProjectRoots(after, project), times', n));
    }
  }

  lemma UnrisenIsOutranked(db: Database, k: nat, gone: set<Id>, after: Database, n: Id)
    requires Cut(db, gone, after) && gone !! Retained(db, k) && NoneRises(db, k, gone, after) && n in Severed(ParentsOf(db), gone)
    ensures n in db.sessions && n in after.sessions && Outranked(db, k, gone, n)
  {
    var project := db.sessions[n].project;
    var times, times' := EffectiveTimes(db), EffectiveTimes(after);
    var roots' := ProjectRoots(after, project);
    KeptTimes(db, k, gone, after);
    ProjectStable(db, times, after, times', k, gone, project);
    var top := Newest(roots', times', k);
    RootsAfterRemoval(ParentsOf(db), gone, n);
    assert n in roots' && n !in top by { assert n !in KeptRoots(after, times', k); }
    NewestSize(roots', times', k);
    SubsetSize(top, roots');
    forall r <- top ensures r in db.sessions && Outranks(db, gone, r, n) {
      assert r in KeptRoots(db, times, k);
      NewestAreNewer(roots', times', k, r, n);
      OutranksIsNewer(db, gone, after, r, n);
    }
  }

  /**
   * Recomputing retention after unretained sessions were deleted yields the same set, exactly when
   * every session that lost its parent is outranked by a full quota of the roots retained before.
   */
  lemma RetentionSurvives(db: Database, k: nat, gone: set<Id>, after: Database)
    requires Cut(db, gone, after) && gone !! Retained(db, k)
    ensures Retained(after, k) == Retained(db, k) <==> forall n <- Severed(ParentsOf(db), gone) :: n in db.sessions && Outranked(db, k, gone, n)
  {
    if NoneRises(db, k, gone, after) {
      forall n <- Severed(ParentsOf(db), gone) ensures n in db.sessions && Outranked(db, k, gone, n) {
        UnrisenIsOutranked(db, k, gone, after, n);
      }
      RetentionUnsevered(db, k, gone, after);
    } else {
      RetentionSevered(db, k, gone, after);
      var n :| n in Severed(ParentsOf(db), gone) && n in KeptRoots(after, EffectiveTimes(after), k);
      OutrankedStaysOut(db, k, gone, after, n);
    }
  }

  /** Retention is stable under a run whose deletions are closed under children. */
  lemma RetentionStable(db: Database, k: nat, gone: set<Id>, after: Database)
    requires Cut(db, gone, after) && ChildClosed(ParentsOf(db), gone) && gone !! Retained(db, k)
    ensures Retained(after, k) == Retained(db, k)
  {
    assert Severed(ParentsOf(db), gone) == {};
    RetentionUnsevered(db, k, gone, after);
  }

  /** Of two equally old roots of one project the one with the greater identifier is kept. */
  lemma GreaterIsKept(db: Database, x: Id, y: Id, project: Id, time: int)
    requires forall id <- db.sessions :: db.sessions[id].timeUpdated == time && db.sessions[id].project == project
    requires Less(x, y) && forall id :: IsRoot(ParentsOf(db), id) <==> id == x || id == y
    ensures KeptRoots(db, EffectiveTimes(db), 1) == {y}
  {
    EqualTimes(db, time);
    IdOrder(x, y);
    IdOrder(y, y);
    var roots, times := ProjectRoots(db, project), EffectiveTimes(db);
    assert x in db.sessions && y in db.sessions by { assert IsRoot(ParentsOf(db), x) && IsRoot(ParentsOf(db), y); }
    assert roots == {x, y};
    assert Ahead(roots, times, y) == {} && y in Ahead(roots, times, x);
    assert Newest(roots, times, 1) == {y};
  }

  datatype RetentionRoot = RetentionRoot(session: Id, project: Id, time: int)

  /** The sort order of the scan: by project, then newest first, then greatest identifier first. */
  predicate Precedes(a: RetentionRoot, b: RetentionRoot) {
    || Less(a.project, b.project)
    || (a.project == b.project && (a.time > b.time || (a.time == b.time && Less(b.session, a.session))))
  }

  ghost predicate Sorted(roots: seq<RetentionRoot>) {
    forall i, j | 0 <= i < j < |roots| :: Precedes(roots[i], roots[j])
  }

  lemma PrecedesOrder(a: RetentionRoot, b: RetentionRoot)
    ensures !(Precedes(a, b) && Precedes(b, a))
    ensures a.session != b.session ==> Precedes(a, b) || Precedes(b, a)
  {
    IdOrder(a.project, b.project);
    IdOrder(a.session, b.session);
  }

  lemma PrecedesTransitive(a: RetentionRoot, b: RetentionRoot, c: RetentionRoot)
    requires Precedes(a, b) && Precedes(b, c)
    ensures Precedes(a, c)
  {
    if Less(a.project, b.project) && Less(b.project, c.project) {
      IdTransitive(a.project, b.project, c.project);
    } else if a.project == b.project == c.project && a.time == b.time == c.time {
      IdTransitive(c.session, b.session, a.session);
    }
  }

  method InsertRoot(sorted: seq<RetentionRoot>, root: RetentionRoot) returns (r: seq<RetentionRoot>)
    requires Sorted(sorted) && forall x <- sorted :: x.session != root.session
    ensures Sorted(r) && multiset(r) == multiset(sorted) + multiset{root}
  {
    var i := 0;
    while i < |sorted| && Precedes(sorted[i], root)
      invariant 0 <= i <= |sorted|
      invariant forall j | 0 <= j < i :: Precedes(sorted[j], root)
    {
      i := i + 1;
    }
    forall j | i <= j < |sorted| ensures Precedes(root, sorted[j]) {
      PrecedesOrder(root, sorted[i]);
      if i < j { PrecedesTransitive(root, sorted[i], sorted[j]); }
    }
    r := sorted[..i] + [root] + sorted[i..];
    assert sorted == sorted[..i] + sorted[i..];
  }

  /** Roots of distinct sessions, sorted; the sort only reorders. */
  method SortRoots(roots: seq<RetentionRoot>) returns (sorted: seq<RetentionRoot>)
    requires forall i, j | 0 <= i < j < |roots| :: roots[i].session != roots[j].session
    ensures Sorted(sorted) && multiset(sorted) == multiset(roots)
  {
    sorted := [];
    for i := 0 to |roots|
      invariant Sorted(sorted) && multiset(sorted) == multiset(roots[..i])
    {
      assert roots[..i + 1] == roots[..i] + [roots[i]];
      forall x <- sorted ensures x.session != roots[i].session { assert x in multiset(roots[..i]); }
      sorted := InsertRoot(sorted, roots[i]);
    }
    assert roots[..|roots|] == roots;
  }

  /** The sessions of one project among the first `i` roots. */
  ghost function Before(roots: seq<RetentionRoot>, i: nat, project: Id): set<Id>
    requires i <= |roots|
  {
    set j | 0 <= j < i && roots[j].project == project :: roots[j].session
  }

  lemma BeforeNext(roots: seq<RetentionRoot>, i: nat, project: Id)
    requires i < |roots|
    requires forall i, j | 0 <= i < j < |roots| :: roots[i].session != roots[j].session
    ensures Before(roots, i + 1, project) ==
            Before(roots, i, project) + (if roots[i].project == project then {roots[i].session} else {})
    ensures roots[i].session !in Before(roots, i, project)
  {
  }

  ghost function ScanKept(roots: seq<RetentionRoot>, i: nat, k: nat): set<Id>
    requires i <= |roots|
  {
    set j | 0 <= j < i && |Before(roots, j, roots[j].project)| < k :: roots[j].session
  }

  lemma ScanNext(roots: seq<RetentionRoot>, i: nat, k: nat)
    requires i < |roots|
    ensures ScanKept(roots, i + 1, k) ==
            ScanKept(roots, i, k) + (if |Before(roots, i, roots[i].project)| < k then {roots[i].session} else {})
  {
  }

  function CountOf(counts: map<Id, nat>, project: Id): nat {
    if project in counts then counts[project] else 0
  }

  /** A project's counter holds the number of its roots scanned so far, up to the quota. */
  ghost predicate CountMatches(roots: seq<RetentionRoot>, i: nat, k: nat, counts: map<Id, nat>, project: Id)
    requires i <= |roots|
  {
    CountOf(counts, project) == if |Before(roots, i, project)| < k then |Before(roots, i, project)| else k
  }

  ghost predicate CountsMatch(roots: seq<RetentionRoot>, i: nat, k: nat, counts: map<Id, nat>)
    requires i <= |roots|
  {
    forall p :: CountMatches(roots, i, k, counts, p)
  }

  lemma CountNext(roots: seq<RetentionRoot>, i: nat, k: nat, counts: map<Id, nat>, counts': map<Id, nat>, project: Id)
    requires i < |roots| && CountMatches(roots, i, k, counts, project)
    requires forall i, j | 0 <= i < j < |roots| :: roots[i].session != roots[j].session
    requires var n := CountOf(counts, roots[i].project);
             counts' == counts[roots[i].project := if n >= k then n else n + 1]
    ensures CountMatches(roots, i + 1, k, counts', project)
  {
    BeforeNext(roots, i, project);
  }

  /** One step of the scan: the root's session, if its project's quota is not used up. */
  method ScanStep(roots: seq<RetentionRoot>, i: nat, k: nat, counts: map<Id, nat>)
    returns (counts': map<Id, nat>, kept: set<Id>)
    requires i < |roots|
    requires forall i, j | 0 <= i < j < |roots| :: roots[i].session != roots[j].session
    requires CountsMatch(roots, i, k, counts)
    ensures CountsMatch(roots, i + 1, k, counts')
    ensures kept == if |Before(roots, i, roots[i].project)| < k then {roots[i].session} else {}
  {
    var project := roots[i].project;
    var count := CountOf(counts, project);
    assert CountMatches(roots, i, k, counts, project);
    if count >= k {
      counts', kept := counts[project := count], {};
    } else {
      counts', kept := counts[project := count + 1], {roots[i].session};
    }
    ghost var next := i + 1;
    forall p ensures CountMatches(roots, next, k, counts', p) {
      assert CountMatches(roots, i, k, counts, p);
      CountNext(roots, i, k, counts, counts', p);
    }
  }

  /** The counting scan keeps a root exactly when fewer than `k` of its project precede it. */
  method Scan(roots: seq<RetentionRoot>, k: nat) returns (kept: set<Id>)
    requires forall i, j | 0 <= i < j < |roots| :: roots[i].session != roots[j].session
    ensures kept == ScanKept(roots, |roots|, k)
  {
    var counts: map<Id, nat> := map[];
    kept := {};
    for i := 0 to |roots|
      invariant CountsMatch(roots, i, k, counts)
      invariant kept == ScanKept(roots, i, k)
    {
      ScanNext(roots, i, k);
      var root;
      counts, root := ScanStep(roots, i, k, counts);
      kept := kept + root;
    }
  }

  /** The rows of the root query, with their effective times. */
  ghost predicate IsRootRow(db: Database, times: Times, root: RetentionRoot)
    requires db.sessions.Keys <= times.Keys
  {
    && root.session in db.sessions && IsRoot(ParentsOf(db), root.session)
    && root.project == db.sessions[root.session].project
    && root.time == times[root.session]
  }

  /** A list of all root rows of the database, in sort order. */
  ghost predicate SortedRootRows(db: Database, times: Times, roots: seq<RetentionRoot>)
    requires db.sessions.Keys <= times.Keys
  {
    && Sorted(roots)
    && (forall i | 0 <= i < |roots| :: IsRootRow(db, times, roots[i]))
    && (forall x :: IsRootRow(db, times, x) ==> x in roots)
  }

  /** In the sorted root list, the roots of the same project before a root are those ahead of it. */
  lemma BeforeIsAhead(db: Database, times: Times, roots: seq<RetentionRoot>, i: nat)
    requires db.sessions.Keys <= times.Keys
    requires i < |roots| && SortedRootRows(db, times, roots)
    ensures Before(roots, i, roots[i].project) == Ahead(ProjectRoots(db, roots[i].project), times, roots[i].session)
  {
    var root := roots[i];
    var all := ProjectRoots(db, root.project);
    IdOrder(root.project, root.project);
    forall q ensures q in Before(roots, i, root.project) <==> q in Ahead(all, times, root.session) {
      if q in Before(roots, i, root.project) {
        var j :| 0 <= j < i && roots[j].project == root.project && roots[j].session == q;
        assert Precedes(roots[j], root);
      }
      if q in Ahead(all, times, root.session) {
        var row := RetentionRoot(q, root.project, times[q]);
        assert IsRootRow(db, times, row);
        var j :| 0 <= j < |roots| && roots[j] == row;
        NewerOrder(times, q, root.session);
        PrecedesOrder(row, root);
      }
    }
  }

  /** The scan over the sorted roots selects the `k` newest of every project. */
  lemma ScanIsKept(db: Database, times: Times, roots: seq<RetentionRoot>, k: nat)
    requires db.sessions.Keys <= times.Keys && SortedRootRows(db, times, roots)
    ensures ScanKept(roots, |roots|, k) == KeptRoots(db, times, k)
  {
    forall i: nat | i < |roots|
      ensures roots[i].session in KeptRoots(db, times, k) <==> |Before(roots, i, roots[i].project)| < k
    {
      BeforeIsAhead(db, times, roots, i);
      assert IsRootRow(db, times, roots[i]);
    }
    forall id | id in KeptRoots(db, times, k) ensures id in ScanKept(roots, |roots|, k) {
      assert IsRootRow(db, times, RetentionRoot(id, db.sessions[id].project, times[id]));
    }
  }

  /** The root rows in query order, with their effective times looked up. */
  method RootRows(db: Database, times: Times) returns (roots: seq<RetentionRoot>)
    requires db.sessions.Keys <= times.Keys
    ensures forall i, j | 0 <= i < j < |roots| :: roots[i].session != roots[j].session
    ensures forall i | 0 <= i < |roots| :: IsRootRow(db, times, roots[i])
    ensures forall x :: IsRootRow(db, times, x) ==> x in roots
  {
    var order := Ascending(set id | id in db.sessions && IsRoot(ParentsOf(db), id));
    roots := [];
    for i := 0 to |order|
      invariant |roots| == i
      invariant forall j | 0 <= j < i :: IsRootRow(db, times, roots[j]) && roots[j].session == order[j]
    {
      assert order[i] in order;
      roots := roots + [RetentionRoot(order[i], db.sessions[order[i]].project, times[order[i]])];
    }
    forall i, j | 0 <= i < j < |roots| ensures roots[i].session != roots[j].session { IdOrder(order[i], order[j]); }
    forall x | IsRootRow(db, times, x) ensures x in roots {
      assert x.session in order;
      var i :| 0 <= i < |order| && order[i] == x.session;
      assert roots[i] == x;
    }
  }

  lemma SortedRows(db: Database, times: Times, rows: seq<RetentionRoot>, sorted: seq<RetentionRoot>)
    requires db.sessions.Keys <= times.Keys && Sorted(sorted) && multiset(sorted) == multiset(rows)
    requires forall i | 0 <= i < |rows| :: IsRootRow(db, times, rows[i])
    requires forall x :: IsRootRow(db, times, x) ==> x in rows
    ensures SortedRootRows(db, times, sorted)
    ensures forall i, j | 0 <= i < j < |sorted| :: sorted[i].session != sorted[j].session
  {
    forall x ensures x in sorted <==> x in rows {
      assert x in sorted <==> x in multiset(sorted);
      assert x in rows <==> x in multiset(rows);
    }
    forall i | 0 <= i < |sorted| ensures IsRootRow(db, times, sorted[i]) { assert sorted[i] in rows; }
    forall i, j | 0 <= i < j < |sorted| ensures sorted[i].session != sorted[j].session {
      PrecedesOrder(sorted[i], sorted[j]);
    }
  }

  /** The hard-retention set; the cycle check runs even when nothing is kept. */
  method Compute(db: Database, keepRecent: nat) returns (r: Result<set<Id>>)
    ensures r.Success? <==> Acyclic(ParentsOf(db))
    ensures r.Success? ==> r.value == Retained(db, keepRecent)
    ensures r.Failure? ==> r.error.ParentCycle? && OnCycle(ParentsOf(db), r.error.root)
  {
    var ages := EffectiveTimeUpdated(db);
    if ages.Failure? {
      return Failure(ages.error);
    }
    var times := ages.value;
    if keepRecent == 0 {
      assert KeptRoots(db, times, 0) == {};
      return Success({});
    }
    var rows := RootRows(db, times);
    var sorted := SortRoots(rows);
    SortedRows(db, times, rows, sorted);
    var kept := Scan(sorted, keepRecent);
    ScanIsKept(db, times, sorted, keepRecent);
    r := Expand(ParentsOf(db), kept);
  }
}
