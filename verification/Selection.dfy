/** What a cleanup deletes: filtered candidates, expanded to their descendants. */
module Selection {
  import opened Basics
  import opened Forest
  import opened Schema
  import opened Subtrees
  import opened Predicates

  /** Drops the retained sessions from every set in place. */
  method RetainAll(sets: seq<set<Id>>, retained: set<Id>) returns (kept: seq<set<Id>>)
    ensures |kept| == |sets| && forall i | 0 <= i < |sets| :: kept[i] == sets[i] - retained
  {
    kept := sets;
    for n := 0 to |sets|
      invariant |kept| == |sets|
      invariant forall i | 0 <= i < n :: kept[i] == sets[i] - retained
      invariant forall i | n <= i < |sets| :: kept[i] == sets[i]
    {
      kept := kept[n := kept[n] - retained];
    }
  }

  lemma RetainedOut(sets: seq<set<Id>>, kept: seq<set<Id>>, retained: set<Id>, id: Id)
    requires sets != [] && |kept| == |sets| && forall i | 0 <= i < |sets| :: kept[i] == sets[i] - retained
    ensures InAll(kept, id) <==> InAll(sets, id) && id !in retained
  {
    assert kept[0] == sets[0] - retained;
    if InAll(kept, id) { assert id in kept[0]; }
    forall i | 0 <= i < |sets| ensures id in kept[i] <==> id in sets[i] && id !in retained { assert kept[i] == sets[i] - retained; }
  }

  /** The unretained sessions that meet every predicate asked for. */
  method PredicateCandidates(db: Database, sel: Selectors, retained: set<Id>) returns (r: Result<set<Id>>)
    ensures r.Success? <==> Accepted(db, sel)
    ensures r.Success? ==> r.value == Candidates(db, sel) - retained
    ensures r.Success? ==> forall id :: id in r.value <==> Wanted(db, sel, id) && id !in retained
    ensures r.Success? && sel == Selectors(None, None, None, true, sel.fold, sel.nowMs) ==>
              r.value == set id | id in db.sessions && db.sessions[id].archived && id !in retained
    ensures r.Success? && sel.archived ==> forall id <- r.value :: id in db.sessions && db.sessions[id].archived
  {
    CandidatesExactly(db, sel);
    var sets := Push(db, sel, ByAge, [], {});
    if sets.Success? { sets := Push(db, sel, ByPath, sets.value, {ByAge}); }
    if sets.Success? { sets := Push(db, sel, BySize, sets.value, {ByAge, ByPath}); }
    if sets.Success? { sets := Push(db, sel, ByArchival, sets.value, {ByAge, ByPath, BySize}); }
    if sets.Failure? {
      return Failure(sets.error);
    }
    PushedAll(db, sel, sets.value);
    var kept := RetainAll(sets.value, retained);
    var common := IntersectCandidateSets(kept);
    if common.None? {
      return Success({});
    }
    forall id ensures id in common.value <==> id in Candidates(db, sel) && id !in retained {
      RetainedOut(sets.value, kept, retained, id);
    }
    r := Success(common.value);
  }

  /** The unretained sessions below unretained candidates. */
  method ExpandCandidates(f: Parents, candidates: set<Id>, retained: set<Id>) returns (r: Result<set<Id>>)
    ensures r.Success? <==> forall id <- candidates :: !OnCycle(f, id)
    ensures r.Success? ==> r.value == Descendants(f, candidates) - retained
  {
    var expanded := Expand(f, candidates);
    match expanded
    case Failure(error) => r := Failure(error);
    case Success(ids) => r := Success(ids - retained);
  }

  /**
   * Deleting descendants around complete retained trees takes every child along, so it leaves no
   * session with a deleted parent.
   */
  lemma DeletedIsChildClosed(f: Parents, candidates: set<Id>, retained: set<Id>)
    requires WholeTrees(f, retained)
    ensures ChildClosed(f, Descendants(f, candidates) - retained)
  {
    DescendantsClosed(f, candidates);
  }
}
