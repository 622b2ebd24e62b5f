/** The forest side of "the preview is what is applied". */
module Agreement {
  import opened Basics
  import opened Forest
  import opened Orphans
  import opened Selection
  import opened Impact
  import opened SweepProofs

  lemma WholeDifference(f: Parents, a: set<Id>, b: set<Id>)
    requires WholeTrees(f, a) && WholeTrees(f, b)
    ensures WholeTrees(f, a - b)
  {
  }

  lemma WholeAfterRemoval(f: Parents, gone: set<Id>, ids: set<Id>)
    requires ids !! gone && WholeTrees(f, ids)
    ensures WholeTrees(f - gone, ids)
  {
  }

  /** What the sweep may delete after the selection is gone: whole trees of dangling sessions. */
  lemma SweepStart(f: Parents, gone: set<Id>, retained: set<Id>)
    requires Acyclic(f) && ChildClosed(f, gone) && WholeTrees(f, retained) && retained !! gone
    ensures Sweepable(f - gone, DanglingSessions(f - gone) - retained)
  {
    AcyclicAfterRemoval(f, gone);
    DanglingIsWhole(f - gone);
    WholeAfterRemoval(f, gone, retained);
    WholeDifference(f - gone, DanglingSessions(f - gone), retained);
  }

  lemma {:induction false} DepthAfterRemoval(f: Parents, gone: set<Id>, d: Id)
    requires Acyclic(f) && ChildClosed(f, gone) && d in f && d !in gone && Acyclic(f - gone)
    ensures Depth(f - gone, d) == Depth(f, d)
    decreases Ancestors(f, d)
  {
    if ParentPresent(f, d) {
      AncestorsShrink(f, d);
      DepthAfterRemoval(f, gone, f[d].value);
    }
  }

  /** The dangling sessions that are neither selected nor retained. */
  ghost function Strays(f: Parents, selected: set<Id>, retained: set<Id>): set<Id> {
    DanglingSessions(f) - selected - retained
  }

  /** What an undisturbed run deletes: the selection, then the strays in `maxPasses` passes. */
  ghost function Applied(f: Parents, candidates: set<Id>, retained: set<Id>, sweep: bool, maxPasses: nat): set<Id>
    requires Acyclic(f)
  {
    var selected := Descendants(f, candidates - retained) - retained;
    DanglingIsWhole(f);
    selected + (if sweep then Shallow(f, Strays(f, selected, retained), maxPasses) else {})
  }

  /** The second selection of dangling sessions, on what is left of the forest, finds the strays of the first. */
  lemma StraysRemain(f: Parents, selected: set<Id>, retained: set<Id>, maxPasses: nat)
    requires Acyclic(f) && ChildClosed(f, selected) && WholeTrees(f, retained) && retained !! selected
    ensures DanglingSessions(f - selected) - retained == Strays(f, selected, retained)
    ensures Acyclic(f - selected) && Strays(f, selected, retained) <= (f - selected).Keys && Strays(f, selected, retained) <= f.Keys
    ensures Shallow(f - selected, Strays(f, selected, retained), maxPasses) == Shallow(f, Strays(f, selected, retained), maxPasses)
  {
    AcyclicAfterRemoval(f, selected);
    DanglingAfterRemoval(f, selected);
    DanglingIsWhole(f);
    forall d <- Strays(f, selected, retained) ensures Depth(f - selected, d) == Depth(f, d) {
      DepthAfterRemoval(f, selected, d);
    }
  }

  lemma PlannedSplits(f: Parents, candidates: set<Id>, retained: set<Id>)
    ensures var selected := Descendants(f, candidates - retained) - retained;
            Planned(f, candidates, retained, true) == selected + Strays(f, selected, retained)
  {
  }

  /** The strays above which fewer than `maxPasses` sessions are left. */
  ghost predicate WithinBound(f: Parents, candidates: set<Id>, retained: set<Id>, maxPasses: nat)
    requires Acyclic(f)
  {
    var selected := Descendants(f, candidates - retained) - retained;
    DanglingIsWhole(f);
    forall d <- Strays(f, selected, retained) :: Depth(f, d) < maxPasses
  }

  /**
   * The applied sessions are the planned ones exactly when no sweep was asked for or no stray has
   * `maxPasses` ancestors or more.
   */
  lemma AppliedIsPlanned(f: Parents, candidates: set<Id>, retained: set<Id>, sweep: bool, maxPasses: nat)
    requires Acyclic(f)
    ensures Applied(f, candidates, retained, sweep, maxPasses) <= Planned(f, candidates, retained, sweep)
    ensures Applied(f, candidates, retained, sweep, maxPasses) == Planned(f, candidates, retained, sweep)
            <==> (sweep ==> WithinBound(f, candidates, retained, maxPasses))
  {
    var selected := Descendants(f, candidates - retained) - retained;
    DanglingIsWhole(f);
    var strays := Strays(f, selected, retained);
    if sweep {
      assert Planned(f, candidates, retained, sweep) == selected + strays;
      forall d <- strays ensures d in Applied(f, candidates, retained, sweep, maxPasses) <==> Depth(f, d) < maxPasses {}
    }
  }

  /** Once the plan is carried out, only retained sessions dangle. */
  lemma StraysGone(f: Parents, candidates: set<Id>, retained: set<Id>, gone: set<Id>)
    requires WholeTrees(f, retained) && gone * f.Keys == Planned(f, candidates, retained, true)
    ensures DanglingSessions(f - gone) == DanglingSessions(f) * retained
  {
    PlannedIsChildClosed(f, candidates, retained);
    DanglingIsWhole(f);
    assert f - gone == f - Planned(f, candidates, retained, true);
    DanglingAfterRemoval(f, Planned(f, candidates, retained, true));
  }

  lemma PlannedIsChildClosed(f: Parents, candidates: set<Id>, retained: set<Id>)
    requires WholeTrees(f, retained)
    ensures ChildClosed(f, Planned(f, candidates, retained, true))
  {
    DeletedIsChildClosed(f, candidates - retained, retained);
    DanglingIsWhole(f);
    WholeDifference(f, DanglingSessions(f), retained);
  }

  /** A deletion of the planned kind leaves no session dangling that was not dangling before. */
  lemma NothingNewDangles(f: Parents, candidates: set<Id>, retained: set<Id>)
    requires WholeTrees(f, retained)
    ensures var selected := Descendants(f, candidates - retained) - retained;
            DanglingSessions(f - selected) == DanglingSessions(f) - selected
  {
    DeletedIsChildClosed(f, candidates - retained, retained);
    DanglingAfterRemoval(f, Descendants(f, candidates - retained) - retained);
  }
}
