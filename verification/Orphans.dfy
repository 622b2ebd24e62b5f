/** Selection of orphans: event aggregates without a session, and dangling sessions. */
module Orphans {
  import opened Basics
  import opened Forest
  import opened Schema

  predicate AsciiAlphanumeric(c: char) {
    '0' <= c <= '9' || 'A' <= c <= 'Z' || 'a' <= c <= 'z'
  }

  /** `ses_` followed by one or more ASCII letters and digits. */
  predicate IsSessionId(id: Id) {
    "ses_" < id.text && forall i | 4 <= i < |id.text| :: AsciiAlphanumeric(id.text[i])
  }

  /** A session id is the prefix with at least one more character, and only letters and digits after it. */
  lemma SessionIdExactly(id: Id)
    ensures IsSessionId(id) <==> exists suffix: string ::
              suffix != "" && id.text == "ses_" + suffix && forall c <- suffix :: '0' <= c <= '9' || 'A' <= c <= 'Z' || 'a' <= c <= 'z'
  {
    if IsSessionId(id) {
      var suffix := id.text[4..];
      assert id.text == "ses_" + suffix;
      forall c <- suffix ensures '0' <= c <= '9' || 'A' <= c <= 'Z' || 'a' <= c <= 'z' {
        var i :| 0 <= i < |suffix| && suffix[i] == c;
        assert id.text[i + 4] == c;
      }
    }
    if suffix: string :| suffix != "" && id.text == "ses_" + suffix && forall c <- suffix :: '0' <= c <= '9' || 'A' <= c <= 'Z' || 'a' <= c <= 'z' {
      forall i | 4 <= i < |id.text| ensures AsciiAlphanumeric(id.text[i]) {
        assert id.text[i] == suffix[i - 4] && suffix[i - 4] in suffix;
      }
    }
  }

  /** Session-shaped event aggregates whose session is absent. */
  function OrphanAggregates(db: Database): set<Id> {
    set id | id in db.sequences && id !in db.sessions && IsSessionId(id)
  }

  /** Sessions that name a parent which is absent. */
  function DanglingRoots(f: Parents): set<Id> {
    set id | id in f && f[id].Some? && f[id].value !in f
  }

  function Children(f: Parents, ids: set<Id>): set<Id> {
    set c | c in f && f[c].Some? && f[c].value in ids
  }

  /** The recursive `UNION` query: add children until nothing new appears. */
  function Grow(f: Parents, found: set<Id>): set<Id>
    requires found <= f.Keys
    decreases f.Keys - found
  {
    var next := found + Children(f, found);
    if next == found then found else Grow(f, next)
  }

  function DanglingSessions(f: Parents): set<Id> {
    Grow(f, DanglingRoots(f))
  }

  lemma {:induction false} GrowIsDescendants(f: Parents, seeds: set<Id>, found: set<Id>)
    requires seeds <= found <= f.Keys && found <= Descendants(f, seeds)
    ensures Grow(f, found) == Descendants(f, seeds)
    decreases f.Keys - found
  {
    var next := found + Children(f, found);
    DescendantsClosed(f, seeds);
    if next == found {
      DescendantsLeast(f, seeds, found);
    } else {
      forall c <- Children(f, found) ensures c in Descendants(f, seeds) {}
      GrowIsDescendants(f, seeds, next);
    }
  }

  /** The query finds the dangling roots and everything below them, on any parent map. */
  lemma DanglingExact(f: Parents)
    ensures DanglingSessions(f) == Descendants(f, DanglingRoots(f))
  {
    DescendantsClosed(f, DanglingRoots(f));
    GrowIsDescendants(f, DanglingRoots(f), DanglingRoots(f));
  }

  /** Dangling sessions form complete trees. */
  lemma DanglingIsWhole(f: Parents)
    ensures WholeTrees(f, DanglingSessions(f))
    ensures DanglingRoots(f) <= DanglingSessions(f)
  {
    DanglingExact(f);
    RootTreesAreWhole(f, DanglingRoots(f));
    DescendantsClosed(f, DanglingRoots(f));
  }

  /** Deleting sessions with all their descendants never creates a dangling session. */
  lemma DanglingAfterRemoval(f: Parents, gone: set<Id>)
    requires ChildClosed(f, gone)
    ensures DanglingSessions(f - gone) == DanglingSessions(f) - gone
  {
    DanglingExact(f);
    DanglingExact(f - gone);
    DanglingIsWhole(f);
    assert DanglingRoots(f - gone) == DanglingRoots(f) - gone;
    forall d ensures d in DanglingSessions(f - gone) <==> d in DanglingSessions(f) - gone {
      if d in DanglingSessions(f - gone) {
        var a :| a in DanglingRoots(f - gone) && Above(f - gone, a, d);
        AboveAfterRemoval(f, gone, a, d);
      }
      if d in DanglingSessions(f) - gone {
        var a :| a in DanglingRoots(f) && Above(f, a, d);
        if a in gone { ClosedBelow(f, gone, a, d); }
        AboveAfterRemoval(f, gone, a, d);
      }
    }
  }

  /** A session deletion takes the event aggregates of its sessions along and orphans none. */
  lemma AggregatesAfterBatch(db: Database, ids: set<Id>)
    ensures OrphanAggregates(DeleteBatch(db, ids)) == OrphanAggregates(db) - ids
  {
    SessionsAfterBatch(db, ids);
  }

  /** The number of present ancestors above a session. */
  ghost function Depth(f: Parents, d: Id): nat
    requires Acyclic(f) && d in f
    decreases Ancestors(f, d)
  {
    if ParentPresent(f, d) then
      AncestorsShrink(f, d);
      1 + Depth(f, f[d].value)
    else 0
  }

  /** The members of `ids` with fewer than `k` ancestors, and those with exactly `k`. */
  ghost function Shallow(f: Parents, ids: set<Id>, k: nat): set<Id>
    requires Acyclic(f) && ids <= f.Keys
  {
    set d | d in ids && Depth(f, d) < k
  }

  ghost function Layer(f: Parents, ids: set<Id>, k: nat): set<Id>
    requires Acyclic(f) && ids <= f.Keys
  {
    set d | d in ids && Depth(f, d) == k
  }

  /** The candidates that are present and whose parent is absent, found by each sweep pass. */
  function CurrentDangling(f: Parents, candidates: set<Id>): set<Id> {
    set c | c in candidates && c in f && f[c].Some? && f[c].value !in f
  }

  /** Once the candidates above depth `k` are gone, the current ones are exactly those at depth `k`. */
  lemma CurrentIsLayer(f: Parents, candidates: set<Id>, k: nat)
    requires Acyclic(f) && WholeTrees(f, candidates) && candidates <= DanglingSessions(f)
    ensures var gone := Shallow(f, candidates, k);
            CurrentDangling(f - gone, candidates - gone) == Layer(f, candidates, k)
  {
    var gone := Shallow(f, candidates, k);
    DanglingExact(f);
    forall c | c in candidates && !ParentPresent(f, c) ensures c in DanglingRoots(f) {
      var a :| a in DanglingRoots(f) && Above(f, a, c);
      if a != c { AboveParent(f, a, c); }
    }
    forall c <- candidates ensures c in CurrentDangling(f - gone, candidates - gone) <==> Depth(f, c) == k {
      if ParentPresent(f, c) { assert Depth(f, c) == 1 + Depth(f, f[c].value); }
    }
  }
}
