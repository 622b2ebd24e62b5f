/**
 * The session forest. `session.parent_id` carries no foreign key, so a parent may be absent
 * and parent links may form cycles.
 */
module Forest {
  import opened Basics

  /** Every present session with its `parent_id`. */
  type Parents = map<Id, Option<Id>>

  /** The session reached from `id` by following `n` parent links through present sessions. */
  ghost function Up(f: Parents, id: Id, n: nat): Option<Id>
    decreases n
  {
    if id !in f then None
    else if n == 0 then Some(id)
    else match f[id]
      case None => None
      case Some(parent) => Up(f, parent, n - 1)
  }

  /** `a` is `d` itself or one of its ancestors. */
  ghost predicate Above(f: Parents, a: Id, d: Id) {
    exists n: nat :: Up(f, d, n) == Some(a)
  }

  /** `id` is its own ancestor. */
  ghost predicate OnCycle(f: Parents, id: Id) {
    exists n: nat :: n > 0 && Up(f, id, n) == Some(id)
  }

  ghost predicate Acyclic(f: Parents) {
    forall id <- f :: !OnCycle(f, id)
  }

  ghost function Ancestors(f: Parents, id: Id): set<Id> {
    set a | a in f && Above(f, a, id)
  }

  /** The selected sessions that are present, with every transitive descendant. */
  ghost function Descendants(f: Parents, selected: set<Id>): set<Id> {
    set d | d in f && exists a <- selected :: Above(f, a, d)
  }

  predicate ParentPresent(f: Parents, id: Id)
    requires id in f
  {
    f[id].Some? && f[id].value in f
  }

  /** A session without a present parent. */
  predicate IsRoot(f: Parents, id: Id) {
    id in f && !ParentPresent(f, id)
  }

  /** Every child of a member is a member. */
  ghost predicate ChildClosed(f: Parents, ids: set<Id>) {
    forall c <- f :: ParentPresent(f, c) && f[c].value in ids ==> c in ids
  }

  /** Every present parent of a member is a member. */
  ghost predicate ParentClosed(f: Parents, ids: set<Id>) {
    forall c <- f :: c in ids && ParentPresent(f, c) ==> f[c].value in ids
  }

  /** A union of complete trees. */
  ghost predicate WholeTrees(f: Parents, ids: set<Id>) {
    ids <= f.Keys && ChildClosed(f, ids) && ParentClosed(f, ids)
  }

  lemma {:induction false} UpAdd(f: Parents, id: Id, m: nat, n: nat)
    ensures Up(f, id, m).Some? ==> Up(f, id, m + n) == Up(f, Up(f, id, m).value, n)
    ensures Up(f, id, m).None? ==> Up(f, id, m + n).None?
    decreases m
  {
    if id in f && m > 0 && f[id].Some? {
      UpAdd(f, f[id].value, m - 1, n);
    }
  }

  lemma {:induction false} UpPresent(f: Parents, id: Id, n: nat)
    ensures Up(f, id, n).Some? ==> id in f && Up(f, id, n).value in f
    decreases n
  {
    if n > 0 && id in f && f[id].Some? {
      UpPresent(f, f[id].value, n - 1);
    }
  }

  lemma AbovePresent(f: Parents, a: Id, d: Id)
    requires Above(f, a, d)
    ensures a in f && d in f
  {
    var n: nat :| Up(f, d, n) == Some(a);
    UpPresent(f, d, n);
  }

  lemma AboveSelf(f: Parents, id: Id)
    requires id in f
    ensures Above(f, id, id)
  {
    assert Up(f, id, 0) == Some(id);
  }

  lemma AboveTransitive(f: Parents, a: Id, b: Id, c: Id)
    requires Above(f, a, b) && Above(f, b, c)
    ensures Above(f, a, c)
  {
    var m: nat :| Up(f, b, m) == Some(a);
    var n: nat :| Up(f, c, n) == Some(b);
    UpAdd(f, c, n, m);
    assert Up(f, c, n + m) == Some(a);
  }

  /** A proper ancestor of `d` is above its parent, which is present. */
  lemma AboveParent(f: Parents, a: Id, d: Id)
    requires Above(f, a, d) && a != d
    ensures d in f && ParentPresent(f, d) && Above(f, a, f[d].value)
  {
    var n: nat :| Up(f, d, n) == Some(a);
    UpPresent(f, d, n);
    UpAdd(f, d, 1, n - 1);
    assert Up(f, f[d].value, 0) == Up(f, d, 1);
    assert Up(f, f[d].value, n - 1) == Some(a);
  }

  lemma ParentAbove(f: Parents, d: Id)
    requires d in f && ParentPresent(f, d)
    ensures Above(f, f[d].value, d)
  {
    assert Up(f, f[d].value, 0) == Some(f[d].value);
    assert Up(f, d, 1) == Some(f[d].value);
  }

  /** The ancestors of a session form a chain. */
  lemma AboveLinear(f: Parents, a: Id, b: Id, d: Id)
    requires Above(f, a, d) && Above(f, b, d)
    ensures Above(f, a, b) || Above(f, b, a)
  {
    var m: nat :| Up(f, d, m) == Some(a);
    var n: nat :| Up(f, d, n) == Some(b);
    if m <= n {
      UpAdd(f, d, m, n - m);
    } else {
      UpAdd(f, d, n, m - n);
    }
  }

  lemma AboveAntisymmetric(f: Parents, a: Id, b: Id)
    requires Acyclic(f) && Above(f, a, b) && Above(f, b, a)
    ensures a == b
  {
    var m: nat :| Up(f, b, m) == Some(a);
    var n: nat :| Up(f, a, n) == Some(b);
    UpAdd(f, b, m, n);
    AbovePresent(f, a, b);
    assert Up(f, b, m + n) == Some(b) && !OnCycle(f, b);
    assert Up(f, b, 0) == Some(b);
  }

  /** Without cycles the parent of a session has strictly fewer ancestors. */
  lemma AncestorsShrink(f: Parents, d: Id)
    requires Acyclic(f) && d in f && ParentPresent(f, d)
    ensures Ancestors(f, f[d].value) < Ancestors(f, d)
  {
    var p := f[d].value;
    ParentAbove(f, d);
    AboveSelf(f, d);
    forall a <- Ancestors(f, p) ensures a in Ancestors(f, d) { AboveTransitive(f, a, p, d); }
    if d in Ancestors(f, p) { AboveAntisymmetric(f, d, p); }
    assert Up(f, p, 0) == Up(f, d, 1) && !OnCycle(f, d);
    assert d in Ancestors(f, d);
  }

  /** The root of the tree that holds `d`. */
  ghost function Top(f: Parents, d: Id): (r: Id)
    requires Acyclic(f) && d in f
    ensures IsRoot(f, r) && Above(f, r, d)
    decreases Ancestors(f, d)
  {
    if ParentPresent(f, d) then
      AncestorsShrink(f, d);
      var r := Top(f, f[d].value);
      ParentAbove(f, d);
      AboveTransitive(f, r, f[d].value, d);
      r
    else
      AboveSelf(f, d);
      d
  }

  /** A root is above no other root's tree, so the root of a tree is unique. */
  lemma TopUnique(f: Parents, r: Id, d: Id)
    requires Acyclic(f) && IsRoot(f, r) && Above(f, r, d)
    ensures d in f && r == Top(f, d)
  {
    AbovePresent(f, r, d);
    var t := Top(f, d);
    AboveLinear(f, r, t, d);
    if r != t {
      if Above(f, r, t) { AboveParent(f, r, t); } else { AboveParent(f, t, r); }
    }
  }

  lemma {:induction false} ChildClosedDown(f: Parents, ids: set<Id>, a: Id, d: Id, n: nat)
    requires ChildClosed(f, ids) && a in ids && Up(f, d, n) == Some(a)
    ensures d in ids
    decreases n
  {
    if n > 0 {
      UpPresent(f, d, n);
      UpAdd(f, d, 1, n - 1);
      assert Up(f, f[d].value, 0) == Up(f, d, 1);
      ChildClosedDown(f, ids, a, f[d].value, n - 1);
    }
  }

  /** Closure under children is closure under all descendants. */
  lemma ClosedBelow(f: Parents, ids: set<Id>, a: Id, d: Id)
    requires ChildClosed(f, ids) && a in ids && Above(f, a, d)
    ensures d in ids
  {
    var n: nat :| Up(f, d, n) == Some(a);
    ChildClosedDown(f, ids, a, d, n);
  }

  lemma DescendantsClosed(f: Parents, selected: set<Id>)
    ensures ChildClosed(f, Descendants(f, selected))
    ensures selected * f.Keys <= Descendants(f, selected) <= f.Keys
  {
    var ids := Descendants(f, selected);
    forall c <- f | ParentPresent(f, c) && f[c].value in ids ensures c in ids {
      var a :| a in selected && Above(f, a, f[c].value);
      ParentAbove(f, c);
      AboveTransitive(f, a, f[c].value, c);
    }
    forall id <- selected * f.Keys ensures id in ids { AboveSelf(f, id); }
  }

  /** Descendants are the smallest set closed under children that holds the selection. */
  lemma DescendantsLeast(f: Parents, selected: set<Id>, ids: set<Id>)
    requires ChildClosed(f, ids) && selected * f.Keys <= ids
    ensures Descendants(f, selected) <= ids
  {
    forall d <- Descendants(f, selected) ensures d in ids {
      var a :| a in selected && Above(f, a, d);
      AbovePresent(f, a, d);
      ClosedBelow(f, ids, a, d);
    }
  }

  /** Expanding roots yields complete trees. */
  lemma RootTreesAreWhole(f: Parents, roots: set<Id>)
    requires forall r <- roots :: IsRoot(f, r)
    ensures WholeTrees(f, Descendants(f, roots))
  {
    DescendantsClosed(f, roots);
    var ids := Descendants(f, roots);
    forall c <- f | c in ids && ParentPresent(f, c) ensures f[c].value in ids {
      var r :| r in roots && Above(f, r, c);
      AboveParent(f, r, c);
      AbovePresent(f, r, f[c].value);
    }
  }

  /** Removing a set closed under children leaves every parent chain outside it intact. */
  lemma {:induction false} UpAfterRemoval(f: Parents, gone: set<Id>, d: Id, n: nat)
    requires ChildClosed(f, gone) && d !in gone
    ensures Up(f - gone, d, n) == Up(f, d, n)
    decreases n
  {
    if n > 0 && d in f && ParentPresent(f, d) {
      UpAfterRemoval(f, gone, f[d].value, n - 1);
    } else if n > 0 && d in f && f[d].Some? {
      assert Up(f, f[d].value, n - 1).None? && Up(f - gone, f[d].value, n - 1).None?;
    }
  }

  lemma AboveAfterRemoval(f: Parents, gone: set<Id>, a: Id, d: Id)
    requires ChildClosed(f, gone) && d !in gone
    ensures Above(f - gone, a, d) <==> Above(f, a, d)
  {
    forall n: nat ensures Up(f - gone, d, n) == Up(f, d, n) { UpAfterRemoval(f, gone, d, n); }
  }

  /** Removing sessions of any kind creates no parent chain. */
  lemma {:induction false} UpBeforeRemoval(f: Parents, gone: set<Id>, d: Id, n: nat)
    ensures Up(f - gone, d, n).Some? ==> Up(f, d, n) == Up(f - gone, d, n)
    decreases n
  {
    if n > 0 && d in f - gone && f[d].Some? {
      UpBeforeRemoval(f, gone, f[d].value, n - 1);
    }
  }

  lemma AboveBeforeRemoval(f: Parents, gone: set<Id>, a: Id, d: Id)
    requires Above(f - gone, a, d)
    ensures Above(f, a, d) && d in f && d !in gone
  {
    AbovePresent(f - gone, a, d);
    var n: nat :| Up(f - gone, d, n) == Some(a);
    UpBeforeRemoval(f, gone, d, n);
  }

  lemma {:induction false} UpSpared(f: Parents, gone: set<Id>, a: Id, d: Id, n: nat)
    requires Up(f, d, n) == Some(a) && forall x :: Above(f, a, x) ==> x !in gone
    ensures Up(f - gone, d, n) == Some(a)
    decreases n
  {
    assert Above(f, a, d);
    if n > 0 { UpSpared(f, gone, a, f[d].value, n - 1); }
  }

  /** A subtree none of whose members is removed keeps its links. */
  lemma AboveSpared(f: Parents, gone: set<Id>, a: Id, d: Id)
    requires Above(f, a, d) && forall x :: Above(f, a, x) ==> x !in gone
    ensures Above(f - gone, a, d)
  {
    var n: nat :| Up(f, d, n) == Some(a);
    UpSpared(f, gone, a, d, n);
  }

  /** The survivors whose parent is removed. */
  ghost function Severed(f: Parents, gone: set<Id>): set<Id> {
    set c | c in f && c !in gone && ParentPresent(f, c) && f[c].value in gone
  }

  lemma AcyclicAfterRemoval(f: Parents, gone: set<Id>)
    requires Acyclic(f) && ChildClosed(f, gone)
    ensures Acyclic(f - gone)
  {
    forall id <- f - gone ensures !OnCycle(f - gone, id) {
      forall n: nat ensures Up(f - gone, id, n) == Up(f, id, n) { UpAfterRemoval(f, gone, id, n); }
    }
  }

  /** After a removal the roots are the surviving old ones and the severed sessions. */
  lemma RootsAfterRemoval(f: Parents, gone: set<Id>, id: Id)
    ensures IsRoot(f - gone, id) <==> (IsRoot(f, id) && id !in gone) || id in Severed(f, gone)
  {
  }
}
