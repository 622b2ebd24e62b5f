/**
 * The path-carrying recursive query shared by subtree expansion, session ages and size
 * attribution. A row holds the identifiers from its root down to one session, which is what
 * the `char(31)`-separated path text spells; the row's cycle marker says whether the last
 * identifier already occurs earlier, and such a row is not extended further.
 */
module Recursion {
  import opened Basics
  import opened Forest

  type Path = p: seq<Id> | p != [] witness [Id("")]

  predicate Repeats(p: Path) {
    p[|p| - 1] in p[..|p| - 1]
  }

  function Last(p: Path): Id {
    p[|p| - 1]
  }

  /** A path the recursion may produce: parent links downwards, repeating at most at its end. */
  ghost predicate IsRow(f: Parents, p: Path) {
    && (forall i | 0 <= i < |p| :: p[i] in f)
    && (forall i | 0 < i < |p| :: f[p[i]] == Some(p[i - 1]))
    && (forall i, j | 0 <= i < j < |p| - 1 :: p[i] != p[j])
  }

  /** The recursive arm of the query: every child of the last session of an open row. */
  function Extend(f: Parents, frontier: set<Path>): set<Path> {
    set p, c | p in frontier && c in f && !Repeats(p) && f[c] == Some(Last(p)) :: p + [c]
  }

  lemma ExtendKeepsRows(f: Parents, frontier: set<Path>, n: nat)
    requires forall p <- frontier :: IsRow(f, p) && |p| == n
    ensures forall q <- Extend(f, frontier) :: IsRow(f, q) && |q| == n + 1
  {
    forall q <- Extend(f, frontier) ensures IsRow(f, q) && |q| == n + 1 {
      var p, c :| p in frontier && c in f && !Repeats(p) && f[c] == Some(Last(p)) && q == p + [c];
      forall i, j | 0 <= i < j < |q| - 1 ensures q[i] != q[j] {
        assert q[i] == p[i] && q[j] == p[j];
        if j == |p| - 1 { assert p[i] in p[..|p| - 1]; }
      }
    }
  }

  /** A row has at most one session more than the forest, so the recursion runs out of rows. */
  lemma RowsAreShort(f: Parents, p: Path)
    requires IsRow(f, p)
    ensures |p| <= |f| + 1
  {
    var prefix := p[..|p| - 1];
    DistinctSize(prefix);
    SubsetSize((set x | x in prefix), f.Keys);
  }

  lemma {:induction false} DistinctSize(s: seq<Id>)
    requires forall i, j | 0 <= i < j < |s| :: s[i] != s[j]
    ensures |(set x | x in s)| == |s|
  {
    if s != [] {
      DistinctSize(s[1..]);
      assert (set x | x in s) == {s[0]} + (set x | x in s[1..]);
    }
  }

  /** All rows reached from `frontier`, whose rows have length `n`. */
  function Recurse(f: Parents, frontier: set<Path>, n: nat): set<Path>
    requires forall p <- frontier :: IsRow(f, p) && |p| == n
    decreases |f| + 2 - n, frontier != {}
  {
    if frontier == {} then {}
    else
      ghost var p :| p in frontier;
      RowsAreShort(f, p);
      ExtendKeepsRows(f, frontier, n);
      frontier + Recurse(f, Extend(f, frontier), n + 1)
  }

  /** The rows of the query started from the selected sessions that are present. */
  function Subtree(f: Parents, selected: set<Id>): set<Path> {
    var seeds := set id | id in selected && id in f :: [id];
    assert forall p <- seeds :: IsRow(f, p) && |p| == 1;
    Recurse(f, seeds, 1)
  }

  lemma PrefixIsRow(f: Parents, p: Path, n: nat)
    requires IsRow(f, p) && 0 < n < |p|
    ensures IsRow(f, p[..n]) && !Repeats(p[..n])
  {
    assert forall i | 0 <= i < n - 1 :: p[..n][..n - 1][i] == p[i] != p[n - 1];
  }

  /** `frontier` holds the rows of length `n` that start at a selected session. */
  ghost predicate IsFrontier(f: Parents, selected: set<Id>, frontier: set<Path>, n: nat) {
    forall p :: p in frontier <==> IsRow(f, p) && |p| == n && p[0] in selected
  }

  lemma NextFrontier(f: Parents, selected: set<Id>, frontier: set<Path>, n: nat)
    requires n > 0 && IsFrontier(f, selected, frontier, n)
    ensures IsFrontier(f, selected, Extend(f, frontier), n + 1)
  {
    ExtendKeepsRows(f, frontier, n);
    forall q | IsRow(f, q) && |q| == n + 1 && q[0] in selected ensures q in Extend(f, frontier) {
      PrefixIsRow(f, q, n);
      var p, c := q[..n], q[n];
      assert p in frontier && q == p + [c] && f[c] == Some(Last(p));
    }
  }

  lemma {:induction false} RecurseExact(f: Parents, selected: set<Id>, frontier: set<Path>, n: nat)
    requires n > 0 && IsFrontier(f, selected, frontier, n)
    ensures forall p :: p in Recurse(f, frontier, n) <==> IsRow(f, p) && |p| >= n && p[0] in selected
    decreases |f| + 2 - n, frontier != {}
  {
    if frontier == {} {
      forall p: Path ensures !(IsRow(f, p) && |p| >= n && p[0] in selected) {
        assert p !in frontier;
        if IsRow(f, p) && |p| > n { PrefixIsRow(f, p, n); assert p[..n] !in frontier; }
      }
    } else {
      var p0 :| p0 in frontier;
      RowsAreShort(f, p0);
      NextFrontier(f, selected, frontier, n);
      RecurseExact(f, selected, Extend(f, frontier), n + 1);
    }
  }

  /** The query returns exactly the rows that start at a selected session. */
  lemma SubtreeExact(f: Parents, selected: set<Id>)
    ensures forall p :: p in Subtree(f, selected) <==> IsRow(f, p) && p[0] in selected
  {
    var seeds := set id | id in selected && id in f :: [id];
    forall p ensures p in seeds <==> IsRow(f, p) && |p| == 1 && p[0] in selected {
      if IsRow(f, p) && |p| == 1 && p[0] in selected { assert p == [p[0]]; }
    }
    RecurseExact(f, selected, seeds, 1);
  }

  /** Positions of a row are ancestor distances. */
  lemma {:induction false} RowUp(f: Parents, p: Path, i: nat, j: nat)
    requires IsRow(f, p) && i <= j < |p|
    ensures Up(f, p[j], j - i) == Some(p[i])
    decreases j
  {
    if i < j { RowUp(f, p, i, j - 1); }
  }

  lemma {:induction false} Aligned(f: Parents, p: Path, q: Path, i: nat)
    requires IsRow(f, p) && IsRow(f, q) && Last(p) == Last(q)
    requires i < |p| <= |q|
    ensures p[i] == q[i + |q| - |p|]
    decreases |p| - i
  {
    if i < |p| - 1 { Aligned(f, p, q, i + 1); }
  }

  /** Each descendant of a root appears in at most one open row of that root. */
  lemma RowUnique(f: Parents, p: Path, q: Path)
    requires IsRow(f, p) && IsRow(f, q) && !Repeats(p) && !Repeats(q)
    requires p[0] == q[0] && Last(p) == Last(q)
    ensures p == q
    decreases |p|
  {
    if |p| > |q| {
      RowUnique(f, q, p);
    } else {
      forall i: nat | i < |p| ensures p[i] == q[i + |q| - |p|] { Aligned(f, p, q, i); }
      var shift := |q| - |p|;
      assert q[0] == q[shift];
      assert |q| > 1 ==> q[..|q| - 1][0] == q[0] != Last(q);
    }
  }

  /** The path from the `n`-th ancestor of `d` down to `d`. */
  ghost function PathDown(f: Parents, d: Id, n: nat): (p: Path)
    requires Up(f, d, n).Some?
    ensures |p| == n + 1
    ensures forall i | 0 <= i <= n :: Up(f, d, n - i) == Some(p[i])
    decreases n
  {
    if n == 0 then [d] else PathDown(f, f[d].value, n - 1) + [d]
  }

  /** A repeated session shortens the climb to the top by the distance of its occurrences. */
  lemma RepeatShortens(f: Parents, d: Id, n: nat, i: nat, j: nat)
    requires Up(f, d, n).Some? && i < j <= n
    requires Up(f, d, n - i) == Up(f, d, n - j)
    ensures Up(f, d, n - (j - i)) == Up(f, d, n)
  {
    UpAdd(f, d, n - j, i);
    UpAdd(f, d, n - i, i);
    UpAdd(f, d, n - i, j - i);
    assert n - j + i == n - (j - i);
    UpAdd(f, d, n - j, j);
  }

  lemma PathDownLinks(f: Parents, d: Id, n: nat)
    requires Up(f, d, n).Some?
    ensures var p := PathDown(f, d, n);
            (forall i | 0 <= i < |p| :: p[i] in f) && (forall i | 0 < i < |p| :: f[p[i]] == Some(p[i - 1]))
  {
    var p := PathDown(f, d, n);
    forall i | 0 <= i <= n ensures p[i] in f { UpPresent(f, d, n - i); }
    forall i | 0 < i <= n ensures f[p[i]] == Some(p[i - 1]) {
      UpAdd(f, d, n - i, 1);
      assert Up(f, p[i], 1) == Up(f, d, n - (i - 1)) == Some(p[i - 1]);
    }
  }

  /** When no shorter positive climb from `d` ends at the same session, the path is a row. */
  lemma PathDownIsRow(f: Parents, d: Id, n: nat)
    requires Up(f, d, n).Some?
    requires forall k: nat | 0 < k < n :: Up(f, d, k) != Up(f, d, n)
    ensures IsRow(f, PathDown(f, d, n))
    ensures Repeats(PathDown(f, d, n)) <==> n > 0 && Up(f, d, n) == Some(d)
  {
    var p := PathDown(f, d, n);
    PathDownLinks(f, d, n);
    forall i, j | 0 <= i < j <= n && p[i] == p[j] ensures i == 0 && j == n {
      assert Up(f, d, n - i) == Up(f, d, n - j);
      RepeatShortens(f, d, n, i, j);
    }
    assert Up(f, d, n - n) == Some(p[n]) && Up(f, d, n - 0) == Some(p[0]);
    if n > 0 && Up(f, d, n) == Some(d) { assert p[..n][0] == p[0]; }
    if Repeats(p) { var i :| 0 <= i < n && p[..n][i] == p[n]; }
  }

  lemma {:induction false} ShortestClimb(f: Parents, d: Id, a: Id, n: nat) returns (m: nat)
    requires Up(f, d, n) == Some(a) && n > 0
    ensures 0 < m <= n && Up(f, d, m) == Some(a)
    ensures forall k: nat | 0 < k < m :: Up(f, d, k) != Some(a)
    decreases n
  {
    if k: nat :| 0 < k < n && Up(f, d, k) == Some(a) {
      m := ShortestClimb(f, d, a, k);
    } else {
      m := n;
    }
  }

  /** Every descendant of a root, the root included, appears in an open row of that root. */
  lemma RowExists(f: Parents, r: Id, d: Id) returns (p: Path)
    requires Above(f, r, d)
    ensures IsRow(f, p) && !Repeats(p) && p[0] == r && Last(p) == d
  {
    AbovePresent(f, r, d);
    if r == d {
      p := [r];
    } else {
      var n: nat :| Up(f, d, n) == Some(r);
      assert Up(f, d, 0) == Some(d);
      var m := ShortestClimb(f, d, r, n);
      PathDownIsRow(f, d, m);
      p := PathDown(f, d, m);
      assert Up(f, d, m - 0) == Some(p[0]) && Up(f, d, m - m) == Some(p[m]);
    }
  }

  /** A root's query marks a cycle exactly when the root itself lies on a parent cycle. */
  lemma CycleMarker(f: Parents, r: Id)
    ensures (exists p :: IsRow(f, p) && p[0] == r && Repeats(p)) <==> OnCycle(f, r)
  {
    if p :| IsRow(f, p) && p[0] == r && Repeats(p) {
      var n := |p| - 1;
      forall i | 0 < i < n ensures p[i] != p[n] {
        assert p[i - 1] != p[n - 1] && f[p[i]] == Some(p[i - 1]) && f[p[n]] == Some(p[n - 1]);
      }
      var i :| 0 <= i < n && p[..n][i] == p[n];
      RowUp(f, p, 0, n);
    }
    if OnCycle(f, r) {
      var n: nat :| n > 0 && Up(f, r, n) == Some(r);
      var m := ShortestClimb(f, r, r, n);
      PathDownIsRow(f, r, m);
      assert Up(f, r, m - 0) == Some(PathDown(f, r, m)[0]);
    }
  }

  /** The last sessions of a root's rows are the root and its descendants, each from one row. */
  lemma SubtreeCovers(f: Parents, r: Id)
    requires !OnCycle(f, r)
    ensures forall d :: Above(f, r, d) <==> exists p :: p in Subtree(f, {r}) && Last(p) == d
    ensures forall p, q :: p in Subtree(f, {r}) && q in Subtree(f, {r}) && Last(p) == Last(q) ==> p == q
  {
    SubtreeExact(f, {r});
    CycleMarker(f, r);
    var rows := Subtree(f, {r});
    forall d ensures Above(f, r, d) <==> exists p :: p in rows && Last(p) == d {
      if Above(f, r, d) { var p := RowExists(f, r, d); assert p in rows; }
      if p :| p in rows && Last(p) == d { RowUp(f, p, 0, |p| - 1); }
    }
    forall p, q | p in rows && q in rows && Last(p) == Last(q) ensures p == q { RowUnique(f, p, q); }
  }
}
