/** Options, results, the error kinds of the program and the identifier order. */
module Basics {
  datatype Option<+T> = None | Some(value: T)

  /** A value, or the error that stood in its way. */
  datatype Outcome<+T, +E> = Success(value: T) | Failure(error: E)

  type Result<T> = Outcome<T, Error>

  /** The failures the modelled code can report. */
  datatype Error =
    | ParentCycle(root: Id)   // SchemaIncompatible: session.parent_id contains a cycle
    | AttributionDiverges     // SchemaIncompatible: part.session_id disagrees with its message
    | InvalidArgument
    | ColumnOutOfRange        // Sqlite: an integer column holds no value of its type
    | MissingSession          // a query for one row found none
    | BatchFailed             // busy, deadline or any other SQLite failure inside a transaction
    | CheckpointFailed        // the WAL checkpoint after a committed batch reported busy
    | Interrupted

  /** A TEXT identifier. SQLite's binary collation and Rust's `String` order agree on it. */
  datatype Id = Id(text: string)

  /** Lexicographic order on text. */
  predicate TextLess(a: string, b: string) {
    if b == "" then false
    else if a == "" then true
    else a[0] < b[0] || (a[0] == b[0] && TextLess(a[1..], b[1..]))
  }

  predicate Less(a: Id, b: Id) {
    TextLess(a.text, b.text)
  }

  lemma {:induction false} TextOrder(a: string, b: string)
    ensures !(TextLess(a, b) && TextLess(b, a))
    ensures TextLess(a, b) || TextLess(b, a) || a == b
    ensures a == b ==> !TextLess(a, b)
  {
    if a != "" && b != "" {
      TextOrder(a[1..], b[1..]);
      if a[0] == b[0] && a[1..] == b[1..] {
        assert a == [a[0]] + a[1..] == b;
      }
    }
  }

  /** The texts agree on their first `k` characters, where the first ends or has the smaller character. */
  ghost predicate DiffersAt(a: string, b: string, k: nat) {
    k <= |a| && k < |b| && a[..k] == b[..k] && (k == |a| || a[k] < b[k])
  }

  lemma DiffersLater(a: string, b: string, k: nat)
    requires a != "" && b != ""
    ensures DiffersAt(a, b, k + 1) <==> a[0] == b[0] && DiffersAt(a[1..], b[1..], k)
    ensures DiffersAt(a, b, 0) <==> a[0] < b[0]
  {
    if k < |a| && k < |b| {
      assert a[..k + 1] == [a[0]] + a[1..][..k] && b[..k + 1] == [b[0]] + b[1..][..k];
    }
  }

  /** The order of dictionaries: at the first difference the smaller character decides, and a prefix comes first. */
  lemma {:induction false} TextLessExactly(a: string, b: string)
    ensures TextLess(a, b) <==> exists k: nat :: DiffersAt(a, b, k)
  {
    if a == "" || b == "" {
      if b != "" { assert DiffersAt(a, b, 0); }
    } else {
      TextLessExactly(a[1..], b[1..]);
      DiffersLater(a, b, 0);
      if k: nat :| DiffersAt(a, b, k) && k > 0 { DiffersLater(a, b, k - 1); }
      if k: nat :| DiffersAt(a[1..], b[1..], k) { DiffersLater(a, b, k); }
    }
  }

  lemma {:induction false} TextTransitive(a: string, b: string, c: string)
    requires TextLess(a, b) && TextLess(b, c)
    ensures TextLess(a, c)
  {
    if a != "" && a[0] == b[0] == c[0] {
      TextTransitive(a[1..], b[1..], c[1..]);
    }
  }

  /** Identifier order is a strict total order. */
  lemma IdOrder(a: Id, b: Id)
    ensures !(Less(a, b) && Less(b, a))
    ensures Less(a, b) || Less(b, a) || a == b
    ensures !Less(a, a)
  {
    TextOrder(a.text, b.text);
    TextOrder(a.text, a.text);
  }

  lemma IdTransitive(a: Id, b: Id, c: Id)
    requires Less(a, b) && Less(b, c)
    ensures Less(a, c)
  {
    TextTransitive(a.text, b.text, c.text);
  }

  predicate IsLeast(m: Id, ids: set<Id>) {
    m in ids && forall x {:trigger Less(m, x)} | x in ids :: x == m || Less(m, x)
  }

  lemma {:induction false} LeastExists(ids: set<Id>) returns (m: Id)
    requires ids != {}
    ensures IsLeast(m, ids)
  {
    var x :| x in ids;
    if ids == {x} {
      m := x;
    } else {
      var n := LeastExists(ids - {x});
      IdOrder(x, n);
      if Less(x, n) {
        m := x;
        forall y <- ids ensures y == m || Less(m, y) {
          if y != x && y != n { IdTransitive(x, n, y); }
        }
      } else {
        m := n;
      }
    }
  }

  lemma LeastUnique(ids: set<Id>, m: Id, n: Id)
    requires IsLeast(m, ids) && IsLeast(n, ids)
    ensures m == n
  {
    IdOrder(m, n);
  }

  /** The smallest identifier, as `ORDER BY id` lists it first. */
  function Least(ids: set<Id>): (m: Id)
    requires ids != {}
    ensures IsLeast(m, ids)
  {
    assert exists m :: m in ids && IsLeast(m, ids) by { var m := LeastExists(ids); }
    assert forall m, n | m in ids && n in ids :: IsLeast(m, ids) && IsLeast(n, ids) ==> m == n by {
      forall m, n | m in ids && n in ids && IsLeast(m, ids) && IsLeast(n, ids) ensures m == n {
        LeastUnique(ids, m, n);
      }
    }
    var m :| m in ids && IsLeast(m, ids);
    m
  }

  /** Subsets have at most as many elements, and fewer when strict. */
  lemma SubsetSize<T>(a: set<T>, b: set<T>)
    requires a <= b
    ensures |a| <= |b|
    ensures a != b ==> |a| < |b|
  {
    assert b == a + (b - a);
    assert |b| == |a| + |b - a|;
  }

  lemma Pick<T>(s: set<T>) returns (x: T)
    requires s != {}
    ensures x in s
  {
    x :| x in s;
  }

  lemma {:induction false} MaxExists(s: set<int>) returns (m: int)
    requires s != {}
    ensures m in s && forall x <- s :: x <= m
  {
    var x := Pick(s);
    m := x;
    if s != {x} {
      assert s == {x} + (s - {x});
      var n := MaxExists(s - {x});
      m := if n < x then x else n;
      assert forall y <- s :: y == x || y in s - {x};
    }
  }

  function MaxOf(s: set<int>): (m: int)
    requires |s| > 0
    ensures m in s && forall x <- s :: x <= m
  {
    assert exists m :: m in s && forall x <- s :: x <= m by { var m := MaxExists(s); }
    var m :| m in s && forall x <- s :: x <= m;
    m
  }
}
