/** The k most recent of a set of sessions, by last activity and then by identifier. */
module Ranking {
  import opened Basics

  type Times = map<Id, int>

  /** `a` is kept in preference to `b`. */
  predicate Newer(times: Times, a: Id, b: Id)
    requires a in times && b in times
  {
    times[a] > times[b] || (times[a] == times[b] && Less(b, a))
  }

  ghost function Ahead(ids: set<Id>, times: Times, r: Id): set<Id>
    requires ids <= times.Keys && r in times
  {
    set q | q in ids && Newer(times, q, r)
  }

  /** The sessions with fewer than `k` newer ones. */
  ghost function Newest(ids: set<Id>, times: Times, k: nat): set<Id>
    requires ids <= times.Keys
  {
    set r | r in ids && |Ahead(ids, times, r)| < k
  }

  lemma NewerOrder(times: Times, a: Id, b: Id)
    requires a in times && b in times
    ensures !(Newer(times, a, b) && Newer(times, b, a))
    ensures Newer(times, a, b) || Newer(times, b, a) || a == b
    ensures !Newer(times, a, a)
  {
    IdOrder(a, b);
  }

  lemma NewerTransitive(times: Times, a: Id, b: Id, c: Id)
    requires a in times && b in times && c in times
    requires Newer(times, a, b) && Newer(times, b, c)
    ensures Newer(times, a, c)
  {
    if times[a] == times[c] { IdTransitive(c, b, a); }
  }

  lemma {:induction false} OldestExists(ids: set<Id>, times: Times) returns (m: Id)
    requires ids != {} && ids <= times.Keys
    ensures m in ids && forall x <- ids :: x == m || Newer(times, x, m)
  {
    var x :| x in ids;
    if ids == {x} {
      m := x;
    } else {
      var n := OldestExists(ids - {x}, times);
      NewerOrder(times, x, n);
      m := if Newer(times, n, x) then x else n;
      forall y <- ids ensures y == m || Newer(times, y, m) {
        if Newer(times, n, x) && y != x && y != n { NewerTransitive(times, y, n, x); }
      }
    }
  }

  /** Exactly min(k, n) sessions are among the k newest of n. */
  lemma {:induction false} NewestSize(ids: set<Id>, times: Times, k: nat)
    requires ids <= times.Keys
    ensures |Newest(ids, times, k)| == if k < |ids| then k else |ids|
  {
    if |ids| <= k {
      forall r <- ids ensures r in Newest(ids, times, k) {
        NewerOrder(times, r, r);
        SubsetSize(Ahead(ids, times, r), ids);
      }
      assert Newest(ids, times, k) == ids;
    } else {
      var m := OldestExists(ids, times);
      var rest := ids - {m};
      NewestSize(rest, times, k);
      forall r <- ids ensures r in Newest(ids, times, k) <==> r in Newest(rest, times, k) {
        NewerOrder(times, m, r);
        if r == m {
          assert Ahead(ids, times, m) == rest by { NewerOrder(times, m, m); }
        } else {
          assert Ahead(ids, times, r) == Ahead(rest, times, r);
        }
      }
      assert Newest(ids, times, k) == Newest(rest, times, k);
    }
  }

  /** Every session among the k newest is newer than every other session. */
  lemma NewestAreNewer(ids: set<Id>, times: Times, k: nat, r: Id, s: Id)
    requires ids <= times.Keys && r in Newest(ids, times, k) && s in ids - Newest(ids, times, k)
    ensures Newer(times, r, s)
  {
    NewerOrder(times, r, s);
    if Newer(times, s, r) {
      forall q <- Ahead(ids, times, s) ensures q in Ahead(ids, times, r) { NewerTransitive(times, q, s, r); }
      SubsetSize(Ahead(ids, times, s), Ahead(ids, times, r));
    }
  }

  /**
   * The selection survives the disappearance of other sessions and the ageing of those that
   * stay, as long as the selected ones are untouched.
   */
  lemma NewestStable(ids: set<Id>, times: Times, ids': set<Id>, times': Times, k: nat)
    requires ids <= times.Keys && ids' <= times'.Keys && ids' <= ids
    requires Newest(ids, times, k) <= ids'
    requires forall r <- Newest(ids, times, k) :: times'[r] == times[r]
    requires forall q <- ids' :: times'[q] <= times[q]
    ensures Newest(ids', times', k) == Newest(ids, times, k)
  {
    var top := Newest(ids, times, k);
    forall r <- ids' ensures r in Newest(ids', times', k) <==> r in top {
      if r in top {
        assert Ahead(ids', times', r) <= Ahead(ids, times, r);
        SubsetSize(Ahead(ids', times', r), Ahead(ids, times, r));
      } else {
        forall q <- top ensures q in Ahead(ids', times', r) { NewestAreNewer(ids, times, k, q, r); }
        SubsetSize(top, Ahead(ids', times', r));
        NewestSize(ids, times, k);
        if |ids| <= k { SubsetSize(top, ids); }
      }
    }
  }

  /** Further sessions none of which is selected do not change the selection. */
  lemma NewestWithout(ids: set<Id>, some: set<Id>, times: Times, k: nat)
    requires some <= ids <= times.Keys && Newest(ids, times, k) <= some
    ensures Newest(ids, times, k) == Newest(some, times, k)
  {
    forall r <- Newest(ids, times, k) ensures r in Newest(some, times, k) {
      SubsetSize(Ahead(some, times, r), Ahead(ids, times, r));
    }
    NewestSize(ids, times, k);
    NewestSize(some, times, k);
    SubsetSize(some, ids);
    SubsetSize(Newest(ids, times, k), Newest(some, times, k));
  }
}
