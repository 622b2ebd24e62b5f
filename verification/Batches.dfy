/** Taking identifiers in ascending order, a batch at a time. */
module Batches {
  import opened Basics

  /** `s` holds `n` of the ids, or all if there are fewer, and they come before all others. */
  ghost predicate IsSmallest(s: set<Id>, ids: set<Id>, n: nat) {
    && s <= ids
    && |s| == (if n < |ids| then n else |ids|)
    && forall x, y {:trigger Less(x, y)} | x in s && y in ids && y !in s :: Less(x, y)
  }

  lemma {:induction false} SmallestExists(ids: set<Id>, n: nat) returns (s: set<Id>)
    ensures IsSmallest(s, ids, n)
    decreases n
  {
    if n == 0 || ids == {} {
      s := {};
    } else {
      var m := Least(ids);
      var rest := SmallestExists(ids - {m}, n - 1);
      s := {m} + rest;
    }
  }

  lemma SmallestUnique(s: set<Id>, t: set<Id>, ids: set<Id>, n: nat)
    requires IsSmallest(s, ids, n) && IsSmallest(t, ids, n)
    ensures s == t
  {
    if s - t != {} && t - s != {} {
      var x, y :| x in s - t && y in t - s;
      IdOrder(x, y);
      assert false;
    }
    if s - t == {} {
      assert forall x <- s :: x !in s - t;
      SubsetSize(s, t);
    } else {
      assert forall y <- t :: y !in t - s;
      SubsetSize(t, s);
    }
  }

  /** `SELECT id FROM purge_ids ORDER BY id LIMIT n`. */
  ghost function Smallest(ids: set<Id>, n: nat): (s: set<Id>)
    ensures IsSmallest(s, ids, n)
  {
    assert exists s :: IsSmallest(s, ids, n) by { var s := SmallestExists(ids, n); }
    var s :| IsSmallest(s, ids, n);
    s
  }

  lemma SmallestAll(ids: set<Id>, n: nat)
    requires n >= |ids|
    ensures Smallest(ids, n) == ids
  {
    SubsetSize(Smallest(ids, n), ids);
  }

  /** Taking `a` and then `b` of the rest takes the `a + b` smallest. */
  lemma SmallestAdd(ids: set<Id>, a: nat, b: nat)
    ensures Smallest(ids, a) + Smallest(ids - Smallest(ids, a), b) == Smallest(ids, a + b)
  {
    var s := Smallest(ids, a);
    var t := Smallest(ids - s, b);
    assert |ids - s| == |ids| - |s| && |s + t| == |s| + |t|;
    assert IsSmallest(s + t, ids, a + b);
    SmallestUnique(s + t, Smallest(ids, a + b), ids, a + b);
  }

  /** The ids of the first `n` batches, each batch taking the smallest ids left. */
  ghost function FirstBatches(ids: set<Id>, size: nat, n: nat): set<Id> {
    if n == 0 then {}
    else
      var taken := FirstBatches(ids, size, n - 1);
      taken + Smallest(ids - taken, size)
  }

  /** The first `n` batches take exactly the `n * size` smallest ids. */
  lemma {:induction false} FirstBatchesAreSmallest(ids: set<Id>, size: nat, n: nat)
    ensures FirstBatches(ids, size, n) == Smallest(ids, n * size)
  {
    if n == 0 {
      assert Smallest(ids, 0) == {};
    } else {
      FirstBatchesAreSmallest(ids, size, n - 1);
      assert n * size == (n - 1) * size + size;
      SmallestAdd(ids, (n - 1) * size, size);
    }
  }

  /**
   * `taken` holds the ids of the first `n` batches. The quantifier keeps the recursion folded in
   * proofs that do not mention it.
   */
  ghost predicate TakenBy(ids: set<Id>, size: nat, n: nat, taken: set<Id>) {
    forall m: nat {:trigger FirstBatches(ids, size, m)} :: m == n ==> taken == FirstBatches(ids, size, m)
  }

  lemma TakenNext(ids: set<Id>, size: nat, n: nat, taken: set<Id>)
    requires TakenBy(ids, size, n, taken)
    ensures TakenBy(ids, size, n + 1, taken + Smallest(ids - taken, size))
  {
    assert taken == FirstBatches(ids, size, n);
  }

  /** Ids are left exactly while fewer than all batches are done. */
  lemma BatchesLeft(ids: set<Id>, size: nat, n: nat, taken: set<Id>)
    requires size > 0 && TakenBy(ids, size, n, taken)
    ensures ids - taken == {} <==> n >= BatchCount(|ids|, size)
  {
    assert taken == FirstBatches(ids, size, n);
    FirstBatchesAreSmallest(ids, size, n);
    BatchCountCovers(|ids|, size);
    if n >= BatchCount(|ids|, size) {
      MonotoneProduct(BatchCount(|ids|, size), n, size);
      SmallestAll(ids, n * size);
    } else {
      assert |ids - taken| == |ids| - |taken|;
    }
  }

  lemma MonotoneProduct(a: nat, b: nat, d: nat)
    requires a <= b
    ensures a * d <= b * d
  {
    assert b * d == a * d + (b - a) * d;
  }

  /** The number of batches that cover `n` identifiers. */
  function BatchCount(n: nat, size: nat): nat
    requires size > 0
  {
    (n + size - 1) / size
  }

  lemma BatchCountCovers(n: nat, size: nat)
    requires size > 0
    ensures BatchCount(n, size) * size >= n
    ensures forall j: nat | j < BatchCount(n, size) :: j * size < n
  {
    var q := BatchCount(n, size);
    assert (n + size - 1) == q * size + (n + size - 1) % size;
    forall j: nat | j < q ensures j * size < n {
      assert j * size <= (q - 1) * size == q * size - size;
    }
  }
}
