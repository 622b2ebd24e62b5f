/** Sums over finite sets, as SQL's aggregates form them. */
module Sums {
  ghost function Sum<T>(s: set<T>, w: map<T, nat>): nat
    requires s <= w.Keys
  {
    if s == {} then 0
    else
      var x :| x in s;
      w[x] + Sum(s - {x}, w)
  }

  /** The order of summation is immaterial. */
  lemma {:induction false} SumRemove<T>(s: set<T>, w: map<T, nat>, x: T)
    requires s <= w.Keys && x in s
    ensures Sum(s, w) == w[x] + Sum(s - {x}, w)
  {
    var y :| y in s && Sum(s, w) == w[y] + Sum(s - {y}, w);
    if y != x {
      SumRemove(s - {y}, w, x);
      SumRemove(s - {x}, w, y);
      assert s - {x} - {y} == s - {y} - {x};
    }
  }

  lemma {:induction false} SumSame<T>(s: set<T>, w: map<T, nat>, v: map<T, nat>)
    requires s <= w.Keys && s <= v.Keys && forall x <- s :: w[x] == v[x]
    ensures Sum(s, w) == Sum(s, v)
  {
    if s != {} {
      var x :| x in s;
      SumRemove(s, w, x);
      SumRemove(s, v, x);
      SumSame(s - {x}, w, v);
    }
  }

  lemma {:induction false} SumUnion<T>(a: set<T>, b: set<T>, w: map<T, nat>)
    requires a <= w.Keys && b <= w.Keys && a !! b
    ensures Sum(a + b, w) == Sum(a, w) + Sum(b, w)
  {
    if a == {} {
      assert a + b == b;
    } else {
      var x :| x in a;
      SumRemove(a, w, x);
      SumRemove(a + b, w, x);
      assert a + b - {x} == (a - {x}) + b;
      SumUnion(a - {x}, b, w);
    }
  }

  lemma SumSubset<T>(a: set<T>, b: set<T>, w: map<T, nat>)
    requires a <= b <= w.Keys
    ensures Sum(a, w) <= Sum(b, w)
  {
    assert a + (b - a) == b;
    SumUnion(a, b - a, w);
  }

  /** The elements of `s` with a given key. */
  ghost function Group<T, G>(s: set<T>, key: map<T, G>, g: G): set<T>
    requires s <= key.Keys
  {
    set x | x in s && key[x] == g
  }

  /** `GROUP BY`: the sums of the groups add up to the sum of the whole. */
  lemma {:induction false} SumByKey<T, G>(s: set<T>, w: map<T, nat>, key: map<T, G>, groups: set<G>, sums: map<G, nat>)
    requires s <= w.Keys && s <= key.Keys && groups <= sums.Keys
    requires forall x <- s :: key[x] in groups
    requires forall g <- groups :: sums[g] == Sum(Group(s, key, g), w)
    ensures Sum(groups, sums) == Sum(s, w)
    decreases groups
  {
    if groups != {} {
      var g :| g in groups;
      var mine := Group(s, key, g);
      var rest := s - mine;
      forall h <- groups - {g} ensures Group(rest, key, h) == Group(s, key, h) {}
      SumByKey(rest, w, key, groups - {g}, sums);
      SumRemove(groups, sums, g);
      SumUnion(mine, rest, w);
      assert mine + rest == s;
    }
  }

  /** Renaming the elements one to one keeps the sum. */
  lemma {:induction false} SumRenamed<S, T>(s: set<S>, v: map<S, nat>, t: set<T>, w: map<T, nat>, name: map<S, T>)
    requires s <= v.Keys && t <= w.Keys && s <= name.Keys
    requires forall x <- s :: name[x] in t && v[x] == w[name[x]]
    requires forall x, y | x in s && y in s && name[x] == name[y] :: x == y
    requires forall y <- t :: exists x <- s :: name[x] == y
    ensures Sum(s, v) == Sum(t, w)
    decreases s
  {
    if s == {} {
      assert t == {};
    } else {
      var x :| x in s;
      SumRemove(s, v, x);
      SumRemove(t, w, name[x]);
      SumRenamed(s - {x}, v, t - {name[x]}, w, name);
    }
  }
}
