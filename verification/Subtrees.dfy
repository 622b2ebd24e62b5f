/** Descendant expansion of a selection, in chunks. */
module Subtrees {
  import opened Basics
  import opened Forest
  import opened Recursion

  const CHUNK: nat := 500

  /** Identifiers in ascending order, as a `BTreeSet` iterates them. */
  method Ascending(ids: set<Id>) returns (s: seq<Id>)
    ensures |s| == |ids| && forall id :: id in s <==> id in ids
    ensures forall i, j | 0 <= i < j < |s| :: Less(s[i], s[j])
  {
    s := [];
    var rest := ids;
    while rest != {}
      invariant rest <= ids && |s| + |rest| == |ids|
      invariant forall id :: id in s <==> id in ids - rest
      invariant forall i, j | 0 <= i < j < |s| :: Less(s[i], s[j])
      invariant forall x, y | x in s && y in rest :: Less(x, y)
    {
      var m := Least(rest);
      assert forall id :: id in s + [m] <==> id in s || id == m;
      s, rest := s + [m], rest - {m};
    }
  }

  /** One query over a chunk: its expansion, or a chunk member whose rows carry a cycle marker. */
  method ExpandChunk(f: Parents, chunk: set<Id>) returns (r: Result<set<Id>>)
    ensures r.Success? <==> forall id <- chunk :: !OnCycle(f, id)
    ensures r.Success? ==> r.value == Descendants(f, chunk)
    ensures r.Failure? ==> r.error.ParentCycle? && r.error.root in chunk && OnCycle(f, r.error.root)
  {
    var rows := Subtree(f, chunk);
    SubtreeExact(f, chunk);
    var marked := set p | p in rows && Repeats(p) :: p[0];
    forall id ensures id in marked <==> id in chunk && OnCycle(f, id) { CycleMarker(f, id); }
    if marked != {} {
      return Failure(ParentCycle(Least(marked)));
    }
    r := Success(set p | p in rows :: Last(p));
    forall d ensures d in r.value <==> d in Descendants(f, chunk) {
      if p :| p in rows && Last(p) == d { RowUp(f, p, 0, |p| - 1); }
      if d in Descendants(f, chunk) {
        var a :| a in chunk && Above(f, a, d);
        var p := RowExists(f, a, d);
      }
    }
  }

  lemma DescendantsUnion(f: Parents, a: set<Id>, b: set<Id>)
    ensures Descendants(f, a + b) == Descendants(f, a) + Descendants(f, b)
  {
  }

  lemma SplitPrefix(order: seq<Id>, i: nat, j: nat)
    requires i <= j <= |order|
    ensures order[..j] == order[..i] + order[i..j]
  {
  }

  /** Expands a selection to all transitive descendants, chunk by chunk. */
  method Expand(f: Parents, selected: set<Id>) returns (r: Result<set<Id>>)
    ensures r.Success? <==> forall id <- selected :: !OnCycle(f, id)
    ensures r.Success? ==> r.value == Descendants(f, selected)
    ensures r.Failure? ==> r.error.ParentCycle? && r.error.root in selected && OnCycle(f, r.error.root)
  {
    if selected == {} {
      return Success({});
    }
    var order := Ascending(selected);
    var expanded: set<Id> := {};
    var done: set<Id> := {};
    var i := 0;
    while i < |order|
      invariant 0 <= i <= |order|
      invariant done == set id | id in order[..i]
      invariant expanded == Descendants(f, done)
      invariant forall id <- done :: !OnCycle(f, id)
    {
      var j := if i + CHUNK < |order| then i + CHUNK else |order|;
      var chunk := set id | id in order[i..j];
      SplitPrefix(order, i, j);
      var result := ExpandChunk(f, chunk);
      match result {
        case Failure(error) => return Failure(error);
        case Success(ids) =>
          DescendantsUnion(f, done, chunk);
          expanded, done, i := expanded + ids, done + chunk, j;
      }
    }
    assert order[..i] == order && done == selected;
    r := Success(expanded);
  }
}
