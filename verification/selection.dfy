/** The selection lists: the quest ids and item ids the route is built from. */
module Selection {

  /** `a` is `b` with some elements dropped and the rest kept in order. */
  ghost predicate IsSubsequence<T>(a: seq<T>, b: seq<T>)
    decreases |b|
  {
    && |a| <= |b|
    && (a == [] || (a[0] == b[0] && IsSubsequence(a[1..], b[1..])) || IsSubsequence(a, b[1..]))
  }

  /** Every occurrence of `id` dropped; the other elements keep their count
      and their relative order. */
  function RemoveAll<T(==,!new)>(xs: seq<T>, id: T): (r: seq<T>)
    ensures id !in r
    ensures forall x | x != id :: x in r <==> x in xs
    ensures forall x | x != id :: multiset(r)[x] == multiset(xs)[x]
    ensures IsSubsequence(r, xs)
  {
    if xs == [] then []
    else
      assert xs == [xs[0]] + xs[1..];
      if xs[0] == id then RemoveAll(xs[1..], id)
      else [xs[0]] + RemoveAll(xs[1..], id)
  }

  /** Clicking an entry: a selected id is removed (every occurrence), an
      unselected one is appended at the end. */
  function Toggle<T(==,!new)>(selected: seq<T>, id: T): (r: seq<T>)
    ensures id in r <==> id !in selected
    ensures forall x | x != id :: x in r <==> x in selected
    ensures id in selected ==>
              && (forall x | x != id :: multiset(r)[x] == multiset(selected)[x])
              && IsSubsequence(r, selected)
    ensures id !in selected ==> |r| == |selected| + 1 && r[..|selected|] == selected && r[|selected|] == id
  {
    if id in selected then RemoveAll(selected, id) else selected + [id]
  }

  /** Removing an id that is not there changes nothing. */
  lemma {:induction false} RemoveAbsent<T(!new)>(xs: seq<T>, id: T)
    requires id !in xs
    ensures RemoveAll(xs, id) == xs
  {
    if xs != [] {
      RemoveAbsent(xs[1..], id);
    }
  }

  /** Toggling the same id twice restores which ids are selected; when the
      id was not selected, it restores the list itself. */
  lemma ToggleTwice<T(!new)>(selected: seq<T>, id: T)
    ensures forall x :: x in Toggle(Toggle(selected, id), id) <==> x in selected
    ensures id !in selected ==> Toggle(Toggle(selected, id), id) == selected
  {
    if id !in selected {
      var once := selected + [id];
      assert RemoveAll(once, id) == RemoveAll(selected, id) by {
        RemoveAppendedTail(selected, id);
      }
      RemoveAbsent(selected, id);
    }
  }

  /** Dropping `id` from a list that ends in `id` drops that last element. */
  lemma {:induction false} RemoveAppendedTail<T(!new)>(xs: seq<T>, id: T)
    ensures RemoveAll(xs + [id], id) == RemoveAll(xs, id)
  {
    if xs != [] {
      assert (xs + [id])[1..] == xs[1..] + [id];
      RemoveAppendedTail(xs[1..], id);
    } else {
      assert [id][1..] == [];
    }
  }
}
