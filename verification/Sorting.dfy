/** The insertion sort, over any order: `sort` of the digests and of the property names. */
module Sorting {

  function InsertSorted<T(==)>(x: T, xs: seq<T>, before: (T, T) -> bool): (r: seq<T>)
    ensures |r| == |xs| + 1
  {
    if xs == [] || before(x, xs[0]) then [x] + xs else [xs[0]] + InsertSorted(x, xs[1..], before)
  }

  function SortedBy<T(==)>(xs: seq<T>, before: (T, T) -> bool): (r: seq<T>)
    ensures |r| == |xs|
  {
    if xs == [] then [] else InsertSorted(xs[0], SortedBy(xs[1..], before), before)
  }

  lemma {:induction false} InsertedOnce<T>(x: T, xs: seq<T>, before: (T, T) -> bool)
    ensures multiset(InsertSorted(x, xs, before)) == multiset([x] + xs)
  {
    if xs != [] && !before(x, xs[0]) {
      InsertedOnce(x, xs[1..], before);
      assert xs == [xs[0]] + xs[1..];
    }
  }

  /** Sorting permutes, whatever the order. */
  lemma {:induction false} SortedPermutes<T>(xs: seq<T>, before: (T, T) -> bool)
    ensures multiset(SortedBy(xs, before)) == multiset(xs)
  {
    if xs != [] {
      SortedPermutes(xs[1..], before);
      InsertedOnce(xs[0], SortedBy(xs[1..], before), before);
      assert xs == [xs[0]] + xs[1..];
    }
  }

  lemma SameMembers<T>(xs: seq<T>, before: (T, T) -> bool)
    ensures forall x :: x in SortedBy(xs, before) <==> x in xs
  {
    SortedPermutes(xs, before);
    forall x ensures x in SortedBy(xs, before) <==> x in xs {
      assert x in multiset(xs) <==> x in xs;
      assert x in multiset(SortedBy(xs, before)) <==> x in SortedBy(xs, before);
    }
  }
}
