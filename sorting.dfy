/**
 * The ordering a SQL `ORDER BY` clause imposes on a query's rows, modelled as a
 * stable insertion sort by a total preorder `before` (`before(a, b)`: `a` may
 * come ahead of `b`).
 */
module Sorting {

  /** `before` relates every pair in at least one direction and is transitive. */
  ghost predicate TotalPreorder<T(!new)>(before: (T, T) -> bool)
  {
    && (forall a, b :: before(a, b) || before(b, a))
    && (forall a, b, c :: before(a, b) && before(b, c) ==> before(a, c))
  }

  predicate Sorted<T>(xs: seq<T>, before: (T, T) -> bool)
  {
    forall i, j :: 0 <= i < j < |xs| ==> before(xs[i], xs[j])
  }

  /** Puts `x` into the sorted `xs` ahead of the first element it may precede. */
  function Insert<T(==, !new)>(x: T, xs: seq<T>, before: (T, T) -> bool): (r: seq<T>)
    requires TotalPreorder(before) && Sorted(xs, before)
    ensures Sorted(r, before)
    ensures multiset(r) == multiset(xs) + multiset{x}
  {
    if xs == [] then [x]
    else if before(x, xs[0]) then
      assert forall j :: 0 <= j < |xs| ==> before(x, xs[j]) by {
        forall j | 0 <= j < |xs| ensures before(x, xs[j]) {
          if j > 0 { assert before(xs[0], xs[j]); }
        }
      }
      [x] + xs
    else
      var rest := Insert(x, xs[1..], before);
      assert xs == [xs[0]] + xs[1..];
      HeadStaysFirst(xs[0], x, xs[1..], rest, before);
      [xs[0]] + rest
  }

  /**
   * An element that may precede `x` and every element of `tail` may precede
   * any rearrangement of them, so putting it first keeps the order.
   */
  lemma HeadStaysFirst<T(!new)>(h: T, x: T, tail: seq<T>, rest: seq<T>, before: (T, T) -> bool)
    requires TotalPreorder(before) && !before(x, h)
    requires forall j :: 0 <= j < |tail| ==> before(h, tail[j])
    requires Sorted(rest, before) && multiset(rest) == multiset(tail) + multiset{x}
    ensures Sorted([h] + rest, before)
  {
    assert before(h, x);
    forall i | 0 <= i < |rest| ensures before(h, rest[i]) {
      assert rest[i] in multiset(rest);
      if rest[i] != x {
        assert rest[i] in tail;
      }
    }
  }

  /** The rows of `xs` rearranged into the order `before` asks for. */
  function SortBy<T(==, !new)>(xs: seq<T>, before: (T, T) -> bool): (r: seq<T>)
    requires TotalPreorder(before)
    ensures Sorted(r, before)
    ensures multiset(r) == multiset(xs)
    ensures |r| == |xs|
  {
    if xs == [] then []
    else
      assert xs == [xs[0]] + xs[1..];
      Insert(xs[0], SortBy(xs[1..], before), before)
  }
}
