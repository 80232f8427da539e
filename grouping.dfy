/**
 * Grouping in order of first appearance, as the core does twice with an
 * insertion-ordered Python dict: `serialize_fitness_day_detail` groups a day's
 * sets by exercise, `list_fitness_logs` groups log entries by date. The same
 * first-appearance deduplication (`Distinct`) is what the muscle-tag
 * normaliser computes with its `seen` set and `ordered` list.
 */
module Grouping {

  predicate NoDuplicates<T(==)>(xs: seq<T>)
  {
    forall i, j :: 0 <= i < j < |xs| ==> xs[i] != xs[j]
  }

  /** The elements of `xs`, each kept at its first occurrence. */
  function Distinct<T(==)>(xs: seq<T>): (d: seq<T>)
    ensures forall i :: 0 <= i < |xs| ==> xs[i] in d
    ensures forall i :: 0 <= i < |d| ==> d[i] in xs
    ensures NoDuplicates(d)
    ensures |d| <= |xs|
  {
    if xs == [] then []
    else
      var init := Distinct(xs[..|xs| - 1]);
      var last := xs[|xs| - 1];
      assert xs == xs[..|xs| - 1] + [last];
      if last in init then init else init + [last]
  }

  /** The position of the first occurrence of `x` in `xs`. */
  function FirstIndex<T(==)>(xs: seq<T>, x: T): (i: nat)
    requires x in xs
    ensures i < |xs| && xs[i] == x && x !in xs[..i]
  {
    if xs[0] == x then 0 else 1 + FirstIndex(xs[1..], x)
  }

  lemma {:induction false} FirstIndexAppend<T>(xs: seq<T>, y: T, x: T)
    requires x in xs + [y]
    ensures x in xs ==> FirstIndex(xs + [y], x) == FirstIndex(xs, x)
    ensures x !in xs ==> FirstIndex(xs + [y], x) == |xs|
  {
    if xs != [] && xs[0] != x {
      assert (xs + [y])[1..] == xs[1..] + [y];
      FirstIndexAppend(xs[1..], y, x);
    }
  }

  /** `Distinct` lists the elements in the order in which they first occur. */
  lemma {:induction false} DistinctFirstOccurrenceOrder<T>(xs: seq<T>)
    ensures forall i, j :: 0 <= i < j < |Distinct(xs)| ==>
              FirstIndex(xs, Distinct(xs)[i]) < FirstIndex(xs, Distinct(xs)[j])
  {
    if xs != [] {
      var p, y := xs[..|xs| - 1], xs[|xs| - 1];
      assert xs == p + [y];
      DistinctFirstOccurrenceOrder(p);
      var dp := Distinct(p);
      var d := Distinct(xs);
      forall i, j | 0 <= i < j < |d|
        ensures FirstIndex(xs, d[i]) < FirstIndex(xs, d[j])
      {
        FirstIndexAppend(p, y, d[i]);
        FirstIndexAppend(p, y, d[j]);
        if j == |dp| {
          assert d[j] == y && y !in p;
          assert d[i] == dp[i] && dp[i] in p;
        } else {
          assert d[i] == dp[i] && d[j] == dp[j];
        }
      }
    }
  }

  /** A list without repetitions is its own `Distinct`. */
  lemma {:induction false} DistinctOfDistinct<T>(xs: seq<T>)
    requires NoDuplicates(xs)
    ensures Distinct(xs) == xs
  {
    if xs != [] {
      var p := xs[..|xs| - 1];
      DistinctOfDistinct(p);
      assert xs[|xs| - 1] !in p;
      assert p + [xs[|xs| - 1]] == xs;
    }
  }

  /** The key of every item, in order. */
  function Keys<K, V>(items: seq<(K, V)>): (ks: seq<K>)
    ensures |ks| == |items|
    ensures forall i :: 0 <= i < |items| ==> ks[i] == items[i].0
  {
    if items == [] then [] else Keys(items[..|items| - 1]) + [items[|items| - 1].0]
  }

  /** The values of the items whose key is `k`, in their original order. */
  function Members<K(==), V>(items: seq<(K, V)>, k: K): (vs: seq<V>)
    ensures |vs| <= |items|
    ensures k !in Keys(items) ==> vs == []
  {
    if items == [] then []
    else
      var init := Members(items[..|items| - 1], k);
      var last := items[|items| - 1];
      assert Keys(items) == Keys(items[..|items| - 1]) + [last.0];
      if last.0 == k then init + [last.1] else init
  }

  lemma KeysAppend<K, V>(items: seq<(K, V)>, x: (K, V))
    ensures Keys(items + [x]) == Keys(items) + [x.0]
  {
    assert (items + [x])[..|items|] == items;
  }

  lemma MembersAppend<K, V>(items: seq<(K, V)>, x: (K, V), k: K)
    ensures Members(items + [x], k) == Members(items, k) + (if x.0 == k then [x.1] else [])
  {
    assert (items + [x])[..|items|] == items;
  }

  /** The position of the group with key `k`, or `|groups|` when there is none. */
  function GroupPosition<K(==), V>(groups: seq<(K, V)>, k: K): (g: nat)
    ensures g <= |groups|
    ensures g < |groups| ==> groups[g].0 == k
    ensures g == |groups| ==> forall h :: 0 <= h < |groups| ==> groups[h].0 != k
  {
    if groups == [] then 0
    else if groups[0].0 == k then 0
    else 1 + GroupPosition(groups[1..], k)
  }

  /** `groups` is the grouping of `items` by key, in order of first appearance. */
  ghost predicate IsGrouping<K, V>(groups: seq<(K, seq<V>)>, items: seq<(K, V)>)
  {
    && |groups| == |Distinct(Keys(items))|
    && forall g :: 0 <= g < |groups| ==>
         groups[g].0 == Distinct(Keys(items))[g] && groups[g].1 == Members(items, groups[g].0)
  }

  lemma GroupingNewKey<K, V>(groups: seq<(K, seq<V>)>, items: seq<(K, V)>, k: K, v: V)
    requires IsGrouping(groups, items)
    requires forall h :: 0 <= h < |groups| ==> groups[h].0 != k
    ensures IsGrouping(groups + [(k, [v])], items + [(k, v)])
  {
    var d := Distinct(Keys(items));
    KeysAppend(items, (k, v));
    assert k !in d;
    assert Distinct(Keys(items + [(k, v)])) == d + [k];
    forall k' ensures Members(items + [(k, v)], k') == Members(items, k') + (if k == k' then [v] else []) {
      MembersAppend(items, (k, v), k');
    }
  }

  lemma GroupingOldKey<K, V>(groups: seq<(K, seq<V>)>, items: seq<(K, V)>, g: nat, k: K, v: V)
    requires IsGrouping(groups, items)
    requires g < |groups| && groups[g].0 == k
    ensures IsGrouping(groups[g := (k, groups[g].1 + [v])], items + [(k, v)])
  {
    var d := Distinct(Keys(items));
    KeysAppend(items, (k, v));
    assert k in d;
    assert Distinct(Keys(items + [(k, v)])) == d;
    forall k' ensures Members(items + [(k, v)], k') == Members(items, k') + (if k == k' then [v] else []) {
      MembersAppend(items, (k, v), k');
    }
  }

  /**
   * Groups the items by key. There is one group per distinct key, the groups
   * come in order of each key's first appearance, and a group holds the values
   * of exactly the items with its key, in their original order.
   */
  method GroupInOrder<K(==), V>(items: seq<(K, V)>) returns (groups: seq<(K, seq<V>)>)
    ensures |groups| == |Distinct(Keys(items))|
    ensures forall g :: 0 <= g < |groups| ==>
              groups[g].0 == Distinct(Keys(items))[g] && groups[g].1 == Members(items, groups[g].0)
  {
    groups := [];
    var i := 0;
    while i < |items|
      invariant 0 <= i <= |items|
      invariant IsGrouping(groups, items[..i])
    {
      var (k, v) := items[i];
      assert items[..i + 1] == items[..i] + [(k, v)];
      var g := GroupPosition(groups, k);
      if g == |groups| {
        GroupingNewKey(groups, items[..i], k, v);
        groups := groups + [(k, [v])];
      } else {
        GroupingOldKey(groups, items[..i], g, k, v);
        groups := groups[g := (k, groups[g].1 + [v])];
      }
      i := i + 1;
    }
    assert items[..i] == items;
  }

  /** The summed size of the groups whose keys are `ks`. */
  function TotalMembers<K(==), V>(items: seq<(K, V)>, ks: seq<K>): nat
  {
    if ks == [] then 0 else |Members(items, ks[0])| + TotalMembers(items, ks[1..])
  }

  lemma {:induction false} TotalMembersAppendItem<K, V>(items: seq<(K, V)>, x: (K, V), ks: seq<K>)
    requires NoDuplicates(ks)
    ensures TotalMembers(items + [x], ks) == TotalMembers(items, ks) + (if x.0 in ks then 1 else 0)
  {
    assert (items + [x])[..|items|] == items;
    if ks != [] {
      TotalMembersAppendItem(items, x, ks[1..]);
      assert x.0 in ks <==> x.0 == ks[0] || x.0 in ks[1..];
    }
  }

  lemma {:induction false} TotalMembersAppendKey<K, V>(items: seq<(K, V)>, ks: seq<K>, k: K)
    ensures TotalMembers(items, ks + [k]) == TotalMembers(items, ks) + |Members(items, k)|
  {
    if ks != [] {
      assert (ks + [k])[1..] == ks[1..] + [k];
      TotalMembersAppendKey(items, ks[1..], k);
    }
  }

  /** Every item lands in exactly one group: the group sizes add up to the number of items. */
  lemma {:induction false} GroupsCoverItems<K, V>(items: seq<(K, V)>)
    ensures TotalMembers(items, Distinct(Keys(items))) == |items|
  {
    if items != [] {
      var p, x := items[..|items| - 1], items[|items| - 1];
      assert items == p + [x];
      GroupsCoverItems(p);
      var dp := Distinct(Keys(p));
      TotalMembersAppendItem(p, x, dp);
      if x.0 !in dp {
        TotalMembersAppendKey(items, dp, x.0);
        TotalMembersAppendItem(p, x, dp);
        assert Members(p, x.0) == [];
      }
    }
  }

  lemma {:induction false} MembersBelow<K, V>(items: seq<(K, V)>, k: K, rel: (V, V) -> bool, y: V)
    requires forall q :: 0 <= q < |items| && items[q].0 == k ==> rel(items[q].1, y)
    ensures forall i :: 0 <= i < |Members(items, k)| ==> rel(Members(items, k)[i], y)
  {
    if items != [] {
      MembersBelow(items[..|items| - 1], k, rel, y);
    }
  }

  /**
   * A group keeps the relative order of its items: an order that items with
   * the same key obey holds within their group.
   */
  lemma {:induction false} MembersKeepOrder<K, V>(items: seq<(K, V)>, k: K, rel: (V, V) -> bool)
    requires forall p, q :: 0 <= p < q < |items| && items[p].0 == items[q].0 ==> rel(items[p].1, items[q].1)
    ensures forall i, j :: 0 <= i < j < |Members(items, k)| ==>
              rel(Members(items, k)[i], Members(items, k)[j])
  {
    if items != [] {
      var p, x := items[..|items| - 1], items[|items| - 1];
      MembersKeepOrder(p, k, rel);
      if x.0 == k {
        MembersBelow(p, k, rel, x.1);
      }
    }
  }

  /** Every value in a group comes from an item with the group's key. */
  lemma {:induction false} MembersFromItems<K, V>(items: seq<(K, V)>, k: K)
    ensures forall i :: 0 <= i < |Members(items, k)| ==> (k, Members(items, k)[i]) in items
  {
    if items != [] {
      var p := items[..|items| - 1];
      MembersFromItems(p, k);
      assert forall i :: 0 <= i < |p| ==> p[i] == items[i];
    }
  }

  /** A key that occurs has a non-empty group. */
  lemma {:induction false} MembersOfKey<K, V>(items: seq<(K, V)>, k: K)
    requires k in Keys(items)
    ensures |Members(items, k)| >= 1
  {
    var p := items[..|items| - 1];
    if items[|items| - 1].0 != k {
      assert k in Keys(p);
      MembersOfKey(p, k);
    }
  }

  /** When the keys come in an order `le`, so do the distinct keys, each once. */
  lemma DistinctOfOrdered<K>(ks: seq<K>, le: (K, K) -> bool)
    requires forall i, j :: 0 <= i < j < |ks| ==> le(ks[i], ks[j])
    ensures forall i, j :: 0 <= i < j < |Distinct(ks)| ==>
              le(Distinct(ks)[i], Distinct(ks)[j]) && Distinct(ks)[i] != Distinct(ks)[j]
  {
    var d := Distinct(ks);
    DistinctFirstOccurrenceOrder(ks);
    forall i, j | 0 <= i < j < |d| ensures le(d[i], d[j]) {
      var a, b := FirstIndex(ks, d[i]), FirstIndex(ks, d[j]);
      assert a < b;
      assert le(ks[a], ks[b]);
    }
  }

  /** A value at two positions of a list occurs in it at least twice. */
  lemma TwiceInSeq<T>(xs: seq<T>, p: nat, q: nat)
    requires p < q < |xs|
    ensures xs[p] == xs[q] ==> multiset(xs)[xs[p]] >= 2
  {
    assert xs == xs[..q] + xs[q..];
    assert xs[p] in xs[..q] && xs[q] in xs[q..];
  }
}
