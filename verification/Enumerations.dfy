/** Go ranges over a map in an order of its own choosing. An enumeration is one such order. */
module Enumerations {

  predicate Distinct<T(==)>(s: seq<T>) {
    forall i, j | 0 <= i < j < |s| :: s[i] != s[j]
  }

  lemma {:induction false} DistinctOnce<T>(s: seq<T>, x: T)
    requires Distinct(s)
    ensures multiset(s)[x] == if x in s then 1 else 0
  {
    if s == [] {
    } else {
      var init := s[..|s| - 1];
      DistinctOnce(init, x);
      assert s == init + [s[|s| - 1]];
    }
  }

  ghost predicate Enumerates<T(!new)>(order: seq<T>, keys: set<T>) {
    (forall x :: x in order <==> x in keys) && Distinct(order)
  }

  /** The results of f along the order. */
  function Collect<K, V>(order: seq<K>, f: K -> seq<V>): seq<V> {
    if order == [] then [] else Collect(order[..|order| - 1], f) + f(order[|order| - 1])
  }

  lemma CollectLast<K, V>(order: seq<K>, f: K -> seq<V>)
    requires order != []
    ensures Collect(order, f) == Collect(order[..|order| - 1], f) + f(order[|order| - 1])
  {
  }

  lemma AppendToBoth<V>(whole: seq<V>, part: seq<V>, taken: seq<V>, last: seq<V>)
    requires multiset(whole) == multiset(part) + multiset(taken)
    ensures multiset(whole + last) == multiset(part + last) + multiset(taken)
  {
  }

  function Without<K>(order: seq<K>, i: nat): seq<K>
    requires i < |order|
  {
    order[..i] + order[i + 1..]
  }

  lemma WithoutEarlier<K>(order: seq<K>, i: nat)
    requires i < |order| - 1
    ensures var n, shorter := |order| - 1, Without(order, i);
      |shorter| == n && shorter[..n - 1] == Without(order[..n], i) && shorter[n - 1] == order[n]
  {
  }

  lemma WithoutLast<K>(order: seq<K>)
    requires order != []
    ensures Without(order, |order| - 1) == order[..|order| - 1]
  {
  }

  lemma {:induction false} CollectWithout<K, V>(order: seq<K>, i: nat, f: K -> seq<V>)
    requires i < |order|
    ensures multiset(Collect(order, f)) == multiset(Collect(Without(order, i), f)) + multiset(f(order[i]))
  {
    hide Without, Collect;
    var n := |order| - 1;
    CollectLast(order, f);
    if i == n {
      WithoutLast(order);
    } else {
      var shorter := Without(order, i);
      CollectWithout(order[..n], i, f);
      WithoutEarlier(order, i);
      CollectLast(shorter, f);
      AppendToBoth(Collect(order[..n], f), Collect(shorter[..n - 1], f), f(order[i]), f(order[n]));
    }
  }

  lemma EnumerationWithout<K(!new)>(order: seq<K>, keys: set<K>, i: nat)
    requires Enumerates(order, keys) && i < |order|
    ensures Enumerates(Without(order, i), keys - {order[i]})
  {
    var shorter := Without(order, i);
    forall x ensures x in shorter <==> x in keys - {order[i]} {
      if x in keys && x != order[i] {
        var j :| 0 <= j < |order| && order[j] == x;
        assert shorter[if j < i then j else j - 1] == x;
      }
    }
  }

  lemma HeadIsElement<K>(s: seq<K>)
    ensures s == [] || s[0] in s
  {
  }

  /** What is collected does not depend on the order, up to rearrangement. */
  lemma {:induction false} CollectAnyOrder<K(!new), V>(a: seq<K>, b: seq<K>, keys: set<K>, f: K -> seq<V>)
    requires Enumerates(a, keys) && Enumerates(b, keys)
    ensures multiset(Collect(a, f)) == multiset(Collect(b, f))
    decreases |a|
  {
    if a == [] {
      HeadIsElement(b);
    } else {
      var n := |a| - 1;
      assert a[n] in b;
      var i :| 0 <= i < |b| && b[i] == a[n];
      CollectWithout(b, i, f);
      EnumerationWithout(b, keys, i);
      EnumerationWithout(a, keys, n);
      WithoutLast(a);
      CollectAnyOrder(a[..n], Without(b, i), keys - {a[n]}, f);
    }
  }
}
