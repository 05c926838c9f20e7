/**
 * The sequence operators the controller's query chains are built from,
 * with the meaning LINQ gives them: `Where` keeps order, `GroupBy` forms
 * one group per distinct key in order of first occurrence, `Max` and `Sum`
 * aggregate a selector over a group. An inner join with a lookup that may
 * fail is `Collect`.
 */
module Linq {

  datatype Option<T> = None | Some(value: T)

  /** No two elements of `s` share a key (a primary key or a unique index). */
  predicate UniqueBy<T, K(==)>(s: seq<T>, key: T -> K) {
    forall i, j :: 0 <= i < j < |s| ==> key(s[i]) != key(s[j])
  }

  /** Under a unique key, the element found for an element's own key is that element. */
  lemma {:induction false} FindByUniqueKey<T, K>(s: seq<T>, key: T -> K, x: T, y: T)
    requires UniqueBy(s, key)
    requires x in s && y in s && key(x) == key(y)
    ensures x == y
  {
    var i :| 0 <= i < |s| && s[i] == x;
    var j :| 0 <= j < |s| && s[j] == y;
    assert i == j;
  }

  /** The elements of `s` that satisfy `p`, in their original order. */
  function Where<T>(s: seq<T>, p: T -> bool): (r: seq<T>)
    ensures |r| <= |s|
    ensures forall x :: x in r ==> x in s && p(x)
    ensures forall x :: x in s && p(x) ==> x in r
  {
    if s == [] then []
    else
      var x := s[|s| - 1];
      assert s == s[..|s| - 1] + [x];
      Where(s[..|s| - 1], p) + (if p(x) then [x] else [])
  }

  /** Filtering never introduces a duplicate key. */
  lemma {:induction false} WhereUnique<T, K>(s: seq<T>, p: T -> bool, key: T -> K)
    requires UniqueBy(s, key)
    ensures UniqueBy(Where(s, p), key)
  {
    if s != [] {
      var init, x := s[..|s| - 1], s[|s| - 1];
      assert UniqueBy(init, key);
      WhereUnique(init, p, key);
      var w := Where(init, p);
      forall y | y in w ensures key(y) != key(x) {
        var j :| 0 <= j < |init| && init[j] == y;
        assert s[j] == y;
      }
    }
  }

  /** `f` applied to every element of `s`, position by position. */
  function Select<T, U>(s: seq<T>, f: T --> U): (r: seq<U>)
    requires forall x :: x in s ==> f.requires(x)
    ensures |r| == |s|
    ensures forall i :: 0 <= i < |s| ==> r[i] == f(s[i])
    ensures forall y :: y in r ==> exists x :: x in s && y == f(x)
    ensures forall x :: x in s ==> f(x) in r
  {
    seq(|s|, i requires 0 <= i < |s| => f(s[i]))
  }

  lemma SelectPair<T, U>(x: T, y: T, f: T -> U)
    ensures Select([x, y], f) == [f(x), f(y)]
  {
  }

  /** The values `f` finds for the elements of `s`, dropping those it finds none
      for: the inner join of `s` with the lookup `f`. */
  function Collect<T, U>(s: seq<T>, f: T -> Option<U>): (r: seq<U>)
    ensures |r| <= |s|
    ensures forall y :: y in r ==> exists x :: x in s && f(x) == Some(y)
    ensures forall x :: x in s && f(x).Some? ==> f(x).value in r
  {
    if s == [] then []
    else
      var x := s[|s| - 1];
      assert s == s[..|s| - 1] + [x];
      Collect(s[..|s| - 1], f) + (match f(x) case Some(y) => [y] case None => [])
  }

  /** The first element of `s` satisfying `p`, if any. */
  function Find<T>(s: seq<T>, p: T -> bool): (r: Option<T>)
    ensures r.Some? <==> exists x :: x in s && p(x)
    ensures r.Some? ==> r.value in s && p(r.value)
  {
    if s == [] then None
    else if p(s[0]) then Some(s[0])
    else Find(s[1..], p)
  }

  /** The elements of `s` whose key is `k`, in their original order. */
  function WithKey<T, K(==)>(s: seq<T>, key: T -> K, k: K): (r: seq<T>)
    ensures forall x :: x in r ==> x in s && key(x) == k
    ensures forall x :: x in s && key(x) == k ==> x in r
  {
    if s == [] then []
    else
      var x := s[|s| - 1];
      assert s == s[..|s| - 1] + [x];
      WithKey(s[..|s| - 1], key, k) + (if key(x) == k then [x] else [])
  }

  // Each operator defined by recursion on the last element extends by one element at the end.

  lemma WhereSnoc<T>(s: seq<T>, x: T, p: T -> bool)
    ensures Where(s + [x], p) == Where(s, p) + (if p(x) then [x] else [])
  {
    assert (s + [x])[..|s|] == s;
  }

  lemma CollectSnoc<T, U>(s: seq<T>, x: T, f: T -> Option<U>)
    ensures Collect(s + [x], f) == Collect(s, f) + (match f(x) case Some(y) => [y] case None => [])
  {
    assert (s + [x])[..|s|] == s;
  }

  /** A lookup that finds nothing for any element joins to nothing. */
  lemma {:induction false} CollectNone<T, U>(s: seq<T>, f: T -> Option<U>)
    requires forall x :: x in s ==> f(x).None?
    ensures Collect(s, f) == []
  {
    if s != [] {
      var init, x := s[..|s| - 1], s[|s| - 1];
      assert s == init + [x];
      CollectNone(init, f);
      CollectSnoc(init, x, f);
    }
  }

  lemma WithKeySnoc<T, K>(s: seq<T>, x: T, key: T -> K, k: K)
    ensures WithKey(s + [x], key, k) == WithKey(s, key, k) + (if key(x) == k then [x] else [])
  {
    assert (s + [x])[..|s|] == s;
  }

  lemma SumSnoc<T>(s: seq<T>, x: T, f: T -> int)
    ensures Sum(s + [x], f) == Sum(s, f) + f(x)
  {
    assert (s + [x])[..|s|] == s;
  }

  /** Summing over one key's elements: one more element adds its value exactly when it has the key. */
  lemma WithKeySumSnoc<T, K>(s: seq<T>, x: T, key: T -> K, k: K, f: T -> int)
    ensures Sum(WithKey(s + [x], key, k), f) == Sum(WithKey(s, key, k), f) + (if key(x) == k then f(x) else 0)
  {
    WithKeySnoc(s, x, key, k);
    if key(x) == k {
      SumSnoc(WithKey(s, key, k), x, f);
    } else {
      assert WithKey(s + [x], key, k) == WithKey(s, key, k);
    }
  }

  /** Summing after appending at most one element. */
  lemma SumAppend<T>(s: seq<T>, extra: seq<T>, f: T -> int)
    requires |extra| <= 1
    ensures Sum(s + extra, f) == Sum(s, f) + (if extra != [] then f(extra[0]) else 0)
  {
    if extra == [] {
      assert s + extra == s;
    } else {
      assert extra == [extra[0]];
      SumSnoc(s, extra[0], f);
    }
  }

  /** Summing over one key's elements after appending at most one element. */
  lemma WithKeySumAppend<T, K>(s: seq<T>, extra: seq<T>, key: T -> K, k: K, f: T -> int)
    requires |extra| <= 1
    ensures Sum(WithKey(s + extra, key, k), f) ==
      Sum(WithKey(s, key, k), f) + (if extra != [] && key(extra[0]) == k then f(extra[0]) else 0)
  {
    if extra == [] {
      assert s + extra == s;
    } else {
      assert extra == [extra[0]];
      WithKeySumSnoc(s, extra[0], key, k, f);
    }
  }

  /** One group of `GroupBy`: its key and its elements in order. */
  datatype Grouping<K, T> = Grouping(key: K, elements: seq<T>)

  predicate DistinctKeys<K(==), T>(gs: seq<Grouping<K, T>>) {
    forall i, j :: 0 <= i < j < |gs| ==> gs[i].key != gs[j].key
  }

  predicate HasKey<K(==), T>(gs: seq<Grouping<K, T>>, k: K) {
    exists i :: 0 <= i < |gs| && gs[i].key == k
  }

  lemma HasKeyCons<K(!new), T>(g: Grouping<K, T>, gs: seq<Grouping<K, T>>)
    ensures forall k :: HasKey([g] + gs, k) <==> g.key == k || HasKey(gs, k)
  {
    assert ([g] + gs)[0] == g;
    forall k | HasKey(gs, k) ensures HasKey([g] + gs, k) {
      var i :| 0 <= i < |gs| && gs[i].key == k;
      assert ([g] + gs)[i + 1] == gs[i];
    }
    forall k | HasKey([g] + gs, k) && g.key != k ensures HasKey(gs, k) {
      var i :| 0 <= i < |gs| + 1 && ([g] + gs)[i].key == k;
      assert gs[i - 1] == ([g] + gs)[i];
    }
  }

  /** The elements of the first group whose key is `k`; none if there is no such group. */
  function ElementsOf<K(==), T>(gs: seq<Grouping<K, T>>, k: K): seq<T> {
    if gs == [] then []
    else if gs[0].key == k then gs[0].elements
    else ElementsOf(gs[1..], k)
  }

  /** Adds `x` to the group of its key, opening a new group at the end if there is none. */
  function Insert<K(==,!new), T>(gs: seq<Grouping<K, T>>, x: T, key: T -> K): (r: seq<Grouping<K, T>>)
    ensures forall k :: HasKey(r, k) <==> HasKey(gs, k) || k == key(x)
    ensures forall k :: ElementsOf(r, k) == ElementsOf(gs, k) + (if k == key(x) then [x] else [])
    ensures DistinctKeys(gs) ==> DistinctKeys(r)
  {
    if gs == [] then
      var r := [Grouping(key(x), [x])];
      assert r[0].key == key(x);
      r
    else if gs[0].key == key(x) then
      var r := [Grouping(gs[0].key, gs[0].elements + [x])] + gs[1..];
      assert gs == [gs[0]] + gs[1..];
      assert r[1..] == gs[1..];
      assert |r| == |gs| && forall i :: 0 <= i < |r| ==> r[i].key == gs[i].key;
      r
    else
      var rest := Insert(gs[1..], x, key);
      var r := [gs[0]] + rest;
      assert gs == [gs[0]] + gs[1..];
      assert r[1..] == rest;
      HasKeyCons(gs[0], gs[1..]);
      HasKeyCons(gs[0], rest);
      assert DistinctKeys(gs) ==> !HasKey(gs[1..], gs[0].key) by {
        if DistinctKeys(gs) {
          forall j | 0 <= j < |gs[1..]| ensures gs[1..][j].key != gs[0].key {
            assert gs[1..][j] == gs[j + 1];
          }
        }
      }
      assert DistinctKeys(gs) ==> forall j :: 0 < j < |r| ==> r[j].key != r[0].key by {
        if DistinctKeys(gs) {
          forall j | 0 < j < |r| ensures r[j].key != r[0].key {
            assert rest[j - 1] == r[j];
            assert HasKey(rest, r[j].key);
          }
        }
      }
      r
  }

  /** LINQ `GroupBy`: one group per distinct key, holding the elements with that key in order. */
  function GroupBy<T, K(==,!new)>(s: seq<T>, key: T -> K): (r: seq<Grouping<K, T>>)
    ensures DistinctKeys(r)
    ensures forall k :: HasKey(r, k) <==> exists x :: x in s && key(x) == k
    ensures forall k :: ElementsOf(r, k) == WithKey(s, key, k)
    ensures forall i :: 0 <= i < |r| ==> r[i].elements == WithKey(s, key, r[i].key) && r[i].elements != []
  {
    if s == [] then []
    else
      var x := s[|s| - 1];
      assert s == s[..|s| - 1] + [x];
      var r := Insert(GroupBy(s[..|s| - 1], key), x, key);
      GroupsHoldTheirKeys(r, s, key);
      r
  }

  lemma GroupsHoldTheirKeys<T, K(!new)>(gs: seq<Grouping<K, T>>, s: seq<T>, key: T -> K)
    requires DistinctKeys(gs)
    requires forall k :: HasKey(gs, k) ==> exists x :: x in s && key(x) == k
    requires forall k :: ElementsOf(gs, k) == WithKey(s, key, k)
    ensures forall i :: 0 <= i < |gs| ==> gs[i].elements == WithKey(s, key, gs[i].key) && gs[i].elements != []
  {
    forall i | 0 <= i < |gs| ensures gs[i].elements == WithKey(s, key, gs[i].key) && gs[i].elements != [] {
      GroupElements(gs, i);
      assert HasKey(gs, gs[i].key);
      var x :| x in s && key(x) == gs[i].key;
      assert x in gs[i].elements;
    }
  }

  /** With distinct keys, each group holds exactly the elements recorded for its key. */
  lemma {:induction false} GroupElements<K, T>(gs: seq<Grouping<K, T>>, i: int)
    requires DistinctKeys(gs)
    requires 0 <= i < |gs|
    ensures gs[i].elements == ElementsOf(gs, gs[i].key)
  {
    if i > 0 {
      assert gs[0].key != gs[i].key;
      assert DistinctKeys(gs[1..]);
      GroupElements(gs[1..], i - 1);
    }
  }

  /** The largest value of `f` over a non-empty `s`. */
  function Max<T>(s: seq<T>, f: T -> int): (m: int)
    requires |s| > 0
    ensures exists x :: x in s && f(x) == m
    ensures forall x :: x in s ==> f(x) <= m
  {
    if |s| == 1 then f(s[0])
    else
      var x := s[|s| - 1];
      assert s == s[..|s| - 1] + [x];
      var m := Max(s[..|s| - 1], f);
      if f(x) > m then f(x) else m
  }

  /** The sum of `f` over `s`; zero for an empty `s`. */
  function Sum<T>(s: seq<T>, f: T -> int): (t: int)
    ensures (forall x :: x in s ==> f(x) > 0) ==> (t > 0 <==> s != [])
  {
    if s == [] then 0
    else
      var x := s[|s| - 1];
      assert s == s[..|s| - 1] + [x];
      Sum(s[..|s| - 1], f) + f(x)
  }

  lemma SumPair<T>(x: T, y: T, f: T -> int)
    ensures Sum([x], f) == f(x)
    ensures Sum([x, y], f) == f(x) + f(y)
  {
    assert [x][..0] == [];
    assert [x, y][..1] == [x];
  }

  /** The sum of `f` over the elements of every group. */
  function SumGroups<K, T>(gs: seq<Grouping<K, T>>, f: T -> int): int {
    if gs == [] then 0 else Sum(gs[0].elements, f) + SumGroups(gs[1..], f)
  }

  lemma {:induction false} SumGroupsSnoc<K, T>(gs: seq<Grouping<K, T>>, g: Grouping<K, T>, f: T -> int)
    ensures SumGroups(gs + [g], f) == SumGroups(gs, f) + Sum(g.elements, f)
  {
    if gs != [] {
      assert (gs + [g])[1..] == gs[1..] + [g];
      SumGroupsSnoc(gs[1..], g, f);
    } else {
      assert [g][1..] == [];
    }
  }

  lemma {:induction false} InsertSum<K(!new), T>(gs: seq<Grouping<K, T>>, x: T, key: T -> K, f: T -> int)
    ensures SumGroups(Insert(gs, x, key), f) == SumGroups(gs, f) + f(x)
  {
    if gs == [] {
      assert Sum([x], f) == Sum([], f) + f(x) by { assert [x][..0] == []; }
    } else if gs[0].key == key(x) {
      var e := gs[0].elements;
      assert (e + [x])[..|e|] == e;
      var r := Insert(gs, x, key);
      assert r[1..] == gs[1..];
    } else {
      InsertSum(gs[1..], x, key, f);
      var r := Insert(gs, x, key);
      assert r[1..] == Insert(gs[1..], x, key);
    }
  }

  /** Grouping partitions the elements: the group sums add up to the sum over all of `s`. */
  lemma {:induction false} GroupBySum<T, K(!new)>(s: seq<T>, key: T -> K, f: T -> int)
    ensures SumGroups(GroupBy(s, key), f) == Sum(s, f)
  {
    if s != [] {
      var init, x := s[..|s| - 1], s[|s| - 1];
      GroupBySum(init, key, f);
      InsertSum(GroupBy(init, key), x, key, f);
    }
  }
}
