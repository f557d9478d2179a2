/** `list.sort(key=...)`: a stable sort of items by a key, under a strict
    total order on keys. Items whose keys are equal keep their input
    order. */
module StableSort {

  /** less is a strict total order. */
  ghost predicate IsStrictTotal<K(!new)>(less: (K, K) -> bool) {
    && (forall x :: !less(x, x))
    && (forall x, y, z :: less(x, y) && less(y, z) ==> less(x, z))
    && (forall x, y :: x != y ==> less(x, y) || less(y, x))
  }

  /** Item x may stand before item y: y's key is not below x's. */
  predicate InOrder<T, K>(key: T -> K, less: (K, K) -> bool, x: T, y: T) {
    !less(key(y), key(x))
  }

  predicate Sorted<T, K>(s: seq<T>, key: T -> K, less: (K, K) -> bool) {
    forall i, j :: 0 <= i < j < |s| ==> InOrder(key, less, s[i], s[j])
  }

  /** Under a strict total order on keys, InOrder is a total preorder on
      items. */
  lemma InOrderTotalPreorder<T, K(!new)>(key: T -> K, less: (K, K) -> bool)
    requires IsStrictTotal(less)
    ensures forall x, y :: InOrder(key, less, x, y) || InOrder(key, less, y, x)
    ensures forall x, y, z :: InOrder(key, less, x, y) && InOrder(key, less, y, z) ==> InOrder(key, less, x, z)
  {
  }

  lemma SortedCons<T, K>(h: T, t: seq<T>, key: T -> K, less: (K, K) -> bool)
    requires Sorted(t, key, less)
    requires forall y :: y in t ==> InOrder(key, less, h, y)
    ensures Sorted([h] + t, key, less)
  {
    var r := [h] + t;
    forall i, j | 0 <= i < j < |r|
      ensures InOrder(key, less, r[i], r[j])
    {
      assert r[j] == t[j - 1];
      if i > 0 {
        assert r[i] == t[i - 1];
      }
    }
  }

  /** Puts x before the first item whose key is not below x's, so before
      every item of equal key. */
  function Insert<T, K(!new)>(x: T, s: seq<T>, key: T -> K, less: (K, K) -> bool): (r: seq<T>)
    ensures multiset(r) == multiset(s) + multiset{x}
    ensures IsStrictTotal(less) && Sorted(s, key, less) ==> Sorted(r, key, less)
    decreases |s|
  {
    if s == [] then [x]
    else if InOrder(key, less, x, s[0]) then
      InsertFront(x, s, key, less);
      [x] + s
    else
      var t := Insert(x, s[1..], key, less);
      InsertBehind(x, s, t, key, less);
      [s[0]] + t
  }

  lemma InsertFront<T, K(!new)>(x: T, s: seq<T>, key: T -> K, less: (K, K) -> bool)
    requires s != [] && InOrder(key, less, x, s[0])
    ensures IsStrictTotal(less) && Sorted(s, key, less) ==> Sorted([x] + s, key, less)
  {
    if IsStrictTotal(less) && Sorted(s, key, less) {
      InOrderTotalPreorder(key, less);
      forall y | y in s
        ensures InOrder(key, less, x, y)
      {
        if y != s[0] {
          var j :| 0 <= j < |s| && s[j] == y;
          assert InOrder(key, less, s[0], s[j]);
        }
      }
      SortedCons(x, s, key, less);
    }
  }

  lemma InsertBehind<T, K(!new)>(x: T, s: seq<T>, t: seq<T>, key: T -> K, less: (K, K) -> bool)
    requires s != [] && !InOrder(key, less, x, s[0])
    requires multiset(t) == multiset(s[1..]) + multiset{x}
    requires IsStrictTotal(less) && Sorted(s[1..], key, less) ==> Sorted(t, key, less)
    ensures multiset([s[0]] + t) == multiset(s) + multiset{x}
    ensures IsStrictTotal(less) && Sorted(s, key, less) ==> Sorted([s[0]] + t, key, less)
  {
    assert s == [s[0]] + s[1..];
    if IsStrictTotal(less) && Sorted(s, key, less) {
      InOrderTotalPreorder(key, less);
      assert Sorted(s[1..], key, less);
      forall y | y in t
        ensures InOrder(key, less, s[0], y)
      {
        assert y in multiset(t);
        if y != x {
          assert y in s[1..];
          var j :| 0 <= j < |s[1..]| && s[1..][j] == y;
          assert InOrder(key, less, s[0], s[j + 1]);
        }
      }
      SortedCons(s[0], t, key, less);
    }
  }

  /** Insertion sort: each item, from the last to the first, is inserted
      into the sorted rest. */
  function Sort<T, K(!new)>(s: seq<T>, key: T -> K, less: (K, K) -> bool): (r: seq<T>)
    ensures multiset(r) == multiset(s)
    ensures IsStrictTotal(less) ==> Sorted(r, key, less)
    decreases |s|
  {
    if s == [] then []
    else
      assert s == [s[0]] + s[1..];
      Insert(s[0], Sort(s[1..], key, less), key, less)
  }

  /** The items of s whose key is k, in their order in s. */
  function WithKey<T, K(==)>(s: seq<T>, key: T -> K, k: K): seq<T>
    decreases |s|
  {
    if s == [] then []
    else (if key(s[0]) == k then [s[0]] else []) + WithKey(s[1..], key, k)
  }

  lemma WithKeyCons<T, K>(x: T, s: seq<T>, key: T -> K, k: K)
    ensures WithKey([x] + s, key, k) == (if key(x) == k then [x] else []) + WithKey(s, key, k)
  {
    assert ([x] + s)[1..] == s;
  }

  /** Inserting x adds it to the items of its key and changes no other
      key's items. */
  lemma {:induction false} InsertStable<T, K(!new)>(x: T, s: seq<T>, key: T -> K, less: (K, K) -> bool, k: K)
    requires IsStrictTotal(less)
    ensures WithKey(Insert(x, s, key, less), key, k) == (if key(x) == k then [x] else []) + WithKey(s, key, k)
    decreases |s|
  {
    if s != [] && !InOrder(key, less, x, s[0]) {
      InsertStable(x, s[1..], key, less, k);
      assert !less(key(s[0]), key(s[0]));
      StableBehind(x, s, key, less, k);
    } else if s != [] {
      WithKeyCons(x, s, key, k);
    }
  }

  lemma StableBehind<T, K(!new)>(x: T, s: seq<T>, key: T -> K, less: (K, K) -> bool, k: K)
    requires s != [] && !InOrder(key, less, x, s[0]) && !less(key(s[0]), key(s[0]))
    requires WithKey(Insert(x, s[1..], key, less), key, k) == (if key(x) == k then [x] else []) + WithKey(s[1..], key, k)
    ensures WithKey(Insert(x, s, key, less), key, k) == (if key(x) == k then [x] else []) + WithKey(s, key, k)
  {
    var t := Insert(x, s[1..], key, less);
    assert Insert(x, s, key, less) == [s[0]] + t;
    WithKeyCons(s[0], t, key, k);
    assert s == [s[0]] + s[1..];
    WithKeyCons(s[0], s[1..], key, k);
    var w := WithKey(s[1..], key, k);
    if key(x) == k {
      assert key(s[0]) != k;
      assert WithKey(s, key, k) == w;
    } else {
      assert WithKey(t, key, k) == w;
    }
  }

  /** The sort is stable: for every key, the items with that key come out
      in their input order. */
  lemma {:induction false} SortStable<T, K(!new)>(s: seq<T>, key: T -> K, less: (K, K) -> bool, k: K)
    requires IsStrictTotal(less)
    ensures WithKey(Sort(s, key, less), key, k) == WithKey(s, key, k)
    decreases |s|
  {
    if s != [] {
      InsertStable(s[0], Sort(s[1..], key, less), key, less, k);
      SortStable(s[1..], key, less, k);
    }
  }

  /** x is among the items of s exactly when it is among those of its
      own key. */
  lemma {:induction false} InWithKey<T, K>(x: T, s: seq<T>, key: T -> K)
    ensures x in s <==> x in WithKey(s, key, key(x))
    decreases |s|
  {
    if s != [] {
      InWithKey(x, s[1..], key);
      WithKeyCons(s[0], s[1..], key, key(x));
      assert s == [s[0]] + s[1..];
    }
  }

  /** The head of a sorted sequence may stand before any of its items. */
  lemma HeadFirst<T, K(!new)>(r: seq<T>, y: T, key: T -> K, less: (K, K) -> bool)
    requires IsStrictTotal(less) && Sorted(r, key, less)
    requires y in r
    ensures InOrder(key, less, r[0], y)
  {
    var j :| 0 <= j < |r| && r[j] == y;
    if j == 0 {
      assert !less(key(y), key(y));
    }
  }

  /** Two sorted sequences with the same items of every key start with
      items of the same key. */
  lemma SameHeadKey<T, K(!new)>(r1: seq<T>, r2: seq<T>, key: T -> K, less: (K, K) -> bool)
    requires IsStrictTotal(less) && Sorted(r1, key, less) && Sorted(r2, key, less)
    requires r1 != [] && r2 != []
    requires forall k :: WithKey(r1, key, k) == WithKey(r2, key, k)
    ensures key(r1[0]) == key(r2[0])
  {
    var x, y := r1[0], r2[0];
    InWithKey(y, r2, key);
    InWithKey(y, r1, key);
    InWithKey(x, r1, key);
    InWithKey(x, r2, key);
    HeadFirst(r1, y, key, less);
    HeadFirst(r2, x, key, less);
  }

  lemma SortedTail<T, K>(r: seq<T>, key: T -> K, less: (K, K) -> bool)
    requires r != [] && Sorted(r, key, less)
    ensures Sorted(r[1..], key, less)
  {
    forall i, j | 0 <= i < j < |r| - 1
      ensures InOrder(key, less, r[1..][i], r[1..][j])
    {
      assert r[1..][i] == r[i + 1] && r[1..][j] == r[j + 1];
    }
  }

  /** Two sequences whose heads agree and whose items of every key agree
      have tails whose items of every key agree. */
  lemma TailsAgree<T, K>(r1: seq<T>, r2: seq<T>, key: T -> K)
    requires r1 != [] && r2 != []
    requires forall k :: WithKey(r1, key, k) == WithKey(r2, key, k)
    requires key(r1[0]) == key(r2[0])
    ensures r1[0] == r2[0]
    ensures forall k :: WithKey(r1[1..], key, k) == WithKey(r2[1..], key, k)
  {
    assert r1 == [r1[0]] + r1[1..] && r2 == [r2[0]] + r2[1..];
    WithKeyCons(r1[0], r1[1..], key, key(r1[0]));
    WithKeyCons(r2[0], r2[1..], key, key(r1[0]));
    assert WithKey(r1, key, key(r1[0]))[0] == r1[0];
    forall k
      ensures WithKey(r1[1..], key, k) == WithKey(r2[1..], key, k)
    {
      WithKeyCons(r1[0], r1[1..], key, k);
      WithKeyCons(r2[0], r2[1..], key, k);
      var h := if key(r1[0]) == k then [r1[0]] else [];
      assert WithKey(r1, key, k) == h + WithKey(r1[1..], key, k);
      assert WithKey(r2, key, k) == h + WithKey(r2[1..], key, k);
      assert WithKey(r1[1..], key, k) == WithKey(r1, key, k)[|h|..];
    }
  }

  /** A sorted arrangement is determined by the order of each key's items:
      two sorted sequences that agree on the items of every key are equal.
      So every stable sort by the same key returns what Sort returns. */
  lemma {:induction false} SortedStableUnique<T, K(!new)>(r1: seq<T>, r2: seq<T>, key: T -> K, less: (K, K) -> bool)
    requires IsStrictTotal(less) && Sorted(r1, key, less) && Sorted(r2, key, less)
    requires forall k :: WithKey(r1, key, k) == WithKey(r2, key, k)
    ensures r1 == r2
    decreases |r1|
  {
    if r1 == [] && r2 != [] {
      InWithKey(r2[0], r2, key);
      assert false;
    } else if r1 != [] && r2 == [] {
      InWithKey(r1[0], r1, key);
      assert false;
    } else if r1 != [] {
      SameHeadKey(r1, r2, key, less);
      TailsAgree(r1, r2, key);
      SortedTail(r1, key, less);
      SortedTail(r2, key, less);
      SortedStableUnique(r1[1..], r2[1..], key, less);
      assert r1 == [r1[0]] + r1[1..] && r2 == [r2[0]] + r2[1..];
    }
  }

  lemma SortCons<T, K(!new)>(x: T, s: seq<T>, key: T -> K, less: (K, K) -> bool)
    ensures Sort([x] + s, key, less) == Insert(x, Sort(s, key, less), key, less)
  {
    assert ([x] + s)[1..] == s;
  }

  lemma InsertPast<T, K(!new)>(x: T, y: T, r: seq<T>, key: T -> K, less: (K, K) -> bool)
    requires less(key(y), key(x))
    ensures Insert(x, [y] + r, key, less) == [y] + Insert(x, r, key, less)
  {
    assert ([y] + r)[1..] == r;
  }

  lemma SortOne<T, K(!new)>(c: T, key: T -> K, less: (K, K) -> bool)
    ensures Sort([c], key, less) == [c]
  {
    assert [c][1..] == [];
  }

  lemma SortDescendingTwo<T, K(!new)>(b: T, c: T, key: T -> K, less: (K, K) -> bool)
    requires less(key(c), key(b))
    ensures Sort([b] + [c], key, less) == [c] + [b]
  {
    SortCons(b, [c], key, less);
    SortOne(c, key, less);
    InsertPast(b, c, [], key, less);
    assert [c] + [] == [c];
  }

  lemma InsertPastTwo<T, K(!new)>(a: T, b: T, c: T, key: T -> K, less: (K, K) -> bool)
    requires less(key(c), key(a)) && less(key(b), key(a))
    ensures Insert(a, [c] + [b], key, less) == [c] + ([b] + [a])
  {
    InsertPast(a, c, [b], key, less);
    InsertPast(a, b, [], key, less);
    assert [b] + [] == [b];
  }

  /** Three items given in strictly descending key order come out
      reversed. */
  lemma SortDescendingThree<T, K(!new)>(a: T, b: T, c: T, key: T -> K, less: (K, K) -> bool)
    requires less(key(c), key(b)) && less(key(c), key(a)) && less(key(b), key(a))
    ensures Sort([a] + ([b] + [c]), key, less) == [c] + ([b] + [a])
  {
    SortCons(a, [b] + [c], key, less);
    SortDescendingTwo(b, c, key, less);
    InsertPastTwo(a, b, c, key, less);
  }
}
