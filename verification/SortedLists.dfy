/** Lists kept sorted by a key with `bisect`: lookup, insertion and deletion against a map of their contents. */
module SortedLists {
  import opened Wrappers
  import opened Collections
  import opened Sorting

  ghost predicate SortedBy<T(!new), K(!new)>(less: (K, K) -> bool, key: T -> K, s: seq<T>) {
    forall i, j :: 0 <= i < j < |s| ==> less(key(s[i]), key(s[j]))
  }

  /** `bisect_left` */
  function Bisect<T, K>(less: (K, K) -> bool, key: T -> K, s: seq<T>, k: K): (i: nat)
    ensures i <= |s| && (forall j :: 0 <= j < i ==> less(key(s[j]), k)) && (i < |s| ==> !less(key(s[i]), k))
  {
    if s == [] || !less(key(s[0]), k) then 0 else 1 + Bisect(less, key, s[1..], k)
  }

  /** The element at the bisection point, when it carries the key. */
  function Find<T, K(==)>(less: (K, K) -> bool, key: T -> K, s: seq<T>, k: K): (r: Option<T>)
    ensures r.Some? ==> r.value in s && key(r.value) == k
  {
    var i := Bisect(less, key, s, k);
    if i < |s| && key(s[i]) == k then Some(s[i]) else None
  }

  /** `insort` */
  function Insert<T, K>(less: (K, K) -> bool, key: T -> K, s: seq<T>, x: T): seq<T> {
    var i := Bisect(less, key, s, key(x));
    s[..i] + [x] + s[i..]
  }

  /** `del s[i]` at the bisection point, when it carries the key. */
  function Delete<T, K(==)>(less: (K, K) -> bool, key: T -> K, s: seq<T>, k: K): seq<T> {
    var i := Bisect(less, key, s, k);
    if i < |s| && key(s[i]) == k then s[..i] + s[i + 1..] else s
  }

  /** `s` is the sorted listing of `contents`. */
  ghost predicate Lists<T(!new), K(!new)>(less: (K, K) -> bool, key: T -> K, s: seq<T>, contents: map<K, T>) {
    && SortedBy(less, key, s)
    && (forall x :: x in s <==> key(x) in contents && contents[key(x)] == x)
    && (forall k :: k in contents ==> key(contents[k]) == k)
  }

  lemma {:induction false} BisectFinds<T(!new), K(!new)>(less: (K, K) -> bool, key: T -> K, s: seq<T>, m: nat)
    requires StrictTotalOrder(less) && SortedBy(less, key, s) && m < |s|
    ensures Bisect(less, key, s, key(s[m])) == m
  {
    var i := Bisect(less, key, s, key(s[m]));
    assert !less(key(s[m]), key(s[m]));
  }

  lemma {:induction false} FindLists<T(!new), K(!new)>(less: (K, K) -> bool, key: T -> K, s: seq<T>,
          contents: map<K, T>, k: K)
    requires StrictTotalOrder(less) && Lists(less, key, s, contents)
    ensures Find(less, key, s, k) == if k in contents then Some(contents[k]) else None
  {
    if k in contents {
      var x := contents[k];
      assert x in s;
      var m :| 0 <= m < |s| && s[m] == x;
      BisectFinds(less, key, s, m);
    }
  }

  lemma {:induction false} InsertLists<T(!new), K(!new)>(less: (K, K) -> bool, key: T -> K, s: seq<T>,
          contents: map<K, T>, x: T)
    requires StrictTotalOrder(less) && Lists(less, key, s, contents) && key(x) !in contents
    ensures Lists(less, key, Insert(less, key, s, x), contents[key(x) := x])
  {
    var i, r := Bisect(less, key, s, key(x)), Insert(less, key, s, x);
    InsertBetween(less, key, s, contents, x);
    forall y ensures y in r <==> y == x || y in s {
      assert s == s[..i] + s[i..];
    }
    assert forall y :: y in s ==> key(y) != key(x);
  }

  lemma {:induction false} InsertBetween<T(!new), K(!new)>(less: (K, K) -> bool, key: T -> K, s: seq<T>,
          contents: map<K, T>, x: T)
    requires StrictTotalOrder(less) && Lists(less, key, s, contents) && key(x) !in contents
    ensures SortedBy(less, key, Insert(less, key, s, x))
  {
    var i := Bisect(less, key, s, key(x));
    forall j | i <= j < |s| ensures less(key(x), key(s[j])) {
      assert s[j] in s && s[i] in s;
      assert i < j ==> less(key(s[i]), key(s[j]));
    }
    InsertSorted(less, key, s, i, x);
  }

  lemma {:induction false} InsertSorted<T(!new), K(!new)>(less: (K, K) -> bool, key: T -> K, s: seq<T>, i: nat, x: T)
    requires SortedBy(less, key, s) && i <= |s|
    requires forall j :: 0 <= j < i ==> less(key(s[j]), key(x))
    requires forall j :: i <= j < |s| ==> less(key(x), key(s[j]))
    ensures SortedBy(less, key, s[..i] + [x] + s[i..])
  {
    var r := s[..i] + [x] + s[i..];
    assert forall a :: 0 <= a < i ==> r[a] == s[a];
    assert r[i] == x && forall a :: i < a < |r| ==> r[a] == s[a - 1];
  }

  lemma {:induction false} DeleteLists<T(!new), K(!new)>(less: (K, K) -> bool, key: T -> K, s: seq<T>,
          contents: map<K, T>, k: K)
    requires StrictTotalOrder(less) && Lists(less, key, s, contents)
    ensures Lists(less, key, Delete(less, key, s, k), contents - {k})
  {
    FindLists(less, key, s, contents, k);
    if k in contents {
      var i, r := Bisect(less, key, s, k), Delete(less, key, s, k);
      DeletedSorted(less, key, s, i);
      forall y ensures y in r <==> y in s && key(y) != k {
        DeletedMembers(less, key, s, i, y);
      }
    }
  }

  lemma {:induction false} DeletedSorted<T(!new), K(!new)>(less: (K, K) -> bool, key: T -> K, s: seq<T>, i: nat)
    requires SortedBy(less, key, s) && i < |s|
    ensures SortedBy(less, key, s[..i] + s[i + 1..])
  {
    var r := s[..i] + s[i + 1..];
    forall a, b | 0 <= a < b < |r| ensures less(key(r[a]), key(r[b])) {
      assert r[a] == s[if a < i then a else a + 1] && r[b] == s[if b < i then b else b + 1];
    }
  }

  lemma {:induction false} DeletedMembers<T(!new), K(!new)>(less: (K, K) -> bool, key: T -> K, s: seq<T>, i: nat, y: T)
    requires StrictTotalOrder(less) && SortedBy(less, key, s) && i < |s|
    ensures y in s[..i] + s[i + 1..] <==> y in s && key(y) != key(s[i])
  {
    var r := s[..i] + s[i + 1..];
    if y in r {
      var a :| 0 <= a < |r| && r[a] == y;
      assert r[a] == s[if a < i then a else a + 1];
    }
    if y in s && key(y) != key(s[i]) {
      var a :| 0 <= a < |s| && s[a] == y;
      assert r[if a < i then a else a - 1] == y;
    }
  }

  /** Two sorted listings of the same contents are the same list. */
  lemma {:induction false} ListsUnique<T(!new), K(!new)>(less: (K, K) -> bool, key: T -> K, a: seq<T>, b: seq<T>,
          contents: map<K, T>)
    requires StrictTotalOrder(less) && Lists(less, key, a, contents) && Lists(less, key, b, contents)
    ensures a == b
  {
    var order := (x: T, y: T) => less(key(x), key(y));
    assert Sorted(order, a) && Sorted(order, b) && StrictOrder(order);
    SortedUnique(order, a, b);
  }

  lemma {:induction false} ListsLength<T(!new), K(!new)>(less: (K, K) -> bool, key: T -> K, s: seq<T>,
          contents: map<K, T>)
    requires StrictTotalOrder(less) && Lists(less, key, s, contents)
    ensures |s| == |contents|
    decreases |s|
  {
    if s != [] {
      var k := key(s[0]);
      assert s[0] in s && Bisect(less, key, s, k) == 0;
      DeleteLists(less, key, s, contents, k);
      assert Delete(less, key, s, k) == s[1..];
      ListsLength(less, key, s[1..], contents - {k});
      assert contents.Keys == (contents - {k}).Keys + {k};
    }
  }

  /** Selecting by key from a listing lists the selected contents. */
  lemma {:induction false} FilterLists<T(!new), K(!new)>(less: (K, K) -> bool, key: T -> K, s: seq<T>,
          contents: map<K, T>, p: T -> bool, selected: map<K, T>)
    requires Lists(less, key, s, contents)
    requires forall x :: key(x) in selected && selected[key(x)] == x <==>
              key(x) in contents && contents[key(x)] == x && p(x)
    requires forall k :: k in selected ==> key(selected[k]) == k
    ensures Lists(less, key, Filter(s, p), selected)
  {
    var order := (x: T, y: T) => less(key(x), key(y));
    assert Sorted(order, s);
    FilterSorted(order, s, p);
    var r := Filter(s, p);
    assert forall i, j :: 0 <= i < j < |r| ==> order(r[i], r[j]);
  }
}
