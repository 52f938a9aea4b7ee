/** Sorted duplicate-free sequences over a strict total order: uniqueness, sorting, bisection. */
module Sorting {
  import opened Collections

  ghost predicate StrictTotalOrder<T(!new)>(less: (T, T) -> bool) {
    && (forall x :: !less(x, x))
    && (forall x, y :: x != y ==> less(x, y) || less(y, x))
    && (forall x, y, z :: less(x, y) && less(y, z) ==> less(x, z))
  }

  ghost predicate StrictOrder<T(!new)>(less: (T, T) -> bool) {
    (forall x :: !less(x, x)) && (forall x, y, z :: less(x, y) && less(y, z) ==> less(x, z))
  }

  ghost predicate TotalOn<T(!new)>(less: (T, T) -> bool, s: set<T>) {
    forall x, y :: x in s && y in s && x != y ==> less(x, y) || less(y, x)
  }

  ghost predicate Sorted<T(!new)>(less: (T, T) -> bool, s: seq<T>) {
    forall i, j :: 0 <= i < j < |s| ==> less(s[i], s[j])
  }

  lemma {:induction false} SortedTail<T(!new)>(less: (T, T) -> bool, s: seq<T>)
    requires Sorted(less, s) && s != []
    ensures Sorted(less, s[1..]) && forall x :: x in s[1..] ==> less(s[0], x)
  {
  }

  /** A strictly sorted listing of a collection is unique. */
  lemma {:induction false} SortedUnique<T(!new)>(less: (T, T) -> bool, a: seq<T>, b: seq<T>)
    requires StrictOrder(less) && Sorted(less, a) && Sorted(less, b)
    requires forall x :: x in a <==> x in b
    ensures a == b
    decreases |a|
  {
    SameEmptiness(a, b);
    SameEmptiness(b, a);
    if a != [] {
      SortedTail(less, a);
      SortedTail(less, b);
      assert a[0] in b && b[0] in a;
      assert a[0] == b[0];
      forall x ensures x in a[1..] <==> x in b[1..] {
        assert x in a[1..] ==> x in a && x != a[0];
        assert x in b[1..] ==> x in b && x != b[0];
      }
      SortedUnique(less, a[1..], b[1..]);
    }
  }

  lemma {:induction false} FilterSorted<T(!new)>(less: (T, T) -> bool, s: seq<T>, p: T -> bool)
    requires Sorted(less, s)
    ensures Sorted(less, Filter(s, p))
  {
    if s != [] {
      SortedTail(less, s);
      FilterSorted(less, s[1..], p);
      assert forall x :: x in Filter(s[1..], p) ==> less(s[0], x);
    }
  }

  lemma {:induction false} HasLeast<T(!new)>(less: (T, T) -> bool, s: set<T>)
    requires StrictOrder(less) && TotalOn(less, s) && s != {}
    ensures exists m :: m in s && forall x :: x in s && x != m ==> less(m, x)
  {
    var a :| a in s;
    if s == {a} {
    } else {
      var rest := s - {a};
      assert rest != {} by { assert s == rest + {a}; }
      HasLeast(less, rest);
      var m :| m in rest && forall x :: x in rest && x != m ==> less(m, x);
      var least := if less(a, m) then a else m;
      assert forall x :: x in s && x != least ==> less(least, x) by {
        assert forall x :: x in s ==> x == a || x in rest;
      }
      assert least in s;
    }
  }

  /** `sorted(...)` of a set. */
  function SortSet<T(!new,==)>(less: (T, T) -> bool, s: set<T>): (r: seq<T>)
    requires StrictOrder(less) && TotalOn(less, s)
    ensures Sorted(less, r) && forall x :: x in r <==> x in s
    decreases |s|
  {
    if s == {} then [] else
      HasLeast(less, s);
      var m :| m in s && forall x :: x in s && x != m ==> less(m, x);
      var rest := SortSet(less, s - {m});
      [m] + rest
  }
}
