/** Order-preserving filtering of sequences. */
module Collections {
  function Filter<T(!new)>(s: seq<T>, p: T -> bool): (r: seq<T>)
    ensures forall x :: x in r <==> x in s && p(x)
    ensures |r| <= |s|
  {
    if s == [] then []
    else if p(s[0]) then [s[0]] + Filter(s[1..], p)
    else Filter(s[1..], p)
  }

  /** The positions `0..n`, in order. */
  function Positions(n: nat): (r: seq<nat>)
    ensures |r| == n && forall i :: 0 <= i < n ==> r[i] == i
  {
    seq(n, i requires 0 <= i < n => i)
  }

  ghost predicate Distinct<T(!new)>(s: seq<T>) {
    forall i, j :: 0 <= i < j < |s| ==> s[i] != s[j]
  }

  /** Duplicate-free listings of the same elements. */
  ghost predicate SameElements<T(!new)>(a: seq<T>, b: seq<T>) {
    Distinct(a) && Distinct(b) && forall x :: x in a <==> x in b
  }

  lemma {:induction false} SameEmptiness<T(!new)>(a: seq<T>, b: seq<T>)
    requires forall x :: x in a ==> x in b
    ensures a != [] ==> b != []
  {
    if |a| > 0 {
      assert a[0] in a;
    }
  }

  /** `a` is obtained from `b` by dropping elements. */
  ghost predicate Subsequence<T(!new)>(a: seq<T>, b: seq<T>)
    decreases |b|
  {
    a == [] || (b != [] && (if a[0] == b[0] then Subsequence(a[1..], b[1..]) else Subsequence(a, b[1..])))
  }

  /** Dropping the front of the longer sequence keeps a subsequence one. */
  lemma {:induction false} SubsequenceSkips<T(!new)>(a: seq<T>, b: seq<T>, x: T)
    requires Subsequence(a, b)
    ensures Subsequence(a, [x] + b)
    decreases |b|, 1
  {
    assert ([x] + b)[1..] == b;
    if a != [] && a[0] == x {
      SubsequenceTail(a, b);
    }
  }

  lemma {:induction false} SubsequenceTail<T(!new)>(a: seq<T>, b: seq<T>)
    requires Subsequence(a, b) && a != []
    ensures Subsequence(a[1..], b)
    decreases |b|, 0
  {
    if a[0] == b[0] {
      SubsequenceSkips(a[1..], b[1..], b[0]);
      assert [b[0]] + b[1..] == b;
    } else {
      SubsequenceTail(a, b[1..]);
      SubsequenceSkips(a[1..], b[1..], b[0]);
      assert [b[0]] + b[1..] == b;
    }
  }

  lemma {:induction false} SubsequenceMembers<T(!new)>(a: seq<T>, b: seq<T>)
    requires Subsequence(a, b)
    ensures forall x :: x in a ==> x in b
    decreases |b|
  {
    if a != [] {
      SubsequenceMembers(if a[0] == b[0] then a[1..] else a, b[1..]);
      assert a == [a[0]] + a[1..] && b == [b[0]] + b[1..];
    }
  }

  lemma {:induction false} FilterDistinct<T(!new)>(s: seq<T>, p: T -> bool)
    requires Distinct(s)
    ensures Distinct(Filter(s, p))
  {
    if s != [] {
      FilterDistinct(s[1..], p);
      assert s[0] !in s[1..];
    }
  }

  lemma {:induction false} FilterCons<T(!new)>(x: T, s: seq<T>, p: T -> bool)
    ensures Filter([x] + s, p) == (if p(x) then [x] else []) + Filter(s, p)
  {
    assert ([x] + s)[1..] == s;
  }

  lemma {:induction false} Reassociate<T>(a: seq<T>, b: seq<T>, c: seq<T>)
    ensures (a + b) + c == a + (b + c)
  {
  }

  lemma {:induction false} FilterConcat<T(!new)>(a: seq<T>, b: seq<T>, p: T -> bool)
    ensures Filter(a + b, p) == Filter(a, p) + Filter(b, p)
  {
    if a == [] {
      assert a + b == b;
    } else {
      var x, t := a[0], a[1..];
      var head := if p(x) then [x] else [];
      FilterConcat(t, b, p);
      assert a == [x] + t;
      Reassociate([x], t, b);
      FilterCons(x, t, p);
      FilterCons(x, t + b, p);
      Reassociate(head, Filter(t, p), Filter(b, p));
    }
  }

  /** Predicates that agree on the elements select the same subsequence. */
  lemma {:induction false} FilterAgree<T(!new)>(s: seq<T>, p: T -> bool, q: T -> bool)
    requires forall x :: x in s ==> p(x) == q(x)
    ensures Filter(s, p) == Filter(s, q)
  {
    if s != [] {
      FilterAgree(s[1..], p, q);
    }
  }

  function Both<T>(p: T -> bool, q: T -> bool): T -> bool {
    x => p(x) && q(x)
  }

  lemma {:induction false} FilterTwice<T(!new)>(s: seq<T>, p: T -> bool, q: T -> bool)
    ensures Filter(Filter(s, p), q) == Filter(s, Both(p, q))
  {
    if s != [] {
      FilterTwice(s[1..], p, q);
    }
  }

  // ---- grouping by a key ----

  function WithKey<T, K(==)>(key: T -> K, k: K): T -> bool {
    x => key(x) == k
  }

  function Bucket<K, T>(groups: map<K, seq<T>>, k: K): seq<T> {
    if k in groups then groups[k] else []
  }

  /** `groups` maps each key to the subsequence of `s` with that key, and holds no empty group. */
  ghost predicate Groups<K(!new), T(!new)>(s: seq<T>, key: T -> K, groups: map<K, seq<T>>) {
    forall k :: Bucket(groups, k) == Filter(s, WithKey(key, k)) && (k in groups <==> Filter(s, WithKey(key, k)) != [])
  }

  lemma {:induction false} GroupsSnoc<K(!new), T(!new)>(s: seq<T>, key: T -> K, groups: map<K, seq<T>>, x: T)
    requires Groups(s, key, groups)
    ensures Groups(s + [x], key, groups[key(x) := Bucket(groups, key(x)) + [x]])
  {
    var after := groups[key(x) := Bucket(groups, key(x)) + [x]];
    forall k ensures Bucket(after, k) == Filter(s + [x], WithKey(key, k))
                  && (k in after <==> Filter(s + [x], WithKey(key, k)) != [])
    {
      FilterConcat(s, [x], WithKey(key, k));
      assert Bucket(groups, k) == Filter(s, WithKey(key, k));
    }
  }

  /** Group a sequence by key, keeping its order within each group. */
  method GroupBy<K(!new, ==), T(!new)>(s: seq<T>, key: T -> K) returns (groups: map<K, seq<T>>)
    ensures Groups(s, key, groups)
  {
    groups := map[];
    for i := 0 to |s|
      invariant Groups(s[..i], key, groups)
    {
      GroupsSnoc(s[..i], key, groups, s[i]);
      assert s[..i + 1] == s[..i] + [s[i]];
      groups := groups[key(s[i]) := Bucket(groups, key(s[i])) + [s[i]]];
    }
    assert s[..|s|] == s;
  }
}
