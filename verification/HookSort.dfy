/** Sorting an edge's hooks by digest: the sorted digests depend only on the multiset of hooks. */
module HookSort {
  import opened Identity

  ghost predicate Ascending(s: seq<string>) {
    forall i, j :: 0 <= i < j < |s| ==> !TextLess(s[j], s[i])
  }

  function Texts(digest: string -> string, s: seq<string>): seq<string> {
    if s == [] then [] else [digest(s[0])] + Texts(digest, s[1..])
  }

  function InsertText(x: string, s: seq<string>): (r: seq<string>)
    ensures multiset(r) == multiset{x} + multiset(s)
  {
    if s == [] || !TextLess(s[0], x) then [x] + s
    else
      assert s == [s[0]] + s[1..];
      [s[0]] + InsertText(x, s[1..])
  }

  /** Put a hook before the first one whose digest is not smaller. */
  function InsertHook(digest: string -> string, x: string, s: seq<string>): seq<string> {
    if s == [] || !TextLess(digest(s[0]), digest(x)) then [x] + s else [s[0]] + InsertHook(digest, x, s[1..])
  }

  /** The stable `sorted(hooks, key=digest)`. */
  function SortHooks(digest: string -> string, s: seq<string>): seq<string> {
    if s == [] then [] else InsertHook(digest, s[0], SortHooks(digest, s[1..]))
  }

  lemma {:induction false} InsertHookTexts(digest: string -> string, x: string, s: seq<string>)
    ensures Texts(digest, InsertHook(digest, x, s)) == InsertText(digest(x), Texts(digest, s))
  {
    if s == [] || !TextLess(digest(s[0]), digest(x)) {
      assert ([x] + s)[1..] == s;
    } else {
      InsertHookTexts(digest, x, s[1..]);
      var rest := InsertHook(digest, x, s[1..]);
      assert ([s[0]] + rest)[1..] == rest;
      assert Texts(digest, s)[1..] == Texts(digest, s[1..]);
    }
  }

  lemma {:induction false} InsertAscending(x: string, s: seq<string>)
    requires Ascending(s)
    ensures Ascending(InsertText(x, s))
  {
    TextOrder();
    if s != [] && TextLess(s[0], x) {
      InsertAscending(x, s[1..]);
      var rest := InsertText(x, s[1..]);
      forall y | y in rest ensures !TextLess(y, s[0]) {
        assert y in multiset(rest);
        assert y == x || y in s[1..];
      }
    }
  }

  /** Sorting keeps the digests and puts them in order. */
  lemma {:induction false} SortedHookTexts(digest: string -> string, s: seq<string>)
    ensures Ascending(Texts(digest, SortHooks(digest, s)))
    ensures multiset(Texts(digest, SortHooks(digest, s))) == multiset(Texts(digest, s))
  {
    if s != [] {
      SortedHookTexts(digest, s[1..]);
      InsertHookTexts(digest, s[0], SortHooks(digest, s[1..]));
      InsertAscending(digest(s[0]), Texts(digest, SortHooks(digest, s[1..])));
    }
  }

  function Drop(s: seq<string>, k: nat): seq<string>
    requires k < |s|
  {
    s[..k] + s[k + 1..]
  }

  lemma {:induction false} DropMultiset(s: seq<string>, k: nat)
    requires k < |s|
    ensures multiset(s) == multiset(Drop(s, k)) + multiset{s[k]}
  {
    assert s == s[..k] + [s[k]] + s[k + 1..];
  }

  lemma {:induction false} Cancel(a: multiset<string>, b: multiset<string>, x: string)
    ensures a + multiset{x} == b + multiset{x} <==> a == b
  {
    if a + multiset{x} == b + multiset{x} {
      assert a == (a + multiset{x}) - multiset{x};
      assert b == (b + multiset{x}) - multiset{x};
    }
  }

  lemma {:induction false} DropBoth(a: seq<string>, b: seq<string>, i: nat, k: nat)
    requires i < |a| && k < |b| && a[i] == b[k]
    ensures multiset(Drop(a, i)) == multiset(Drop(b, k)) <==> multiset(a) == multiset(b)
  {
    DropMultiset(a, i);
    DropMultiset(b, k);
    Cancel(multiset(Drop(a, i)), multiset(Drop(b, k)), a[i]);
  }

  lemma {:induction false} DropBothTexts(digest: string -> string, a: seq<string>, b: seq<string>, i: nat, k: nat)
    requires i < |a| && k < |b| && a[i] == b[k]
    ensures multiset(Texts(digest, Drop(a, i))) == multiset(Texts(digest, Drop(b, k))) <==>
            multiset(Texts(digest, a)) == multiset(Texts(digest, b))
  {
    TextsDrop(digest, a, i);
    TextsDrop(digest, b, k);
    Cancel(multiset(Texts(digest, Drop(a, i))), multiset(Texts(digest, Drop(b, k))), digest(a[i]));
  }

  lemma {:induction false} SameLength(a: seq<string>, b: seq<string>)
    requires multiset(a) == multiset(b)
    ensures |a| == |b| && forall x :: x in a <==> x in b
  {
    assert |a| == |multiset(a)| && |b| == |multiset(b)|;
    assert forall x :: x in a <==> x in multiset(a);
  }

  lemma {:induction false} HeadIsLeast(a: seq<string>, x: string)
    requires Ascending(a) && x in a
    ensures !TextLess(x, a[0])
  {
    TextTotal(x, x);
  }

  lemma {:induction false} AscendingUnique(a: seq<string>, b: seq<string>)
    requires Ascending(a) && Ascending(b) && multiset(a) == multiset(b)
    ensures a == b
  {
    SameLength(a, b);
    if a != [] {
      HeadIsLeast(a, b[0]);
      HeadIsLeast(b, a[0]);
      TextTotal(a[0], b[0]);
      DropBoth(a, b, 0, 0);
      assert Drop(a, 0) == a[1..] && Drop(b, 0) == b[1..];
      AscendingUnique(a[1..], b[1..]);
    }
  }

  lemma {:induction false} TextsConcat(digest: string -> string, a: seq<string>, b: seq<string>)
    ensures Texts(digest, a + b) == Texts(digest, a) + Texts(digest, b)
  {
    if a == [] {
      assert a + b == b;
    } else {
      TextsConcat(digest, a[1..], b);
      assert (a + b)[1..] == a[1..] + b;
    }
  }

  lemma {:induction false} TextsDrop(digest: string -> string, s: seq<string>, k: nat)
    requires k < |s|
    ensures multiset(Texts(digest, s)) == multiset(Texts(digest, Drop(s, k))) + multiset{digest(s[k])}
  {
    assert s == s[..k] + ([s[k]] + s[k + 1..]);
    TextsConcat(digest, s[..k], [s[k]] + s[k + 1..]);
    TextsConcat(digest, s[..k], s[k + 1..]);
    assert ([s[k]] + s[k + 1..])[1..] == s[k + 1..];
  }

  lemma {:induction false} TextsMultiset(digest: string -> string, a: seq<string>, b: seq<string>)
    requires multiset(a) == multiset(b)
    ensures multiset(Texts(digest, a)) == multiset(Texts(digest, b))
    decreases |a|
  {
    SameLength(a, b);
    if a != [] {
      assert a[0] in b;
      var k :| 0 <= k < |b| && b[k] == a[0];
      DropBoth(a, b, 0, k);
      DropBothTexts(digest, a, b, 0, k);
      TextsMultiset(digest, Drop(a, 0), Drop(b, k));
    }
  }

  /** The digest tells the elements of one list from those of the other. */
  ghost predicate TellsApart(digest: string -> string, a: seq<string>, b: seq<string>) {
    forall x, y :: x in a && y in b && digest(x) == digest(y) ==> x == y
  }

  lemma {:induction false} TextsMultisetInjective(digest: string -> string, a: seq<string>, b: seq<string>)
    requires TellsApart(digest, a, b) && multiset(Texts(digest, a)) == multiset(Texts(digest, b))
    ensures multiset(a) == multiset(b)
    decreases |a|
  {
    TextsLength(digest, a);
    TextsLength(digest, b);
    SameLength(Texts(digest, a), Texts(digest, b));
    if a != [] {
      var k := Finds(digest, a, b);
      DropBoth(a, b, 0, k);
      DropBothTexts(digest, a, b, 0, k);
      DropMembers(a, 0);
      DropMembers(b, k);
      TextsMultisetInjective(digest, Drop(a, 0), Drop(b, k));
    }
  }

  lemma {:induction false} DropMembers(s: seq<string>, k: nat)
    requires k < |s|
    ensures forall x :: x in Drop(s, k) ==> x in s
  {
  }

  lemma {:induction false} Finds(digest: string -> string, a: seq<string>, b: seq<string>) returns (k: nat)
    requires TellsApart(digest, a, b) && a != [] && multiset(Texts(digest, a)) == multiset(Texts(digest, b))
    ensures k < |b| && b[k] == a[0]
  {
    TextsLength(digest, b);
    assert Texts(digest, a)[0] == digest(a[0]);
    SameLength(Texts(digest, a), Texts(digest, b));
    assert digest(a[0]) in Texts(digest, b);
    k :| 0 <= k < |Texts(digest, b)| && Texts(digest, b)[k] == digest(a[0]);
    TextsAt(digest, b, k);
    assert a[0] in a && b[k] in b;
  }

  lemma {:induction false} TextsLength(digest: string -> string, s: seq<string>)
    ensures |Texts(digest, s)| == |s|
  {
    if s != [] {
      TextsLength(digest, s[1..]);
    }
  }

  lemma {:induction false} TextsAt(digest: string -> string, s: seq<string>, k: nat)
    requires k < |s|
    ensures |Texts(digest, s)| == |s| && Texts(digest, s)[k] == digest(s[k])
  {
    TextsLength(digest, s);
    if k > 0 {
      TextsAt(digest, s[1..], k - 1);
    }
  }

  /**
   Permuted hooks have the same sorted digests; digests that tell the hooks apart are the same
   only for permuted hooks.
   */
  lemma {:induction false} HookOrderIrrelevant(digest: string -> string, a: seq<string>, b: seq<string>)
    ensures multiset(a) == multiset(b) ==> Texts(digest, SortHooks(digest, a)) == Texts(digest, SortHooks(digest, b))
    ensures TellsApart(digest, a, b) && Texts(digest, SortHooks(digest, a)) == Texts(digest, SortHooks(digest, b)) ==>
              multiset(a) == multiset(b)
  {
    SortedHookTexts(digest, a);
    SortedHookTexts(digest, b);
    if multiset(a) == multiset(b) {
      TextsMultiset(digest, a, b);
      AscendingUnique(Texts(digest, SortHooks(digest, a)), Texts(digest, SortHooks(digest, b)));
    }
    if TellsApart(digest, a, b) && Texts(digest, SortHooks(digest, a)) == Texts(digest, SortHooks(digest, b)) {
      TextsMultisetInjective(digest, a, b);
    }
  }
}
