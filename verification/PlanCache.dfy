/** The plan cache: an ordered dict kept in recency order, with a least-recently-used bound. */
module PlanCache {
  import opened Wrappers
  import opened Collections

  datatype Event<K, V> = Hit(key: K) | Miss(key: K) | Put(key: K, plan: V) | Clear

  function Except<K(==)>(key: K): K -> bool {
    (k: K) => k != key
  }

  function Keys<K, V>(entries: seq<(K, V)>): (keys: seq<K>)
    ensures |keys| == |entries| && forall i :: 0 <= i < |keys| ==> keys[i] == entries[i].0
  {
    seq(|entries|, i requires 0 <= i < |entries| => entries[i].0)
  }

  function Lookup<K(==), V>(entries: seq<(K, V)>, key: K): (r: Option<V>)
    ensures r.Some? <==> key in Keys(entries)
    ensures r.Some? ==> (key, r.value) in entries
  {
    if entries == [] then None else
      assert Keys(entries) == [entries[0].0] + Keys(entries[1..]);
      if entries[0].0 == key then Some(entries[0].1) else Lookup(entries[1..], key)
  }

  /** `del` of one key. */
  function Without<K(==, !new), V(!new)>(entries: seq<(K, V)>, key: K): (r: seq<(K, V)>)
    ensures Keys(r) == Filter(Keys(entries), Except(key))
    ensures forall x :: x in r ==> x in entries && x.0 != key
  {
    if entries == [] then [] else
      var rest := Without(entries[1..], key);
      assert Keys(entries) == [entries[0].0] + Keys(entries[1..]) && Keys(entries)[1..] == Keys(entries[1..]);
      if entries[0].0 == key then rest else
        assert Keys([entries[0]] + rest) == [entries[0].0] + Keys(rest);
        [entries[0]] + rest
  }

  // ---- the specification ----

  /** Keys touched since the last clear, oldest touch first: a put, or a get that found its key. */
  ghost function Touched<K, V>(history: seq<Event<K, V>>): seq<K> {
    if history == [] then [] else
      var before := Touched(history[..|history| - 1]);
      match history[|history| - 1]
      case Hit(key) => before + [key]
      case Miss(_) => before
      case Put(key, _) => before + [key]
      case Clear => []
  }

  /** The distinct keys of `touches`, ordered by their last occurrence. */
  function ByRecency<K(==, !new)>(touches: seq<K>): (r: seq<K>)
    ensures forall k :: k in r <==> k in touches
  {
    if touches == [] then []
    else if touches[0] in touches[1..] then ByRecency(touches[1..])
    else [touches[0]] + ByRecency(touches[1..])
  }

  function LastN<T>(s: seq<T>, n: nat): (r: seq<T>)
    ensures |r| == if |s| <= n then |s| else n
  {
    if |s| <= n then s else s[|s| - n..]
  }

  ghost function LastPut<K, V>(history: seq<Event<K, V>>, key: K): Option<V> {
    if history == [] then None else
      var event := history[|history| - 1];
      if event.Put? && event.key == key then Some(event.plan) else LastPut(history[..|history| - 1], key)
  }

  lemma {:induction false} RecencyDistinct<K(!new)>(touches: seq<K>)
    ensures Distinct(ByRecency(touches))
  {
    if touches != [] {
      RecencyDistinct(touches[1..]);
    }
  }

  /** Touching a key moves it to the recent end. */
  lemma {:induction false} RecencyTouch<K(!new)>(touches: seq<K>, key: K)
    ensures ByRecency(touches + [key]) == Filter(ByRecency(touches), Except(key)) + [key]
  {
    if touches == [] {
      assert touches + [key] == [key];
    } else {
      assert (touches + [key])[1..] == touches[1..] + [key];
      RecencyTouch(touches[1..], key);
      var rest := ByRecency(touches[1..]);
      if touches[0] !in touches[1..] {
        assert ([touches[0]] + rest)[1..] == rest;
        if touches[0] != key {
          assert Filter([touches[0]] + rest, Except(key)) == [touches[0]] + Filter(rest, Except(key));
        } else {
          assert Filter([touches[0]] + rest, Except(key)) == Filter(rest, Except(key));
        }
      } else if touches[0] == key {
      }
    }
  }

  lemma {:induction false} FilterDropsOne<K(!new)>(s: seq<K>, key: K)
    requires Distinct(s)
    ensures |Filter(s, Except(key))| >= |s| - 1
    ensures key !in s ==> Filter(s, Except(key)) == s
  {
    if s != [] {
      FilterDropsOne(s[1..], key);
      assert key !in s ==> key !in s[1..];
      if s[0] == key {
        assert key !in s[1..] by { assert forall i :: 1 <= i < |s| ==> s[i] != s[0]; }
      }
    }
  }

  /** Bounding before or after a touch keeps the same recent keys: eviction never loses a key that matters. */
  lemma {:induction false} BoundedTouch<K(!new)>(all: seq<K>, key: K, n: nat)
    requires Distinct(all) && n > 0
    ensures LastN(Filter(all, Except(key)) + [key], n) == LastN(Filter(LastN(all, n), Except(key)) + [key], n)
  {
    if |all| > n {
      var a, b := all[..|all| - n], all[|all| - n..];
      assert all == a + b;
      FilterConcat(a, b, Except(key));
      DropDistinct(all, |all| - n);
      FilterDropsOne(b, key);
      var c := Filter(b, Except(key)) + [key];
      assert Filter(all, Except(key)) + [key] == Filter(a, Except(key)) + c;
      LastNOfConcat(Filter(a, Except(key)), c, n);
    }
  }

  lemma {:induction false} DropDistinct<K(!new)>(s: seq<K>, i: nat)
    requires Distinct(s) && i <= |s|
    ensures Distinct(s[i..])
  {
  }

  lemma {:induction false} LastNOfConcat<T(!new)>(x: seq<T>, c: seq<T>, n: nat)
    requires |c| >= n
    ensures LastN(x + c, n) == LastN(c, n)
  {
    if |x + c| > n {
      assert (x + c)[|x + c| - n..] == c[|c| - n..];
    } else {
      assert x + c == c;
    }
  }

  // ---- which keys are kept ----

  /** The distinct keys touched after the last touch of the key. */
  ghost function Since<K>(touches: seq<K>, key: K): set<K> {
    if touches == [] || touches[|touches| - 1] == key then {}
    else Since(touches[..|touches| - 1], key) + {touches[|touches| - 1]}
  }

  /** In recency order, a key is followed by the keys touched since. */
  lemma {:induction false} RecencySplit<K(!new)>(touches: seq<K>, key: K) returns (front: seq<K>, tail: seq<K>)
    requires key in touches
    ensures ByRecency(touches) == front + [key] + tail && forall k :: k in tail <==> k in Since(touches, key)
    decreases |touches|
  {
    var init, last := touches[..|touches| - 1], touches[|touches| - 1];
    assert touches == init + [last];
    RecencyTouch(init, last);
    if last == key {
      front, tail := Filter(ByRecency(init), Except(last)), [];
      assert front + [key] + tail == front + [key];
    } else {
      var a, b := RecencySplit(init, key);
      FilterAround(a, key, b, last);
      front, tail := Filter(a, Except(last)), Filter(b, Except(last)) + [last];
      assert front + [key] + Filter(b, Except(last)) + [last] == front + [key] + tail;
    }
  }

  lemma {:induction false} FilterAround<K(!new)>(a: seq<K>, key: K, b: seq<K>, last: K)
    requires key != last
    ensures Filter(a + [key] + b, Except(last)) == Filter(a, Except(last)) + [key] + Filter(b, Except(last))
  {
    FilterConcat(a + [key], b, Except(last));
    FilterConcat(a, [key], Except(last));
    assert Filter([key], Except(last)) == [key];
  }

  lemma {:induction false} DistinctSize<K(!new)>(s: seq<K>, keys: set<K>)
    requires Distinct(s) && forall k :: k in s <==> k in keys
    ensures |s| == |keys|
    decreases |s|
  {
    if s == [] {
      assert keys == {};
    } else {
      assert s[0] !in s[1..];
      assert forall k :: k in s <==> k == s[0] || k in s[1..];
      DistinctSize(s[1..], keys - {s[0]});
    }
  }

  /**
   A key is kept exactly when it was touched and, for a positive size, fewer other keys than
   the size allows were touched since.
   */
  lemma {:induction false} KeptExactly<K(!new)>(size: int, touches: seq<K>, key: K)
    ensures key in Bounded(size, ByRecency(touches)) <==>
              key in touches && size != 0 && (size > 0 ==> |Since(touches, key)| < size)
  {
    if key in touches {
      var front, tail := RecencySplit(touches, key);
      RecencyDistinct(touches);
      var s := ByRecency(touches);
      assert tail == s[|front| + 1..];
      assert Distinct(tail);
      DistinctSize(tail, Since(touches, key));
      if size > 0 && |s| > size {
        var n := |s| - size;
        assert s[|front|] == key;
        assert key in s[n..] <==> |front| >= n;
      }
    }
  }

  // ---- the cache ----

  function Bounded<T>(size: int, s: seq<T>): seq<T> {
    if size > 0 then LastN(s, size) else if size == 0 then [] else s
  }

  /**
   The cache holds exactly the most recently touched distinct keys, as many as the size
   allows, in recency order, each with its last put plan.
   */
  ghost predicate Holds<K(!new), V(!new)>(size: int, entries: seq<(K, V)>, history: seq<Event<K, V>>) {
    && Keys(entries) == Bounded(size, ByRecency(Touched(history)))
    && forall x :: x in entries ==> LastPut(history, x.0) == Some(x.1)
  }

  lemma {:induction false} BoundedKeys<K(!new), V(!new)>(size: int, entries: seq<(K, V)>)
    ensures Keys(Bounded(size, entries)) == Bounded(size, Keys(entries))
  {
  }

  /** Moving a touched key to the recent end, and evicting from the old end, keeps the specification. */
  lemma {:induction false} TouchHolds<K(!new), V(!new)>(size: int, entries: seq<(K, V)>, history: seq<Event<K, V>>,
                                                       event: Event<K, V>, key: K, plan: V)
    requires size != 0 && Holds(size, entries, history)
    requires event == Put(key, plan) || (event == Hit(key) && LastPut(history, key) == Some(plan))
    ensures Holds(size, Bounded(size, Without(entries, key) + [(key, plan)]), history + [event])
  {
    var later, moved := history + [event], Without(entries, key) + [(key, plan)];
    assert later[..|later| - 1] == history;
    var keys := ByRecency(Touched(history));
    RecencyTouch(Touched(history), key);
    RecencyDistinct(Touched(history));
    BoundedKeys(size, moved);
    assert Keys(moved) == Filter(Keys(entries), Except(key)) + [key];
    if size > 0 {
      BoundedTouch(keys, key, size);
    }
    forall x | x in Bounded(size, moved) ensures LastPut(later, x.0) == Some(x.1) {
      assert x in moved;
      assert x == (key, plan) || (x in entries && x.0 != key);
    }
  }

  lemma {:induction false} QuietHolds<K(!new), V(!new)>(size: int, entries: seq<(K, V)>, history: seq<Event<K, V>>,
          event: Event<K, V>)
    requires Holds(size, entries, history) && (event.Miss? || (size == 0 && event.Put?))
    ensures Holds(size, entries, history + [event])
  {
    assert (history + [event])[..|history|] == history;
  }

  /** `popitem(last=False)` while over a positive bound. */
  method Evict<T>(size: int, s: seq<T>) returns (r: seq<T>)
    requires size != 0
    ensures r == Bounded(size, s)
  {
    r := s;
    if size > 0 {
      while |r| > size
        invariant Bounded(size, r) == Bounded(size, s)
      {
        r := r[1..];
      }
    }
  }

  /** `PlanCache`: size 0 disables it, -1 keeps everything, a positive size bounds it. */
  class Cache<K(==, !new), V(!new)> {
    const size: int
    var entries: seq<(K, V)>
    /** Every call so far: specification state only. */
    ghost var history: seq<Event<K, V>>

    constructor (size: int)
      requires size >= -1
      ensures Valid() && this.size == size && history == [] && entries == []
    {
      this.size := size;
      entries := [];
      history := [];
    }

    ghost predicate Valid()
      reads this
    {
      size >= -1 && Holds(size, entries, history)
    }

    /** `get`: a hit returns the last plan put for the key and makes it the most recent. */
    method Get(key: K) returns (r: Option<V>)
      requires Valid()
      modifies this
      ensures Valid()
      ensures history == old(history) + [if r.Some? then Hit(key) else Miss(key)]
      ensures r.Some? <==> key in old(Bounded(size, ByRecency(Touched(history))))
      ensures r.Some? ==> (key, r.value) in old(entries) && old(LastPut(history, key)) == r
      ensures forall x :: x in entries ==> x in old(entries)
    {
      if size == 0 {
        QuietHolds(size, entries, history, Miss(key));
        history := history + [Miss(key)];
        return None;
      }
      r := Lookup(entries, key);
      if r.Some? {
        TouchHolds(size, entries, history, Hit(key), key, r.value);
        FilterRemoves(Keys(entries), key);
        assert |Without(entries, key)| == |Keys(Without(entries, key))|;
        entries := Without(entries, key) + [(key, r.value)];
        history := history + [Hit(key)];
      } else {
        QuietHolds(size, entries, history, Miss(key));
        history := history + [Miss(key)];
      }
    }

    /** `put`: store the plan as most recent, then evict from the old end while over the bound. */
    method Put(key: K, plan: V)
      requires Valid()
      modifies this
      ensures Valid() && history == old(history) + [Event.Put(key, plan)]
      ensures forall x :: x in entries ==> x == (key, plan) || x in old(entries)
    {
      if size == 0 {
        QuietHolds(size, entries, history, Event.Put(key, plan));
        history := history + [Event.Put(key, plan)];
        return;
      }
      TouchHolds(size, entries, history, Event.Put(key, plan), key, plan);
      var kept := Evict(size, Without(entries, key) + [(key, plan)]);
      assert forall x :: x in kept ==> x == (key, plan) || x in entries;
      entries := kept;
      history := history + [Event.Put(key, plan)];
    }

    /** `clear` */
    method Clear()
      requires Valid()
      modifies this
      ensures Valid() && entries == [] && history == old(history) + [Event.Clear]
    {
      ghost var before := history;
      entries := [];
      history := history + [Event.Clear];
      assert history[..|history| - 1] == before;
    }
  }

  lemma {:induction false} FilterRemoves<K(!new)>(s: seq<K>, key: K)
    requires key in s
    ensures |Filter(s, Except(key))| < |s|
  {
    if s[0] != key {
      FilterRemoves(s[1..], key);
    }
  }
}
