/**
 The deepest-first scheduler `PathPlan.levels`.  Entries are identified by their
 position in the plan, as the source identifies them by object identity.
 */
module Schedule {
  import opened Payload
  import opened Collections

  /** `entry` has a chain of `k` entries strictly below one another under it. */
  ghost predicate HasChain(paths: seq<Path>, entry: nat, k: nat)
    requires entry < |paths|
    decreases k
  {
    k == 0 || exists below: nat :: below < |paths|
                && IsDescendantOf(paths[below], paths[entry]) && HasChain(paths, below, k - 1)
  }

  /** The height of the entry tree below `entry` is `h`: its longest chain has `h` entries. */
  ghost predicate HasHeight(paths: seq<Path>, entry: nat, h: nat)
    requires entry < |paths|
  {
    HasChain(paths, entry, h) && !HasChain(paths, entry, h + 1)
  }

  predicate Blocked(paths: seq<Path>, remaining: seq<nat>, entry: nat)
    requires entry < |paths| && forall i :: i in remaining ==> i < |paths|
  {
    exists other :: other in remaining && other != entry && IsDescendantOf(paths[other], paths[entry])
  }

  ghost function OfHeight(paths: seq<Path>, h: nat): nat -> bool {
    (i: nat) => i < |paths| && HasHeight(paths, i, h)
  }

  ghost function WithChain(paths: seq<Path>, h: nat): nat -> bool {
    (i: nat) => i < |paths| && HasChain(paths, i, h)
  }

  /** The entries of height `h`, in plan order. */
  ghost function AtHeight(paths: seq<Path>, h: nat): seq<nat> {
    Filter(Positions(|paths|), OfHeight(paths, h))
  }

  ghost function StillAbove(paths: seq<Path>, h: nat): seq<nat> {
    Filter(Positions(|paths|), WithChain(paths, h))
  }

  function IsReady(paths: seq<Path>, remaining: seq<nat>): nat -> bool
    requires forall i :: i in remaining ==> i < |paths|
  {
    (i: nat) => i < |paths| && !Blocked(paths, remaining, i)
  }

  function NotIn(chosen: seq<nat>): nat -> bool {
    (i: nat) => i !in chosen
  }

  function Ready(paths: seq<Path>, remaining: seq<nat>): seq<nat>
    requires forall i :: i in remaining ==> i < |paths|
  {
    Filter(remaining, IsReady(paths, remaining))
  }

  /** The guard against an empty round, as in the source. */
  function OrFirst(ready: seq<nat>, remaining: seq<nat>): seq<nat>
    requires remaining != []
  {
    if ready == [] then [remaining[0]] else ready
  }

  lemma {:induction false} ChainShortens(paths: seq<Path>, entry: nat, k: nat)
    requires entry < |paths| && HasChain(paths, entry, k + 1)
    ensures HasChain(paths, entry, k)
    decreases k
  {
    if k > 0 {
      var below: nat :| below < |paths| && IsDescendantOf(paths[below], paths[entry]) && HasChain(paths, below, k);
      ChainShortens(paths, below, k - 1);
    }
  }

  function MaxLength(paths: seq<Path>): (m: nat)
    ensures forall i :: 0 <= i < |paths| ==> |paths[i]| <= m
  {
    if paths == [] then 0 else
      var rest := MaxLength(paths[1..]);
      if |paths[0]| > rest then |paths[0]| else rest
  }

  /** Chains descend, so they are bounded by the longest path: the scheduler's rounds run out. */
  lemma {:induction false} ChainBounded(paths: seq<Path>, entry: nat, k: nat)
    requires entry < |paths| && HasChain(paths, entry, k)
    ensures k + |paths[entry]| <= MaxLength(paths)
    decreases k
  {
    if k > 0 {
      var below: nat :| below < |paths| && IsDescendantOf(paths[below], paths[entry]) && HasChain(paths, below, k - 1);
      ChainBounded(paths, below, k - 1);
    }
  }

  /** Some entry of a non-empty round is ready, for any entries at all: the fallback is dead code. */
  lemma {:induction false} SomeEntryReady(paths: seq<Path>, remaining: seq<nat>)
    requires remaining != [] && forall i :: i in remaining ==> i < |paths|
    ensures Ready(paths, remaining) != []
    ensures OrFirst(Ready(paths, remaining), remaining) == Ready(paths, remaining)
  {
    var longest := Longest(paths, remaining);
    assert longest in Ready(paths, remaining);
  }

  function Longest(paths: seq<Path>, remaining: seq<nat>): (m: nat)
    requires remaining != [] && forall i :: i in remaining ==> i < |paths|
    ensures m in remaining && forall i :: i in remaining ==> |paths[i]| <= |paths[m]|
  {
    if |remaining| == 1 then remaining[0] else
      assert remaining[0] in remaining;
      assert forall i :: i in remaining[1..] ==> i in remaining;
      assert forall i :: i in remaining ==> i == remaining[0] || i in remaining[1..];
      var rest := Longest(paths, remaining[1..]);
      if |paths[remaining[0]]| > |paths[rest]| then remaining[0] else rest
  }

  lemma {:induction false} RoundPicksHeight(paths: seq<Path>, h: nat)
    ensures Ready(paths, StillAbove(paths, h)) == AtHeight(paths, h)
  {
    var remaining := StillAbove(paths, h);
    forall i: nat | i < |paths| && HasChain(paths, i, h)
      ensures Blocked(paths, remaining, i) == HasChain(paths, i, h + 1)
    {
      forall below: nat | below < |paths| && IsDescendantOf(paths[below], paths[i]) && HasChain(paths, below, h)
        ensures below in remaining && below != i
      {
        assert Positions(|paths|)[below] in Positions(|paths|);
      }
    }
    var p, q := WithChain(paths, h), IsReady(paths, remaining);
    FilterTwice(Positions(|paths|), p, q);
    FilterAgree(Positions(|paths|), Both(p, q), OfHeight(paths, h));
  }

  lemma {:induction false} RoundLeavesHigher(paths: seq<Path>, h: nat)
    ensures Filter(StillAbove(paths, h), NotIn(AtHeight(paths, h))) == StillAbove(paths, h + 1)
  {
    var p, q := WithChain(paths, h), NotIn(AtHeight(paths, h));
    FilterTwice(Positions(|paths|), p, q);
    forall i | i in Positions(|paths|)
      ensures (p(i) && q(i)) == HasChain(paths, i, h + 1)
    {
      if HasChain(paths, i, h + 1) { ChainShortens(paths, i, h); }
    }
    FilterAgree(Positions(|paths|), Both(p, q), WithChain(paths, h + 1));
  }

  /** One round of the scheduler: it takes the entries of the next height and leaves the higher ones. */
  lemma {:induction false} OneRound(paths: seq<Path>, h: nat)
    requires StillAbove(paths, h) != []
    ensures var remaining := StillAbove(paths, h);
            var ready := OrFirst(Ready(paths, remaining), remaining);
            ready == AtHeight(paths, h) && ready != [] && Filter(remaining, NotIn(ready)) == StillAbove(paths, h + 1)
    ensures h <= MaxLength(paths)
  {
    var remaining := StillAbove(paths, h);
    assert remaining[0] in remaining;
    ChainBounded(paths, remaining[0], h);
    SomeEntryReady(paths, remaining);
    RoundPicksHeight(paths, h);
    RoundLeavesHigher(paths, h);
  }

  /**
   `PathPlan.levels`: level `h` holds exactly the entries of height `h`, in plan
   order, no level is empty and every entry is placed.
   */
  method Levels(paths: seq<Path>) returns (levels: seq<seq<nat>>)
    ensures IsSchedule(paths, levels)
  {
    var remaining := Positions(|paths|);
    levels := [];
    FilterAll(paths);
    while remaining != []
      invariant remaining == StillAbove(paths, |levels|)
      invariant ByHeight(paths, levels)
      invariant |levels| <= MaxLength(paths) + 1
      decreases MaxLength(paths) + 1 - |levels|
    {
      OneRound(paths, |levels|);
      var ready := OrFirst(Ready(paths, remaining), remaining);
      NextHeight(paths, levels, ready);
      levels := levels + [ready];
      remaining := Filter(remaining, NotIn(ready));
    }
  }

  ghost predicate IsSchedule(paths: seq<Path>, levels: seq<seq<nat>>) {
    ByHeight(paths, levels) && StillAbove(paths, |levels|) == []
  }

  /** Level `h` holds exactly the entries of height `h`, in plan order, and is not empty. */
  ghost predicate ByHeight(paths: seq<Path>, levels: seq<seq<nat>>) {
    forall h :: 0 <= h < |levels| ==> levels[h] == AtHeight(paths, h) && levels[h] != []
  }

  lemma {:induction false} NextHeight(paths: seq<Path>, levels: seq<seq<nat>>, ready: seq<nat>)
    requires ByHeight(paths, levels) && ready == AtHeight(paths, |levels|) && ready != []
    ensures ByHeight(paths, levels + [ready])
  {
  }

  lemma {:induction false} FilterAll(paths: seq<Path>)
    ensures StillAbove(paths, 0) == Positions(|paths|)
  {
    FilterTrue(Positions(|paths|), WithChain(paths, 0));
  }

  lemma {:induction false} FilterTrue<T(!new)>(s: seq<T>, p: T -> bool)
    requires forall x :: x in s ==> p(x)
    ensures Filter(s, p) == s
  {
    if s != [] {
      FilterTrue(s[1..], p);
    }
  }

  // ---- what a schedule guarantees ----

  lemma {:induction false} ChainFrom(paths: seq<Path>, entry: nat, k: nat, h: nat)
    requires entry < |paths| && k <= h && HasChain(paths, entry, h)
    ensures HasChain(paths, entry, k)
    decreases h - k
  {
    if k < h {
      ChainShortens(paths, entry, h - 1);
      ChainFrom(paths, entry, k, h - 1);
    }
  }

  lemma {:induction false} InLevel(paths: seq<Path>, levels: seq<seq<nat>>, h: nat, entry: nat)
    requires IsSchedule(paths, levels) && h < |levels|
    ensures entry in levels[h] <==> entry < |paths| && HasHeight(paths, entry, h)
  {
    if entry < |paths| {
      assert Positions(|paths|)[entry] == entry;
    }
  }

  /** An entry's level number is its height, so the levels partition the entries. */
  lemma {:induction false} LevelIsHeight(paths: seq<Path>, levels: seq<seq<nat>>, entry: nat) returns (h: nat)
    requires IsSchedule(paths, levels) && entry < |paths|
    ensures h < |levels| && entry in levels[h] && HasHeight(paths, entry, h)
    ensures forall g :: 0 <= g < |levels| && entry in levels[g] ==> g == h
    ensures forall g :: 0 <= g < |levels| ==> Distinct(levels[g])
  {
    h := 0;
    assert !HasChain(paths, entry, |levels|) by {
      assert Positions(|paths|)[entry] == entry && entry !in StillAbove(paths, |levels|);
    }
    while HasChain(paths, entry, h + 1)
      invariant HasChain(paths, entry, h) && h < |levels|
      decreases |levels| - h
    {
      h := h + 1;
      if h == |levels| { assert false; }
    }
    InLevel(paths, levels, h, entry);
    forall g | 0 <= g < |levels| && entry in levels[g] ensures g == h {
      OneLevel(paths, levels, entry, g, h);
    }
    forall g | 0 <= g < |levels| ensures Distinct(levels[g]) {
      FilterDistinct(Positions(|paths|), OfHeight(paths, g));
    }
  }

  lemma {:induction false} OneLevel(paths: seq<Path>, levels: seq<seq<nat>>, entry: nat, g: nat, h: nat)
    requires IsSchedule(paths, levels) && entry < |paths| && g < |levels| && entry in levels[g]
    requires HasHeight(paths, entry, h)
    ensures g == h
  {
    InLevel(paths, levels, g, entry);
    if g < h { ChainFrom(paths, entry, g + 1, h); }
    if h < g { ChainFrom(paths, entry, h + 1, g); }
  }

  /** A descendant is always scheduled in a strictly earlier level than its ancestor. */
  lemma {:induction false} DescendantsEarlier(paths: seq<Path>, levels: seq<seq<nat>>, above: nat, g: nat, below: nat,
          h: nat)
    requires IsSchedule(paths, levels) && g < |levels| && h < |levels|
    requires above in levels[g] && below in levels[h]
    requires above < |paths| && below < |paths| && IsDescendantOf(paths[below], paths[above])
    ensures h < g
  {
    InLevel(paths, levels, g, above);
    InLevel(paths, levels, h, below);
    assert HasChain(paths, above, h + 1);
    if g <= h {
      ChainFrom(paths, above, g + 1, h + 1);
    }
  }

  // ---- the schedule as one execution order ----

  function Flatten(levels: seq<seq<nat>>): seq<nat> {
    if levels == [] then [] else levels[0] + Flatten(levels[1..])
  }

  ghost predicate Indexes(order: seq<nat>, n: nat) {
    forall i :: 0 <= i < |order| ==> order[i] < n
  }

  /** Nothing later in `order` lies below something earlier. */
  ghost predicate DescendantsFirst(paths: seq<Path>, order: seq<nat>)
    requires Indexes(order, |paths|)
  {
    forall i, j :: 0 <= i < j < |order| ==> !IsDescendantOf(paths[order[j]], paths[order[i]])
  }

  /** `splice` lists each level's entries in some order of its own. */
  ghost predicate Reorders(levels: seq<seq<nat>>, splice: seq<seq<nat>>) {
    |splice| == |levels| && forall h :: 0 <= h < |levels| ==> SameElements(splice[h], levels[h])
  }

  lemma {:induction false} SuffixOrder(paths: seq<Path>, levels: seq<seq<nat>>, splice: seq<seq<nat>>, k: nat)
    requires IsSchedule(paths, levels) && Reorders(levels, splice) && k <= |levels|
    ensures var order := Flatten(splice[k..]);
            && Distinct(order) && Indexes(order, |paths|) && DescendantsFirst(paths, order)
            && forall i: nat :: i in order <==> i < |paths| && HasChain(paths, i, k)
    decreases |levels| - k
  {
    if k == |levels| {
      forall i: nat | i < |paths| ensures !HasChain(paths, i, k) {
        assert Positions(|paths|)[i] == i && i !in StillAbove(paths, k);
      }
    } else {
      var here, rest := splice[k], Flatten(splice[k + 1..]);
      SuffixOrder(paths, levels, splice, k + 1);
      assert splice[k..][1..] == splice[k + 1..];
      forall i: nat
        ensures i in here <==> i < |paths| && HasHeight(paths, i, k)
        ensures i < |paths| && HasChain(paths, i, k + 1) ==> HasChain(paths, i, k)
      {
        InLevel(paths, levels, k, i);
        if i < |paths| && HasChain(paths, i, k + 1) { ChainShortens(paths, i, k); }
      }
      HeightFirst(paths, here, rest, k);
    }
  }

  lemma {:induction false} HeightFirst(paths: seq<Path>, here: seq<nat>, rest: seq<nat>, k: nat)
    requires Distinct(here) && Distinct(rest) && Indexes(rest, |paths|) && DescendantsFirst(paths, rest)
    requires forall i: nat :: i in here <==> i < |paths| && HasHeight(paths, i, k)
    requires forall i: nat :: i in rest <==> i < |paths| && HasChain(paths, i, k + 1)
    requires forall i: nat :: i < |paths| && HasChain(paths, i, k + 1) ==> HasChain(paths, i, k)
    ensures Distinct(here + rest) && Indexes(here + rest, |paths|) && DescendantsFirst(paths, here + rest)
  {
    var order := here + rest;
    forall i, j | 0 <= i < j < |order|
      ensures order[i] != order[j] && order[i] < |paths| && order[j] < |paths|
      ensures !IsDescendantOf(paths[order[j]], paths[order[i]])
    {
      if i >= |here| {
        assert order[i] == rest[i - |here|] && order[j] == rest[j - |here|];
        assert order[i] in rest && order[j] in rest;
      } else {
        assert order[i] in here;
        assert order[j] in here || order[j] in rest;
        assert HasChain(paths, order[j], k) && !HasChain(paths, order[i], k + 1);
      }
    }
    forall i | 0 <= i < |order| ensures order[i] < |paths| {
      assert order[i] in here || order[i] in rest;
    }
  }
}
