/**
 Execution of a bound plan: one entry's migration chain, sequential runs, level
 runs whose tasks interleave, and their equality.
 */
module Execution {
  import opened Wrappers
  import opened Collections
  import opened Payload
  import opened Schedule

  /** A bound migration step; `None` from `apply` stands for an exception raised by the migration. */
  datatype Migration = Migration(apply: Json -> Option<Json>, target: string)

  datatype Entry = Entry(path: Path, steps: seq<Migration>)

  function Paths(entries: seq<Entry>): (paths: seq<Path>)
    ensures |paths| == |entries|
    ensures forall i :: 0 <= i < |entries| ==> paths[i] == entries[i].path
  {
    seq(|entries|, i requires 0 <= i < |entries| => entries[i].path)
  }

  /** `value[key] = child` on a dict: replace in place, or append. */
  function SetKey(fields: seq<Field>, key: string, child: Json): (r: seq<Field>)
    ensures Child(Object(r), Key(key)) == Some(child)
    ensures forall other :: other != Key(key) ==> Child(Object(r), other) == Child(Object(fields), other)
  {
    if HasKey(fields, key) then
      SetChild(Object(fields), Key(key), child).fields
    else
      AppendKeepsIndex(fields, Field(key, child));
      fields + [Field(key, child)]
  }

  lemma {:induction false} AppendKeepsIndex(fields: seq<Field>, field: Field)
    requires !HasKey(fields, field.key)
    ensures FieldIndex(fields + [field], field.key) == |fields|
    ensures forall key :: key != field.key ==>
              FieldIndex(fields + [field], key) == if HasKey(fields, key) then FieldIndex(fields, key) else |fields| + 1
  {
    var longer := fields + [field];
    assert longer[|fields|] == field && forall k :: 0 <= k < |fields| ==> longer[k] == fields[k];
    forall key | key != field.key
      ensures FieldIndex(longer, key) == if HasKey(fields, key) then FieldIndex(fields, key) else |fields| + 1
    {
      var i, j := FieldIndex(fields, key), FieldIndex(longer, key);
      assert i < |fields| ==> longer[i].key == key;
      assert j < |fields| ==> fields[j].key == key;
    }
  }

  /** Write the reached version into the version property, when the value is a dict. */
  function Stamp(value: Json, versionKey: string, version: string): Json {
    if value.Object? then Object(SetKey(value.fields, versionKey, Text(version))) else value
  }

  /** Stamping writes the version property of a dict and nothing else; any other value stays as it is. */
  lemma {:induction false} StampExact(value: Json, versionKey: string, version: string)
    ensures !value.Object? ==> Stamp(value, versionKey, version) == value
    ensures value.Object? ==>
              var stamped := Stamp(value, versionKey, version);
              && stamped.Object? && Child(stamped, Key(versionKey)) == Some(Text(version))
              && forall other :: other != Key(versionKey) ==> Child(stamped, other) == Child(value, other)
  {
  }

  /** The value an entry's chain computes. */
  function RunSteps(steps: seq<Migration>, versionKey: string, value: Json): Option<Json> {
    if steps == [] then Some(value) else
      var migrated :- steps[0].apply(value);
      RunSteps(steps[1..], versionKey, Stamp(migrated, versionKey, steps[0].target))
  }

  /** `ExecutionEntry.execute_sync` */
  method ExecuteSync(entry: Entry, versionKey: string, value: Json) returns (r: Option<Json>)
    ensures r == RunSteps(entry.steps, versionKey, value)
  {
    var current := value;
    var index := 0;
    while index < |entry.steps|
      invariant 0 <= index <= |entry.steps|
      invariant RunSteps(entry.steps[index..], versionKey, current) == RunSteps(entry.steps, versionKey, value)
    {
      var migrated := entry.steps[index].apply(current);
      if migrated.None? { return None; }
      current := Stamp(migrated.value, versionKey, entry.steps[index].target);
      index := index + 1;
    }
    return Some(current);
  }

  // ---- one entry at a time ----

  /** Look up the entry's value, run its chain, splice the result back. */
  function RunEntry(data: Json, entry: Entry, versionKey: string): Option<Json> {
    var value :- Get(data, entry.path);
    var result :- RunSteps(entry.steps, versionKey, value);
    ReplaceAt(data, entry.path, result)
  }

  function RunInOrder(data: Json, entries: seq<Entry>, order: seq<nat>, versionKey: string): Option<Json>
    requires Indexes(order, |entries|)
    decreases |order|
  {
    if order == [] then Some(data) else
      var next :- RunEntry(data, entries[order[0]], versionKey);
      RunInOrder(next, entries, order[1..], versionKey)
  }

  function RunPair(data: Json, first: Entry, second: Entry, versionKey: string): Option<Json> {
    var next :- RunEntry(data, first, versionKey);
    RunEntry(next, second, versionKey)
  }

  lemma {:induction false} EntriesCommute(data: Json, a: Entry, b: Entry, versionKey: string)
    requires Apart(a.path, b.path)
    ensures RunPair(data, a, b, versionKey) == RunPair(data, b, a, versionKey)
  {
    PairIsSplices(data, a, b, versionKey);
    PairIsSplices(data, b, a, versionKey);
    var x, y := EntryResult(data, a, versionKey), EntryResult(data, b, versionKey);
    if x.Some? && y.Some? {
      ReplaceCommutes(data, a.path, x.value, b.path, y.value);
    }
  }

  /** What the entry's task computes from the payload, before any splice. */
  function EntryResult(data: Json, entry: Entry, versionKey: string): Option<Json> {
    var value :- Get(data, entry.path);
    RunSteps(entry.steps, versionKey, value)
  }

  lemma {:induction false} PairIsSplices(data: Json, a: Entry, b: Entry, versionKey: string)
    requires Apart(a.path, b.path)
    ensures RunPair(data, a, b, versionKey) ==
            var x, y := EntryResult(data, a, versionKey), EntryResult(data, b, versionKey);
            if x.Some? && y.Some? then ReplaceIn(ReplaceAt(data, a.path, x.value), b.path, y.value) else None
  {
    var x := EntryResult(data, a, versionKey);
    if x.Some? && ReplaceAt(data, a.path, x.value).Some? {
      GetApartUnchanged(data, a.path, x.value, b.path);
    }
  }

  // ---- any two orders that put descendants first agree ----

  ghost predicate DistinctPaths(entries: seq<Entry>) {
    Distinct(Paths(entries))
  }

  lemma {:induction false} UnrelatedApart(entries: seq<Entry>, i: nat, j: nat)
    requires DistinctPaths(entries) && i < |entries| && j < |entries| && i != j
    requires !IsDescendantOf(entries[i].path, entries[j].path) && !IsDescendantOf(entries[j].path, entries[i].path)
    ensures Apart(entries[i].path, entries[j].path)
  {
    assert Paths(entries)[i] != Paths(entries)[j];
  }

  lemma {:induction false} SwapFront(data: Json, entries: seq<Entry>, i: nat, j: nat, rest: seq<nat>,
          versionKey: string)
    requires i < |entries| && j < |entries| && Indexes(rest, |entries|)
    requires Apart(entries[i].path, entries[j].path)
    ensures RunInOrder(data, entries, [i, j] + rest, versionKey) == RunInOrder(data, entries, [j, i] + rest, versionKey)
  {
    EntriesCommute(data, entries[i], entries[j], versionKey);
    FrontPair(data, entries, i, j, rest, versionKey);
    FrontPair(data, entries, j, i, rest, versionKey);
  }

  lemma {:induction false} FrontPair(data: Json, entries: seq<Entry>, i: nat, j: nat, rest: seq<nat>,
          versionKey: string)
    requires i < |entries| && j < |entries| && Indexes(rest, |entries|)
    ensures RunInOrder(data, entries, [i, j] + rest, versionKey) ==
            var two := RunPair(data, entries[i], entries[j], versionKey);
            if two.Some? then RunInOrder(two.value, entries, rest, versionKey) else None
  {
    var order := [i, j] + rest;
    assert order[1..] == [j] + rest && order[1..][1..] == rest;
  }

  /** The `k`th entry of an order may run first when it is apart from everything before it. */
  lemma {:induction false} MoveToFront(data: Json, entries: seq<Entry>, order: seq<nat>, k: nat, versionKey: string)
    requires Indexes(order, |entries|) && k < |order|
    requires forall i :: 0 <= i < k ==> Apart(entries[order[i]].path, entries[order[k]].path)
    ensures RunInOrder(data, entries, order, versionKey)
         == RunInOrder(data, entries, [order[k]] + order[..k] + order[k + 1..], versionKey)
    decreases k
  {
    if k == 0 {
      assert [order[0]] + order[..0] + order[1..] == order;
    } else {
      var first, chosen, tail := order[0], order[k], order[1..];
      var rest := order[1..k] + order[k + 1..];
      Surfaced(order, k);
      assert tail[k - 1] == chosen;
      forall i | 0 <= i < k - 1 ensures Apart(entries[tail[i]].path, entries[tail[k - 1]].path) {
        assert tail[i] == order[i + 1];
      }
      var next := RunEntry(data, entries[first], versionKey);
      if next.Some? {
        MoveToFront(next.value, entries, tail, k - 1, versionKey);
      }
      SameTail(data, entries, first, tail, [chosen] + rest, versionKey);
      SwapFront(data, entries, first, chosen, rest, versionKey);
    }
  }

  /** Bringing the k-th element to the front, seen from the tail. */
  lemma {:induction false} Surfaced(order: seq<nat>, k: nat)
    requires 0 < k < |order|
    ensures var first, chosen, tail, rest := order[0], order[k], order[1..], order[1..k] + order[k + 1..];
            && [chosen] + tail[..k - 1] + tail[k..] == [chosen] + rest
            && [first] + tail == order && [first] + ([chosen] + rest) == [first, chosen] + rest
            && [chosen, first] + rest == [chosen] + order[..k] + order[k + 1..]
  {
  }

  lemma {:induction false} SameTail(data: Json, entries: seq<Entry>, i: nat, a: seq<nat>, b: seq<nat>,
          versionKey: string)
    requires i < |entries| && Indexes(a, |entries|) && Indexes(b, |entries|)
    requires var next := RunEntry(data, entries[i], versionKey);
             next.Some? ==>
               RunInOrder(next.value, entries, a, versionKey) == RunInOrder(next.value, entries, b, versionKey)
    ensures RunInOrder(data, entries, [i] + a, versionKey) == RunInOrder(data, entries, [i] + b, versionKey)
  {
    assert ([i] + a)[1..] == a && ([i] + b)[1..] == b;
  }

  /** Any two orders of the same entries that put descendants before ancestors compute the same payload. */
  lemma {:induction false} OrderIrrelevant(data: Json, entries: seq<Entry>, a: seq<nat>, b: seq<nat>,
          versionKey: string)
    requires DistinctPaths(entries) && Indexes(a, |entries|) && Indexes(b, |entries|) && SameElements(a, b)
    requires DescendantsFirst(Paths(entries), a) && DescendantsFirst(Paths(entries), b)
    ensures RunInOrder(data, entries, a, versionKey) == RunInOrder(data, entries, b, versionKey)
    decreases |b|
  {
    SameEmptiness(a, b);
    if b != [] {
      var k := FirstMayLead(entries, a, b);
      MoveToFront(data, entries, a, k, versionKey);
      var rest := a[..k] + a[k + 1..];
      RemoveOne(entries, a, k, b);
      var next := RunEntry(data, entries[b[0]], versionKey);
      if next.Some? {
        OrderIrrelevant(next.value, entries, rest, b[1..], versionKey);
      }
      SameTail(data, entries, b[0], rest, b[1..], versionKey);
      Reassociate([a[k]], a[..k], a[k + 1..]);
      assert [b[0]] + b[1..] == b;
    }
  }

  /** The first entry of one order is apart from everything before it in the other. */
  lemma {:induction false} FirstMayLead(entries: seq<Entry>, a: seq<nat>, b: seq<nat>) returns (k: nat)
    requires DistinctPaths(entries) && Indexes(a, |entries|) && Indexes(b, |entries|) && SameElements(a, b) && b != []
    requires DescendantsFirst(Paths(entries), a) && DescendantsFirst(Paths(entries), b)
    ensures k < |a| && a[k] == b[0]
    ensures forall i :: 0 <= i < k ==> Apart(entries[a[i]].path, entries[a[k]].path)
  {
    assert b[0] in a;
    k :| 0 <= k < |a| && a[k] == b[0];
    forall i | 0 <= i < k ensures Apart(entries[a[i]].path, entries[a[k]].path) {
      assert a[i] in b;
      var m :| 0 <= m < |b| && b[m] == a[i];
      UnrelatedApart(entries, a[i], a[k]);
    }
  }

  lemma {:induction false} RemoveOne(entries: seq<Entry>, a: seq<nat>, k: nat, b: seq<nat>)
    requires Indexes(a, |entries|) && Indexes(b, |entries|) && SameElements(a, b)
    requires DescendantsFirst(Paths(entries), a) && DescendantsFirst(Paths(entries), b)
    requires k < |a| && b != [] && a[k] == b[0]
    ensures var rest := a[..k] + a[k + 1..];
            && Indexes(rest, |entries|) && Indexes(b[1..], |entries|) && SameElements(rest, b[1..])
            && DescendantsFirst(Paths(entries), rest) && DescendantsFirst(Paths(entries), b[1..])
  {
    var rest := a[..k] + a[k + 1..];
    var at := (i: int) => if i < k then i else i + 1;
    assert forall i :: 0 <= i < |rest| ==> rest[i] == a[at(i)];
    forall i, j | 0 <= i < j < |rest|
      ensures rest[i] != rest[j] && !IsDescendantOf(Paths(entries)[rest[j]], Paths(entries)[rest[i]])
    {
      assert rest[i] == a[at(i)] && rest[j] == a[at(j)] && at(i) < at(j);
    }
    forall x: nat ensures x in rest <==> x in b[1..] {
      RemovedSame(a, k, b, x);
    }
  }

  lemma {:induction false} RemovedSame(a: seq<nat>, k: nat, b: seq<nat>, x: nat)
    requires SameElements(a, b) && Distinct(a) && Distinct(b) && k < |a| && b != [] && a[k] == b[0]
    ensures x in a[..k] + a[k + 1..] <==> x in b[1..]
  {
    var rest := a[..k] + a[k + 1..];
    if x in rest {
      var i :| 0 <= i < |rest| && rest[i] == x;
      assert a[if i < k then i else i + 1] == x && x != a[k];
      assert x in b;
    }
    if x in b[1..] {
      assert x in b && x in a && x != b[0];
      var i :| 0 <= i < |a| && a[i] == x;
      assert i < k ==> rest[i] == x;
      assert i > k ==> rest[i - 1] == x;
    }
  }

  // ---- level by level ----

  /** The results a level's tasks compute, all from the payload the level starts with. */
  function LevelResults(data: Json, entries: seq<Entry>, level: seq<nat>, versionKey: string): (r: Option<seq<Json>>)
    requires Indexes(level, |entries|)
    ensures r.Some? ==> |r.value| == |level|
  {
    if level == [] then Some([]) else
      var first :- EntryResult(data, entries[level[0]], versionKey);
      var rest :- LevelResults(data, entries, level[1..], versionKey);
      Some([first] + rest)
  }

  /** `ExecutionPlan.apply_results` */
  function ApplyResults(data: Json, entries: seq<Entry>, level: seq<nat>, results: seq<Json>): Option<Json>
    requires Indexes(level, |entries|) && |results| == |level|
    decreases |level|
  {
    if level == [] then Some(data) else
      var next :- ReplaceAt(data, entries[level[0]].path, results[0]);
      ApplyResults(next, entries, level[1..], results[1..])
  }

  function RunLevel(data: Json, entries: seq<Entry>, level: seq<nat>, versionKey: string): Option<Json>
    requires Indexes(level, |entries|)
  {
    var results :- LevelResults(data, entries, level, versionKey);
    ApplyResults(data, entries, level, results)
  }

  ghost predicate Antichain(entries: seq<Entry>, level: seq<nat>)
    requires Indexes(level, |entries|)
  {
    forall i, j :: 0 <= i < j < |level| ==> Apart(entries[level[i]].path, entries[level[j]].path)
  }

  lemma {:induction false} ResultsIgnoreApart(data: Json, next: Json, path: Path, result: Json,
                                              entries: seq<Entry>, level: seq<nat>, versionKey: string)
    requires Indexes(level, |entries|) && ReplaceAt(data, path, result) == Some(next)
    requires forall i :: 0 <= i < |level| ==> Apart(path, entries[level[i]].path)
    ensures LevelResults(next, entries, level, versionKey) == LevelResults(data, entries, level, versionKey)
    decreases |level|
  {
    if level != [] {
      GetApartUnchanged(data, path, result, entries[level[0]].path);
      ResultsIgnoreApart(data, next, path, result, entries, level[1..], versionKey);
    }
  }

  /** On an antichain, computing everything first and splicing afterwards is running one entry at a time. */
  lemma {:induction false} LevelIsSequential(data: Json, entries: seq<Entry>, level: seq<nat>, versionKey: string)
    requires Indexes(level, |entries|) && Antichain(entries, level)
    ensures RunLevel(data, entries, level, versionKey) == RunInOrder(data, entries, level, versionKey)
    decreases |level|
  {
    if level != [] {
      var entry, rest := entries[level[0]], level[1..];
      var first := EntryResult(data, entry, versionKey);
      var next := RunEntry(data, entry, versionKey);
      if next.Some? {
        ResultsIgnoreApart(data, next.value, entry.path, first.value, entries, rest, versionKey);
        LevelIsSequential(next.value, entries, rest, versionKey);
        var others := LevelResults(data, entries, rest, versionKey);
        if others.Some? {
          assert ([first.value] + others.value)[1..] == others.value;
        }
      }
    }
  }

  function RunLevels(data: Json, entries: seq<Entry>, levels: seq<seq<nat>>, versionKey: string): Option<Json>
    requires forall h :: 0 <= h < |levels| ==> Indexes(levels[h], |entries|)
    decreases |levels|
  {
    if levels == [] then Some(data) else
      var next :- RunLevel(data, entries, levels[0], versionKey);
      RunLevels(next, entries, levels[1..], versionKey)
  }

  lemma {:induction false} RunConcat(data: Json, entries: seq<Entry>, a: seq<nat>, b: seq<nat>, versionKey: string)
    requires Indexes(a, |entries|) && Indexes(b, |entries|)
    ensures RunInOrder(data, entries, a + b, versionKey) ==
            var first := RunInOrder(data, entries, a, versionKey);
            if first.Some? then RunInOrder(first.value, entries, b, versionKey) else None
    decreases |a|
  {
    if a == [] {
      assert a + b == b;
    } else {
      assert (a + b)[1..] == a[1..] + b;
      var next := RunEntry(data, entries[a[0]], versionKey);
      if next.Some? {
        RunConcat(next.value, entries, a[1..], b, versionKey);
      }
    }
  }

  lemma {:induction false} FlattenIndexes(levels: seq<seq<nat>>, n: nat)
    requires forall h :: 0 <= h < |levels| ==> Indexes(levels[h], n)
    ensures Indexes(Flatten(levels), n)
    decreases |levels|
  {
    if levels != [] {
      FlattenIndexes(levels[1..], n);
    }
  }

  lemma {:induction false} LevelsAreSequential(data: Json, entries: seq<Entry>, levels: seq<seq<nat>>,
          versionKey: string)
    requires forall h :: 0 <= h < |levels| ==> Indexes(levels[h], |entries|) && Antichain(entries, levels[h])
    ensures Indexes(Flatten(levels), |entries|)
    ensures RunLevels(data, entries, levels, versionKey) == RunInOrder(data, entries, Flatten(levels), versionKey)
    decreases |levels|
  {
    FlattenIndexes(levels, |entries|);
    if levels != [] {
      var first, rest := levels[0], levels[1..];
      FlattenIndexes(rest, |entries|);
      RunConcat(data, entries, first, Flatten(rest), versionKey);
      LevelIsSequential(data, entries, first, versionKey);
      var next := RunInOrder(data, entries, first, versionKey);
      if next.Some? {
        LevelsAreSequential(next.value, entries, rest, versionKey);
      }
      assert Flatten(levels) == first + Flatten(rest);
      FirstLevel(data, entries, levels, versionKey, next);
    }
  }

  lemma {:induction false} FirstLevel(data: Json, entries: seq<Entry>, levels: seq<seq<nat>>, versionKey: string,
                                      next: Option<Json>)
    requires levels != [] && forall h :: 0 <= h < |levels| ==> Indexes(levels[h], |entries|)
    requires next == RunLevel(data, entries, levels[0], versionKey)
    ensures RunLevels(data, entries, levels, versionKey)
         == if next.Some? then RunLevels(next.value, entries, levels[1..], versionKey) else None
  {
  }

  lemma {:induction false} SplicedLevelsAreAntichains(entries: seq<Entry>, levels: seq<seq<nat>>, splice: seq<seq<nat>>)
    requires DistinctPaths(entries) && IsSchedule(Paths(entries), levels) && Reorders(levels, splice)
    ensures forall h :: 0 <= h < |splice| ==> Indexes(splice[h], |entries|) && Antichain(entries, splice[h])
  {
    forall h | 0 <= h < |splice| ensures Indexes(splice[h], |entries|) && Antichain(entries, splice[h]) {
      forall i | 0 <= i < |splice[h]| ensures splice[h][i] < |entries| && splice[h][i] in levels[h] {
        assert splice[h][i] in splice[h];
        InLevel(Paths(entries), levels, h, splice[h][i]);
      }
      forall i, j | 0 <= i < j < |splice[h]|
        ensures Apart(entries[splice[h][i]].path, entries[splice[h][j]].path)
      {
        var a, b := splice[h][i], splice[h][j];
        assert a in levels[h] && b in levels[h];
        if IsDescendantOf(entries[a].path, entries[b].path) { DescendantsEarlier(Paths(entries), levels, b, h, a, h); }
        if IsDescendantOf(entries[b].path, entries[a].path) { DescendantsEarlier(Paths(entries), levels, a, h, b, h); }
        UnrelatedApart(entries, a, b);
      }
    }
  }

  /**
   Parallel equals sequential: a scheduled plan run level by level, each level
   spliced back in any order, gives the payload (or the failure) of running the
   entries one at a time in any order that puts descendants before ancestors.
   */
  lemma {:induction false} ParallelEqualsSequential(data: Json, entries: seq<Entry>, levels: seq<seq<nat>>,
                                                    splice: seq<seq<nat>>, order: seq<nat>, versionKey: string)
    requires DistinctPaths(entries) && IsSchedule(Paths(entries), levels) && Reorders(levels, splice)
    requires SameElements(order, Positions(|entries|)) && Indexes(order, |entries|)
    requires DescendantsFirst(Paths(entries), order)
    ensures forall h :: 0 <= h < |splice| ==> Indexes(splice[h], |entries|)
    ensures RunLevels(data, entries, splice, versionKey) == RunInOrder(data, entries, order, versionKey)
  {
    SplicedLevelsAreAntichains(entries, levels, splice);
    LevelsAreSequential(data, entries, splice, versionKey);
    SuffixOrder(Paths(entries), levels, splice, 0);
    assert splice[0..] == splice;
    var flat := Flatten(splice);
    forall i: nat ensures i in flat <==> i in order {
      assert i < |entries| ==> Positions(|entries|)[i] == i;
    }
    OrderIrrelevant(data, entries, flat, order, versionKey);
  }
}
