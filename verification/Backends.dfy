/**
 The execution backends: safety and frame of a run, and the level loops of the
 threaded and asynchronous backends, the latter over every interleaving of its tasks.
 */
module Backends {
  import opened Wrappers
  import opened Collections
  import opened Payload
  import opened Schedule
  import opened Execution

  // ---- safety and frame ----

  predicate HoldsObject(data: Json, path: Path) {
    Get(data, path).Some? && Get(data, path).value.Object?
  }

  lemma {:induction false} ReplaceBelowObject(data: Json, above: Path, path: Path, replacement: Json)
    requires HoldsObject(data, above) && ReplaceAt(data, path, replacement).Some? && !IsPrefix(path, above)
    ensures HoldsObject(ReplaceAt(data, path, replacement).value, above)
  {
    if IsPrefix(above, path) {
      PrefixSplits(above, path);
      GetAboveReplaced(data, above, path[|above|..], replacement);
    } else {
      GetApartUnchanged(data, path, replacement, above);
    }
  }

  /** A run leaves a dict a dict unless it migrates that dict or one above it. */
  lemma {:induction false} RunKeepsObject(data: Json, entries: seq<Entry>, order: seq<nat>, versionKey: string,
          path: Path)
    requires Indexes(order, |entries|) && RunInOrder(data, entries, order, versionKey).Some?
    requires HoldsObject(data, path) && forall i :: 0 <= i < |order| ==> !IsPrefix(entries[order[i]].path, path)
    ensures HoldsObject(RunInOrder(data, entries, order, versionKey).value, path)
    decreases |order|
  {
    if order != [] {
      var entry := entries[order[0]];
      var next := RunEntry(data, entry, versionKey).value;
      ReplaceBelowObject(data, path, entry.path, EntryResult(data, entry, versionKey).value);
      RunKeepsObject(next, entries, order[1..], versionKey, path);
    }
  }

  /**
   Safety: in a run that puts descendants first, when an entry's turn comes its
   lookup yields a dict and any splice at its path succeeds, whatever the migrations
   before it did.
   */
  lemma {:induction false} EveryLookupSucceeds(data: Json, entries: seq<Entry>, order: seq<nat>, k: nat,
          versionKey: string)
    requires DistinctPaths(entries) && Indexes(order, |entries|) && Distinct(order) && k < |order|
    requires DescendantsFirst(Paths(entries), order)
    requires forall i :: 0 <= i < |entries| ==> HoldsObject(data, entries[i].path)
    requires Indexes(order[..k], |entries|) && RunInOrder(data, entries, order[..k], versionKey).Some?
    ensures var now := RunInOrder(data, entries, order[..k], versionKey).value;
            var path := entries[order[k]].path;
            HoldsObject(now, path) && forall result :: ReplaceAt(now, path, result).Some?
  {
    var path := entries[order[k]].path;
    forall i | 0 <= i < k ensures !IsPrefix(entries[order[..k][i]].path, path) {
      assert Paths(entries)[order[i]] != Paths(entries)[order[k]];
    }
    RunKeepsObject(data, entries, order[..k], versionKey, path);
    var now := RunInOrder(data, entries, order[..k], versionKey).value;
    forall result ensures ReplaceAt(now, path, result).Some? {
      ReplaceSucceeds(now, path, result);
    }
  }

  /** Frame: whatever the migrations do, a value apart from every planned entry is unchanged. */
  lemma {:induction false} RunFrame(data: Json, entries: seq<Entry>, order: seq<nat>, versionKey: string, path: Path)
    requires Indexes(order, |entries|) && RunInOrder(data, entries, order, versionKey).Some?
    requires forall i :: 0 <= i < |order| ==> Apart(entries[order[i]].path, path)
    ensures Get(RunInOrder(data, entries, order, versionKey).value, path) == Get(data, path)
    decreases |order|
  {
    if order != [] {
      var entry := entries[order[0]];
      GetApartUnchanged(data, entry.path, EntryResult(data, entry, versionKey).value, path);
      RunFrame(RunEntry(data, entry, versionKey).value, entries, order[1..], versionKey, path);
    }
  }

  // ---- a level's tasks, interleaved ----

  datatype Task = Running(rest: seq<Migration>, current: Json) | Finished(value: Json) | Raised

  /** One scheduling quantum: the next migration of the chain, or storing the result. */
  function Advance(task: Task, versionKey: string): (r: Task)
    ensures Outcome(r, versionKey) == Outcome(task, versionKey)
    ensures task.Running? ==> Work(r) < Work(task)
  {
    match task
    case Running(rest, current) =>
      if rest == [] then Finished(current) else
        var migrated := rest[0].apply(current);
        if migrated.None? then Raised
        else Running(rest[1..], Stamp(migrated.value, versionKey, rest[0].target))
    case _ => task
  }

  /** What the task will end with. */
  ghost function Outcome(task: Task, versionKey: string): Option<Json> {
    match task
    case Running(rest, current) => RunSteps(rest, versionKey, current)
    case Finished(value) => Some(value)
    case Raised => None
  }

  ghost function Work(task: Task): nat {
    if task.Running? then |task.rest| + 1 else 0
  }

  ghost function TotalWork(tasks: seq<Task>): nat {
    if tasks == [] then 0 else Work(tasks[0]) + TotalWork(tasks[1..])
  }

  lemma {:induction false} WorkDrops(tasks: seq<Task>, i: nat, task: Task)
    requires i < |tasks| && Work(task) < Work(tasks[i])
    ensures TotalWork(tasks[i := task]) < TotalWork(tasks)
  {
    var updated := tasks[i := task];
    if i == 0 {
      assert updated[1..] == tasks[1..];
    } else {
      WorkDrops(tasks[1..], i - 1, task);
      assert updated[1..] == tasks[1..][i - 1 := task];
    }
  }

  lemma {:induction false} LevelResultsBySlot(data: Json, entries: seq<Entry>, level: seq<nat>, versionKey: string,
          values: seq<Json>)
    requires Indexes(level, |entries|) && |values| == |level|
    requires forall i :: 0 <= i < |level| ==> EntryResult(data, entries[level[i]], versionKey) == Some(values[i])
    ensures LevelResults(data, entries, level, versionKey) == Some(values)
    decreases |level|
  {
    if level != [] {
      LevelResultsBySlot(data, entries, level[1..], versionKey, values[1..]);
      assert [values[0]] + values[1..] == values;
    }
  }

  lemma {:induction false} LevelResultsRaise(data: Json, entries: seq<Entry>, level: seq<nat>, versionKey: string,
          i: nat)
    requires Indexes(level, |entries|) && i < |level| && EntryResult(data, entries[level[i]], versionKey).None?
    ensures LevelResults(data, entries, level, versionKey).None?
    decreases |level|
  {
    if i > 0 {
      LevelResultsRaise(data, entries, level[1..], versionKey, i - 1);
    }
  }

  ghost predicate TasksTrack(data: Json, entries: seq<Entry>, level: seq<nat>, versionKey: string, tasks: seq<Task>)
    requires Indexes(level, |entries|)
  {
    && |tasks| == |level|
    && forall i :: 0 <= i < |tasks| ==> TaskTracks(data, entries[level[i]], versionKey, tasks[i])
  }

  ghost predicate TaskTracks(data: Json, entry: Entry, versionKey: string, task: Task) {
    !task.Raised? && Outcome(task, versionKey) == EntryResult(data, entry, versionKey)
  }

  function StartTask(data: Json, entry: Entry): (task: Task)
    requires HoldsObject(data, entry.path)
    ensures task.Running? && forall versionKey :: TaskTracks(data, entry, versionKey, task)
  {
    Running(entry.steps, Get(data, entry.path).value)
  }

  predicate SlotMatches(task: Task, slot: Option<Json>) {
    slot == if task.Finished? then Some(task.value) else None
  }

  lemma {:induction false} FinishedTasksAreResults(data: Json, entries: seq<Entry>, level: seq<nat>, versionKey: string,
                                                   tasks: seq<Task>, values: seq<Json>)
    requires Indexes(level, |entries|) && TasksTrack(data, entries, level, versionKey, tasks) && |values| == |tasks|
    requires forall i :: 0 <= i < |tasks| ==> tasks[i] == Finished(values[i])
    ensures LevelResults(data, entries, level, versionKey) == Some(values)
  {
    forall i | 0 <= i < |level| ensures EntryResult(data, entries[level[i]], versionKey) == Some(values[i]) {
      assert TaskTracks(data, entries[level[i]], versionKey, tasks[i]);
    }
    LevelResultsBySlot(data, entries, level, versionKey, values);
  }

  lemma {:induction false} TrackUpdate(data: Json, entries: seq<Entry>, level: seq<nat>, versionKey: string,
          tasks: seq<Task>, i: nat, next: Task)
    requires Indexes(level, |entries|) && TasksTrack(data, entries, level, versionKey, tasks) && i < |tasks|
    requires TaskTracks(data, entries[level[i]], versionKey, next)
    ensures TasksTrack(data, entries, level, versionKey, tasks[i := next])
  {
  }

  /** Give turns to unfinished tasks in an arbitrary order until none is left or one raises. */
  method DriveTasks(data: Json, entries: seq<Entry>, level: seq<nat>, versionKey: string, results: array<Option<Json>>)
    returns (ghost tasks: seq<Task>, raised: bool)
    requires Indexes(level, |entries|) && results.Length == |level|
    requires forall i :: 0 <= i < |level| ==> HoldsObject(data, entries[level[i]].path)
    requires forall i :: 0 <= i < results.Length ==> results[i] == None
    modifies results
    ensures raised ==> LevelResults(data, entries, level, versionKey).None?
    ensures !raised ==> TasksTrack(data, entries, level, versionKey, tasks)
    ensures !raised ==> forall i :: 0 <= i < |tasks| ==> tasks[i].Finished? && results[i] == Some(tasks[i].value)
  {
    var running := seq(|level|, i requires 0 <= i < |level| && HoldsObject(data, entries[level[i]].path) =>
      StartTask(data, entries[level[i]]));
    while exists i :: 0 <= i < |running| && running[i].Running?
      invariant TasksTrack(data, entries, level, versionKey, running)
      invariant forall i :: 0 <= i < |running| ==> SlotMatches(running[i], results[i])
      decreases TotalWork(running)
    {
      var i :| 0 <= i < |running| && running[i].Running?;
      var next := Advance(running[i], versionKey);
      WorkDrops(running, i, next);
      assert TaskTracks(data, entries[level[i]], versionKey, running[i]);
      if next.Raised? {
        LevelResultsRaise(data, entries, level, versionKey, i);
        return running, true;
      }
      TrackUpdate(data, entries, level, versionKey, running, i, next);
      running := running[i := next];
      if next.Finished? {
        results[i] := Some(next.value);
      }
    }
    forall i | 0 <= i < |running| ensures running[i].Finished? && results[i] == Some(running[i].value) {
      assert TaskTracks(data, entries[level[i]], versionKey, running[i]) && SlotMatches(running[i], results[i]);
    }
    return running, false;
  }

  /**
   One level of `AsyncBackend.execute`: tasks take turns in an arbitrary order, each
   writing its own slot when its chain ends.  Every interleaving yields the same results.
   */
  method RunLevelInterleaved(data: Json, entries: seq<Entry>, level: seq<nat>, versionKey: string)
    returns (r: Option<seq<Json>>)
    requires Indexes(level, |entries|)
    requires forall i :: 0 <= i < |level| ==> HoldsObject(data, entries[level[i]].path)
    ensures r == LevelResults(data, entries, level, versionKey)
  {
    var results := new Option<Json>[|level|](_ => None);
    ghost var tasks;
    var raised;
    tasks, raised := DriveTasks(data, entries, level, versionKey, results);
    if raised { return None; }
    var values := [];
    for i := 0 to results.Length
      invariant |values| == i
      invariant forall k :: 0 <= k < i ==> tasks[k] == Finished(values[k])
    {
      values := values + [results[i].value];
    }
    FinishedTasksAreResults(data, entries, level, versionKey, tasks, values);
    return Some(values);
  }

  /** One level of `ThreadedBackend.execute`: `pool.map` keeps the level's order. */
  method RunLevelMapped(data: Json, entries: seq<Entry>, level: seq<nat>, versionKey: string)
    returns (r: Option<seq<Json>>)
    requires Indexes(level, |entries|)
    requires forall i :: 0 <= i < |level| ==> HoldsObject(data, entries[level[i]].path)
    ensures r == LevelResults(data, entries, level, versionKey)
  {
    var values := [];
    for i := 0 to |level|
      invariant |values| == i
      invariant forall k :: 0 <= k < i ==> EntryResult(data, entries[level[k]], versionKey) == Some(values[k])
    {
      var result := ExecuteSync(entries[level[i]], versionKey, Get(data, entries[level[i]].path).value);
      if result.None? {
        LevelResultsRaise(data, entries, level, versionKey, i);
        return None;
      }
      values := values + [result.value];
    }
    LevelResultsBySlot(data, entries, level, versionKey, values);
    return Some(values);
  }

  method SpliceResults(data: Json, entries: seq<Entry>, level: seq<nat>, results: seq<Json>) returns (r: Option<Json>)
    requires Indexes(level, |entries|) && |results| == |level|
    ensures r == ApplyResults(data, entries, level, results)
  {
    var updated := data;
    var i := 0;
    while i < |level|
      invariant 0 <= i <= |level|
      invariant ApplyResults(updated, entries, level[i..], results[i..]) == ApplyResults(data, entries, level, results)
    {
      assert level[i..][1..] == level[i + 1..] && results[i..][1..] == results[i + 1..];
      var next := ReplaceAt(updated, entries[level[i]].path, results[i]);
      if next.None? { return None; }
      updated := next.value;
      i := i + 1;
    }
    return Some(updated);
  }

  // ---- the whole run ----

  ghost predicate ValidOrder(entries: seq<Entry>, order: seq<nat>) {
    && Indexes(order, |entries|) && SameElements(order, Positions(|entries|))
    && DescendantsFirst(Paths(entries), order)
  }

  ghost predicate ObjectsAt(data: Json, entries: seq<Entry>, level: seq<nat>) {
    Indexes(level, |entries|) && forall i :: 0 <= i < |level| ==> HoldsObject(data, entries[level[i]].path)
  }

  ghost predicate ObjectsFrom(data: Json, entries: seq<Entry>, levels: seq<seq<nat>>, h: nat) {
    forall g :: h <= g < |levels| ==> ObjectsAt(data, entries, levels[g])
  }

  lemma {:induction false} LevelKeepsObjects(data: Json, next: Json, entries: seq<Entry>, levels: seq<seq<nat>>, h: nat,
          versionKey: string)
    requires DistinctPaths(entries) && IsSchedule(Paths(entries), levels) && h < |levels|
    requires forall g :: 0 <= g < |levels| ==> Indexes(levels[g], |entries|) && Antichain(entries, levels[g])
    requires ObjectsFrom(data, entries, levels, h) && RunLevel(data, entries, levels[h], versionKey) == Some(next)
    ensures ObjectsFrom(next, entries, levels, h + 1)
  {
    LevelIsSequential(data, entries, levels[h], versionKey);
    forall g | h + 1 <= g < |levels| ensures ObjectsAt(next, entries, levels[g]) {
      assert ObjectsAt(data, entries, levels[g]);
      forall i | 0 <= i < |levels[g]| ensures HoldsObject(next, entries[levels[g][i]].path) {
        var entry := levels[g][i];
        forall k | 0 <= k < |levels[h]| ensures !IsPrefix(entries[levels[h][k]].path, entries[entry].path) {
          LevelAbove(entries, levels, h, levels[h][k], g, entry);
        }
        RunKeepsObject(data, entries, levels[h], versionKey, entries[entry].path);
      }
    }
  }

  lemma {:induction false} LevelAbove(entries: seq<Entry>, levels: seq<seq<nat>>, h: nat, lower: nat, g: nat,
          higher: nat)
    requires DistinctPaths(entries) && IsSchedule(Paths(entries), levels) && h < g < |levels|
    requires lower in levels[h] && higher in levels[g] && lower < |entries| && higher < |entries|
    ensures !IsPrefix(entries[lower].path, entries[higher].path)
  {
    var l := LevelIsHeight(Paths(entries), levels, lower);
    assert lower != higher && Paths(entries)[lower] != Paths(entries)[higher];
    if IsDescendantOf(entries[higher].path, entries[lower].path) {
      DescendantsEarlier(Paths(entries), levels, lower, h, higher, g);
    }
  }

  method ExecuteLevel(data: Json, entries: seq<Entry>, level: seq<nat>, versionKey: string, interleave: bool)
    returns (r: Option<Json>)
    requires Indexes(level, |entries|) && ObjectsAt(data, entries, level)
    ensures r == RunLevel(data, entries, level, versionKey)
  {
    var results;
    if interleave {
      results := RunLevelInterleaved(data, entries, level, versionKey);
    } else {
      results := RunLevelMapped(data, entries, level, versionKey);
    }
    if results.None? { return None; }
    r := SpliceResults(data, entries, level, results.value);
  }

  method ExecuteLevels(data: Json, entries: seq<Entry>, levels: seq<seq<nat>>, versionKey: string, interleave: bool)
    returns (r: Option<Json>)
    requires DistinctPaths(entries) && IsSchedule(Paths(entries), levels)
    requires forall h :: 0 <= h < |levels| ==> Indexes(levels[h], |entries|) && Antichain(entries, levels[h])
    requires ObjectsFrom(data, entries, levels, 0)
    ensures r == RunLevels(data, entries, levels, versionKey)
  {
    var current := data;
    var h := 0;
    while h < |levels|
      invariant 0 <= h <= |levels|
      invariant ObjectsFrom(current, entries, levels, h)
      invariant RunLevels(current, entries, levels[h..], versionKey) == RunLevels(data, entries, levels, versionKey)
    {
      assert ObjectsAt(current, entries, levels[h]);
      var next := ExecuteLevel(current, entries, levels[h], versionKey, interleave);
      FirstLevel(current, entries, levels[h..], versionKey, next);
      if next.None? { return None; }
      LevelKeepsObjects(current, next.value, entries, levels, h, versionKey);
      assert levels[h..][1..] == levels[h + 1..];
      current := next.value;
      h := h + 1;
    }
    return Some(current);
  }

  /**
   `ThreadedBackend.execute` and `AsyncBackend.execute`: schedule the plan and run its
   levels, mapped in a pool or interleaved as tasks.  The result is that of every
   sequential order that puts descendants first.
   */
  method Execute(data: Json, entries: seq<Entry>, versionKey: string, interleave: bool) returns (r: Option<Json>)
    requires DistinctPaths(entries)
    requires forall i :: 0 <= i < |entries| ==> HoldsObject(data, entries[i].path)
    ensures forall order :: ValidOrder(entries, order) ==> r == RunInOrder(data, entries, order, versionKey)
  {
    var levels := Levels(Paths(entries));
    LevelsReorderThemselves(Paths(entries), levels);
    SplicedLevelsAreAntichains(entries, levels, levels);
    assert ObjectsFrom(data, entries, levels, 0);
    r := ExecuteLevels(data, entries, levels, versionKey, interleave);
    SameForEveryOrder(data, entries, levels, versionKey);
  }

  lemma {:induction false} LevelsReorderThemselves(paths: seq<Path>, levels: seq<seq<nat>>)
    requires IsSchedule(paths, levels)
    ensures Reorders(levels, levels)
  {
    forall h | 0 <= h < |levels| ensures Distinct(levels[h]) {
      FilterDistinct(Positions(|paths|), OfHeight(paths, h));
    }
  }

  lemma {:induction false} SameForEveryOrder(data: Json, entries: seq<Entry>, levels: seq<seq<nat>>, versionKey: string)
    requires DistinctPaths(entries) && IsSchedule(Paths(entries), levels)
    requires forall h :: 0 <= h < |levels| ==> Indexes(levels[h], |entries|)
    ensures forall order :: ValidOrder(entries, order) ==>
              RunLevels(data, entries, levels, versionKey) == RunInOrder(data, entries, order, versionKey)
  {
    LevelsReorderThemselves(Paths(entries), levels);
    forall order | ValidOrder(entries, order)
      ensures RunLevels(data, entries, levels, versionKey) == RunInOrder(data, entries, order, versionKey)
    {
      ParallelEqualsSequential(data, entries, levels, levels, order, versionKey);
    }
  }
}
