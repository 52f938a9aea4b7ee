/**
 Exactly what a run does, for any target policy, when each migration keeps the nested entries
 of the value it is applied to: planned entries reach their targets and nothing else moves.
 From this follow exactly when a run converges and exactly when running again is harmless.
 */
module Movement {
  import opened Wrappers
  import opened Collections
  import opened Sorting
  import opened Payload
  import opened Schedule
  import opened Execution
  import opened Backends
  import opened Identity
  import opened Indexed
  import opened EdgePath
  import opened Extraction
  import opened Planning
  import opened Splicing
  import opened Runs
  import opened Convergence

  // ---- migrations that keep nested entries, along a run ----

  /** The migration returned a dict with the kind tag and the nested versioned entries of its argument. */
  ghost predicate SameEntries(c: Codec, b: Backend, x: Json, y: Json) {
    y.Object? && WellFormed(y) && Child(y, Key(c.kindKey)) == Child(x, Key(c.kindKey)) && SameNested(c, b, x, y)
  }

  /** Each migration of the chain, on the value it is applied to. */
  ghost predicate ChainKeeps(r: Runner, edges: seq<EdgeId>, value: Json)
    decreases |edges|
  {
    edges != [] && r.migrate(edges[0])(value).Some? ==>
      var migrated := r.migrate(edges[0])(value).value;
      SameEntries(r.codec, r.graph, value, migrated) && ChainKeeps(r, edges[1..], Stamped(r, edges[0], migrated))
  }

  /** Each chain of the run, on the value it finds. */
  ghost predicate RunKeeps(r: Runner, plan: seq<PlanEntry>, order: seq<nat>, data: Json)
    requires Indexes(order, |plan|)
    decreases |order|
  {
    order != [] && Get(data, plan[order[0]].path).Some? ==>
      && ChainKeeps(r, plan[order[0]].edges, Get(data, plan[order[0]].path).value)
      && var next := RunEntry(data, Bind(r, plan)[order[0]], r.codec.versionKey);
         next.Some? ==> RunKeeps(r, plan, order[1..], next.value)
  }

  /** Every migration of the run on this payload keeps the nested entries of its argument. */
  ghost predicate MigrationsKeep(r: Runner, t: Target, limit: int, data: Json) {
    var plan := PlanOf(r, t, limit, data);
    Indexes(Descending(|plan|), |plan|) && RunKeeps(r, plan, Descending(|plan|), data)
  }

  // ---- one entry ----

  lemma {:induction false} StepKeeps(r: Runner, edge: EdgeId, value: Json)
    requires SoundRunner(r) && edge in r.graph.edges && WellFormed(value)
    requires Carries(r.codec, value, edge.source.kind, edge.source.version) && r.migrate(edge)(value).Some?
    requires SameEntries(r.codec, r.graph, value, r.migrate(edge)(value).value)
    ensures var next := Stamped(r, edge, r.migrate(edge)(value).value);
            && WellFormed(next) && Carries(r.codec, next, edge.target.kind, edge.target.version)
            && SameNested(r.codec, r.graph, value, next)
  {
    var migrated := r.migrate(edge)(value).value;
    var next := Stamped(r, edge, migrated);
    StampFacts(r.codec, r.graph, migrated, r.codec.show(edge.target.version));
    forall path | path != [] ensures SameMatch(r.codec, r.graph, value, next, path) {
      if path[0] == Key(r.codec.versionKey) {
        VersionTextHidesNothing(r.codec, r.graph, value, edge.source.kind, edge.source.version, path);
      } else {
        assert Get(next, path) == Get(migrated, path);
        assert SameMatch(r.codec, r.graph, value, migrated, path);
      }
    }
  }

  /** A chain carries a value from the source to the target version and keeps what is nested in it. */
  lemma {:induction false} ChainMoves(r: Runner, from: NodeId, to: NodeId, edges: seq<EdgeId>, value: Json)
    requires SoundRunner(r) && Chain(r.graph.edges, OnWalk(r.graph, r.discriminator), from, to, edges)
    requires WellFormed(value) && Carries(r.codec, value, from.kind, from.version) && ChainKeeps(r, edges, value)
    requires RunSteps(BindSteps(r, edges), r.codec.versionKey, value).Some?
    ensures var result := RunSteps(BindSteps(r, edges), r.codec.versionKey, value).value;
            && WellFormed(result) && Carries(r.codec, result, to.kind, to.version)
            && SameNested(r.codec, r.graph, value, result)
    decreases |edges|
  {
    if edges != [] {
      ChainStep(r, edges, value);
      StepKeeps(r, edges[0], value);
      var next := Stamped(r, edges[0], r.migrate(edges[0])(value).value);
      ChainMoves(r, edges[0].target, to, edges[1..], next);
      SameNestedTransitive(r.codec, r.graph, value, next,
          RunSteps(BindSteps(r, edges), r.codec.versionKey, value).value);
    }
  }

  /** The versioned dict at the path is a model with this identity. */
  ghost predicate IsAt(r: Runner, data: Json, path: Path, id: NodeId) {
    Matched(r.codec, r.graph, data, path) && NodeFor(r.codec, r.graph, data, path).id == id
  }

  /** One turn of the run: the entry reaches its target, and every other versioned dict keeps its model. */
  lemma {:induction false} EntryMoves(r: Runner, t: Target, e: PlanEntry, data: Json, next: Json) returns (result: Json)
    requires SoundRunner(r) && Move(r, t, e) && Waiting(r, e, data) && WellFormed(data)
    requires ChainKeeps(r, e.edges, Get(data, e.path).value)
    requires RunEntry(data, Entry(e.path, BindSteps(r, e.edges)), r.codec.versionKey) == Some(next)
    ensures HoldsObject(data, e.path) && ReplaceAt(data, e.path, result) == Some(next) && result.Object?
    ensures WellFormed(next)
    ensures SameElsewhere(r.codec, r.graph, data, next, e.path) && IsAt(r, next, e.path, e.target.id)
  {
    var value := Get(data, e.path).value;
    GetWellFormed(data, e.path);
    result := RunSteps(BindSteps(r, e.edges), r.codec.versionKey, value).value;
    MatchedCarries(r.codec, r.graph, value, e.source);
    ChainMoves(r, e.source.id, e.target.id, e.edges, value);
    ReplaceWellFormed(data, e.path, result);
    SpliceKeepsElsewhere(r.codec, r.graph, data, e.path, result);
    EntryLands(r, t, e, data, result);
  }

  lemma {:induction false} EntryLands(r: Runner, t: Target, e: PlanEntry, data: Json, result: Json)
    requires SoundRunner(r) && Arrives(r.graph, t, e.target.id) && ReplaceAt(data, e.path, result).Some?
    requires Carries(r.codec, result, e.target.id.kind, e.target.id.version)
    ensures IsAt(r, ReplaceAt(data, e.path, result).value, e.path, e.target.id)
  {
    SpliceGivesInside(data, e.path, result, e.path);
    assert FindModel(r.graph.nodes, e.target.id).value in r.graph.nodes;
    CarriedMatches(r.codec, r.graph, result, e.target.id);
    assert e.path[|e.path|..] == [];
  }

  // ---- the run ----

  /**
   `out` holds the versioned dicts of `data`: those that awaited their turn at their targets, the
   others as they were.
   */
  ghost predicate Moved(r: Runner, plan: seq<PlanEntry>, order: seq<nat>, data: Json, out: Json)
    requires Indexes(order, |plan|)
  {
    && SameMatches(r.codec, r.graph, data, out)
    && (forall path :: !Awaits(plan, order, path) ==> SameMatch(r.codec, r.graph, data, out, path))
    && (forall i :: 0 <= i < |order| ==> IsAt(r, out, plan[order[i]].path, plan[order[i]].target.id))
  }

  lemma {:induction false} RunMovesInOrder(r: Runner, t: Target, plan: seq<PlanEntry>, order: seq<nat>, data: Json)
    requires SoundRunner(r) && InTurn(plan, order) && Queued(r, plan, order, data) && RunKeeps(r, plan, order, data)
    requires forall e :: e in plan ==> Move(r, t, e)
    requires RunInOrder(data, Bind(r, plan), order, r.codec.versionKey).Some?
    ensures WellFormed(RunInOrder(data, Bind(r, plan), order, r.codec.versionKey).value)
    ensures Moved(r, plan, order, data, RunInOrder(data, Bind(r, plan), order, r.codec.versionKey).value)
    decreases |order|
  {
    if order != [] {
      var e := plan[order[0]];
      assert Waiting(r, e, data) && e in plan;
      var next := RunEntry(data, Bind(r, plan)[order[0]], r.codec.versionKey).value;
      var result := EntryMoves(r, t, e, data, next);
      StepQueued(r, plan, order, data, next, result);
      TailInTurn(plan, order);
      RunMovesInOrder(r, t, plan, order[1..], next);
      MovedByOne(r, plan, order, data, next, RunInOrder(next, Bind(r, plan), order[1..], r.codec.versionKey).value);
    }
  }

  lemma {:induction false} MovedByOne(r: Runner, plan: seq<PlanEntry>, order: seq<nat>, data: Json, next: Json,
          out: Json)
    requires InTurn(plan, order) && order != [] && Indexes(order[1..], |plan|) && Waiting(r, plan[order[0]], data)
    requires SameElsewhere(r.codec, r.graph, data, next, plan[order[0]].path)
    requires IsAt(r, next, plan[order[0]].path, plan[order[0]].target.id) && Moved(r, plan, order[1..], next, out)
    ensures Moved(r, plan, order, data, out)
  {
    var here := plan[order[0]].path;
    FirstNotAgain(plan, order);
    assert SameMatch(r.codec, r.graph, next, out, here);
    forall path ensures Matched(r.codec, r.graph, data, path) <==> Matched(r.codec, r.graph, out, path) {
      assert path != here ==> SameMatch(r.codec, r.graph, data, next, path);
    }
    forall path | !Awaits(plan, order, path) ensures SameMatch(r.codec, r.graph, data, out, path) {
      AwaitsMore(plan, order, path);
      assert SameMatch(r.codec, r.graph, data, next, path) && SameMatch(r.codec, r.graph, next, out, path);
    }
    forall i | 0 <= i < |order| ensures IsAt(r, out, plan[order[i]].path, plan[order[i]].target.id) {
      if i > 0 {
        assert order[1..][i - 1] == order[i];
      }
    }
  }

  lemma {:induction false} FirstNotAgain(plan: seq<PlanEntry>, order: seq<nat>)
    requires InTurn(plan, order) && order != []
    ensures Indexes(order[1..], |plan|) && !Awaits(plan, order[1..], plan[order[0]].path)
  {
    forall i | 0 <= i < |order[1..]| ensures plan[order[1..][i]].path != plan[order[0]].path {
      assert order[1..][i] == order[i + 1] && order[i + 1] != order[0];
      assert EntryPaths(plan)[order[i + 1]] != EntryPaths(plan)[order[0]];
    }
  }

  lemma {:induction false} AwaitsMore(plan: seq<PlanEntry>, order: seq<nat>, path: Path)
    requires Indexes(order, |plan|) && order != [] && !Awaits(plan, order, path)
    ensures plan[order[0]].path != path && Indexes(order[1..], |plan|) && !Awaits(plan, order[1..], path)
  {
    forall i | 0 <= i < |order[1..]| ensures plan[order[1..][i]].path != path {
      assert order[1..][i] == order[i + 1];
    }
  }

  /** The versioned dict at the path plans an entry that the policy keeps. */
  predicate KeptAt(r: Runner, t: Target, data: Json, path: Path) {
    && Matched(r.codec, r.graph, data, path)
    && var planned := PlanAt(r, t, data, path);
       planned.Ok? && planned.value.Some? && Judge(r.graph, r.policy, planned.value.value) == Ok(true)
  }

  /**
   `out` has the versioned dicts of `data`: those the plan keeps at their targets, all others
   with the models they had.
   */
  ghost predicate Relocated(r: Runner, t: Target, data: Json, out: Json) {
    && SameMatches(r.codec, r.graph, data, out)
    && (forall e :: Kept(r, t, data, e) ==> IsAt(r, out, e.path, e.target.id))
    && (forall path :: !KeptAt(r, t, data, path) ==> SameMatch(r.codec, r.graph, data, out, path))
  }

  lemma {:induction false} MovedIsRelocated(r: Runner, t: Target, plan: seq<PlanEntry>, data: Json, out: Json)
    requires Indexes(Descending(|plan|), |plan|) && Moved(r, plan, Descending(|plan|), data, out)
    requires forall e :: e in plan <==> Kept(r, t, data, e)
    ensures Relocated(r, t, data, out)
  {
    var order := Descending(|plan|);
    forall e | Kept(r, t, data, e) ensures IsAt(r, out, e.path, e.target.id) {
      assert e in plan;
      var k :| 0 <= k < |plan| && plan[k] == e;
      assert order[|plan| - 1 - k] == k;
    }
    forall path | !KeptAt(r, t, data, path) ensures SameMatch(r.codec, r.graph, data, out, path) {
      forall i | 0 <= i < |order| ensures plan[order[i]].path != path {
        assert plan[order[i]] in plan && Kept(r, t, data, plan[order[i]]);
      }
      assert !Awaits(plan, order, path);
    }
  }

  /**
   What a run does: its output has the payload's versioned dicts at the same paths, those the
   plan keeps at their targets and all others with the models they had.
   */
  lemma {:induction false} RunMoves(r: Runner, t: Target, limit: int, data: Json)
    requires SoundRunner(r) && WellFormed(data) && MigrationsKeep(r, t, limit, data) && RunResult(r, t, limit, data).Ok?
    ensures WellFormed(RunResult(r, t, limit, data).value) && Relocated(r, t, data, RunResult(r, t, limit, data).value)
  {
    PlanIsQueued(r, t, limit, data);
    PlanExactly(r, t, limit, data);
    var plan := PlanOf(r, t, limit, data);
    RunMovesInOrder(r, t, plan, Descending(|plan|), data);
    MovedIsRelocated(r, t, plan, data, RunResult(r, t, limit, data).value);
  }

  // ---- exactly when a run converges ----

  /** The run planned every versioned dict, and the policy judged every entry without an error. */
  ghost predicate PlannedAndJudged(r: Runner, t: Target, data: Json) {
    Plannable(r, t, data) && forall e :: Plans(r, t, data, e) ==> Judge(r.graph, r.policy, e).Ok?
  }

  /** Where the plan keeps an entry, the output is at its target. */
  lemma {:induction false} KeptLands(r: Runner, t: Target, data: Json, out: Json, path: Path)
    requires Consistent(r.graph) && Relocated(r, t, data, out)
    requires KeptAt(r, t, data, path) && Matched(r.codec, r.graph, out, path)
    ensures Settled(r.graph, t, NodeFor(r.codec, r.graph, out, path)) && HasTarget(r, t, out, path)
  {
    var e := PlanAt(r, t, data, path).value.value;
    assert Kept(r, t, data, e) && IsAt(r, out, path, e.target.id);
    PlansMove(r, t, data, e);
    TargetStable(r.graph, t, e.source, NodeFor(r.codec, r.graph, out, path));
  }

  /** A versioned dict is at its target when it plans nothing, or plans to stay. */
  lemma {:induction false} SettledWhenPlanned(r: Runner, t: Target, data: Json, path: Path)
    requires Consistent(r.graph) && Matched(r.codec, r.graph, data, path) && PlanAt(r, t, data, path).Ok?
    ensures var planned := PlanAt(r, t, data, path).value;
            Settled(r.graph, t, NodeFor(r.codec, r.graph, data, path)) <==>
              planned.None? || planned.value.source.id == planned.value.target.id
  {
    var planned := PlanAt(r, t, data, path).value;
    if planned.Some? {
      PlansMove(r, t, data, planned.value);
    }
  }

  /**
   A versioned dict of the output is off its target exactly when it was planned, dropped, and off
   its target before.
   */
  lemma {:induction false} OutputSettledAt(r: Runner, t: Target, data: Json, out: Json, path: Path)
    requires Consistent(r.graph) && Plannable(r, t, data) && Relocated(r, t, data, out)
    requires Matched(r.codec, r.graph, data, path) && Matched(r.codec, r.graph, out, path)
    ensures var planned := PlanAt(r, t, data, path);
            && planned.Ok?
            && (Settled(r.graph, t, NodeFor(r.codec, r.graph, out, path)) <==>
                  KeptAt(r, t, data, path) || planned.value.None?
                  || planned.value.value.source.id == planned.value.value.target.id)
  {
    assert PlanAt(r, t, data, path).Ok?;
    if KeptAt(r, t, data, path) {
      KeptLands(r, t, data, out, path);
    } else {
      assert SameMatch(r.codec, r.graph, data, out, path);
      SettledWhenPlanned(r, t, data, path);
    }
  }

  /**
   A run that succeeds leaves every versioned dict at its target if and only if the policy
   drops only entries that are at theirs.
   */
  lemma {:induction false} ConvergesExactly(r: Runner, t: Target, limit: int, data: Json)
    requires SoundRunner(r) && WellFormed(data) && MigrationsKeep(r, t, limit, data) && RunResult(r, t, limit, data).Ok?
    ensures AllSettled(r.codec, r.graph, t, RunResult(r, t, limit, data).value) <==> DropsOnlySettled(r, t, limit, data)
  {
    var out := RunResult(r, t, limit, data).value;
    RunMoves(r, t, limit, data);
    PlanExactly(r, t, limit, data);
    PlannedExactly(r, t, limit, data);
    if DropsOnlySettled(r, t, limit, data) {
      forall path | Matched(r.codec, r.graph, out, path)
        ensures Settled(r.graph, t, NodeFor(r.codec, r.graph, out, path))
      {
        DroppedWasSettled(r, t, limit, data, out, path);
      }
    }
    if AllSettled(r.codec, r.graph, t, out) {
      forall e | e in Planned(r, t, limit, data) && Judge(r.graph, r.policy, e) == Ok(false)
        ensures e.source.id == e.target.id
      {
        OutputSettledAt(r, t, data, out, e.path);
      }
    }
  }

  lemma {:induction false} DroppedWasSettled(r: Runner, t: Target, limit: int, data: Json, out: Json, path: Path)
    requires Consistent(r.graph) && PlannedAndJudged(r, t, data) && Relocated(r, t, data, out)
    requires DropsOnlySettled(r, t, limit, data)
    requires forall e :: e in Planned(r, t, limit, data) <==> Plans(r, t, data, e)
    requires Matched(r.codec, r.graph, out, path)
    ensures Settled(r.graph, t, NodeFor(r.codec, r.graph, out, path))
  {
    assert Matched(r.codec, r.graph, data, path);
    OutputSettledAt(r, t, data, out, path);
    if !KeptAt(r, t, data, path) && PlanAt(r, t, data, path).value.Some? {
      DroppedStays(r, t, limit, data, PlanAt(r, t, data, path).value.value);
    }
  }

  lemma {:induction false} DroppedStays(r: Runner, t: Target, limit: int, data: Json, e: PlanEntry)
    requires PlannedAndJudged(r, t, data) && DropsOnlySettled(r, t, limit, data)
    requires forall e :: e in Planned(r, t, limit, data) <==> Plans(r, t, data, e)
    requires Matched(r.codec, r.graph, data, e.path) && PlanAt(r, t, data, e.path) == Ok(Some(e))
    requires !KeptAt(r, t, data, e.path)
    ensures e.source.id == e.target.id
  {
    assert Plans(r, t, data, e);
    assert Judge(r.graph, r.policy, e).Ok?;
    assert e in Planned(r, t, limit, data);
  }

  // ---- exactly when running again is harmless ----

  /**
   The second run plans an entry without steps where the first one kept an entry, and
   elsewhere what the first one planned.
   */
  lemma {:induction false} ReplansAt(r: Runner, t: Target, data: Json, out: Json, path: Path)
    requires Consistent(r.graph) && Plannable(r, t, data) && Relocated(r, t, data, out)
    requires Matched(r.codec, r.graph, out, path)
    ensures Matched(r.codec, r.graph, data, path) && PlanAt(r, t, out, path).Ok?
    ensures var again := PlanAt(r, t, out, path).value;
            if KeptAt(r, t, data, path) then again.Some? && NoOp(again.value)
            else again == PlanAt(r, t, data, path).value
  {
    assert Matched(r.codec, r.graph, data, path);
    if KeptAt(r, t, data, path) {
      KeptLands(r, t, data, out, path);
      SettledPlansNoOp(r, t, out, path);
    } else {
      assert SameMatch(r.codec, r.graph, data, out, path);
    }
  }

  /** Whatever the second run plans is without steps, or was dropped by the first one. */
  lemma {:induction false} ReplansEntry(r: Runner, t: Target, data: Json, out: Json, e: PlanEntry)
    requires Consistent(r.graph) && PlannedAndJudged(r, t, data) && Relocated(r, t, data, out) && Plans(r, t, out, e)
    ensures if KeptAt(r, t, data, e.path) then NoOp(e) else Judge(r.graph, r.policy, e) == Ok(false)
  {
    ReplansAt(r, t, data, out, e.path);
    if !KeptAt(r, t, data, e.path) {
      assert Plans(r, t, data, e);
    }
  }

  lemma {:induction false} ReplansKept(r: Runner, t: Target, data: Json, out: Json, path: Path) returns (e: PlanEntry)
    requires Consistent(r.graph) && Plannable(r, t, data) && Relocated(r, t, data, out) && KeptAt(r, t, data, path)
    ensures Plans(r, t, out, e) && e.path == path && NoOp(e)
  {
    KeptIsMatched(r, t, data, out, path);
    ReplansAt(r, t, data, out, path);
    e := PlanAt(r, t, out, path).value.value;
    assert e.path == path;
  }

  lemma {:induction false} KeptIsMatched(r: Runner, t: Target, data: Json, out: Json, path: Path)
    requires SameMatches(r.codec, r.graph, data, out) && KeptAt(r, t, data, path)
    ensures Matched(r.codec, r.graph, out, path)
  {
  }

  lemma {:induction false} Replannable(r: Runner, t: Target, data: Json, out: Json)
    requires Consistent(r.graph) && Plannable(r, t, data) && Relocated(r, t, data, out)
    ensures Plannable(r, t, out)
  {
    forall path | Matched(r.codec, r.graph, out, path) ensures PlanAt(r, t, out, path).Ok? {
      ReplansAt(r, t, data, out, path);
    }
  }

  ghost predicate NothingKept(r: Runner, t: Target, data: Json) {
    forall path :: !KeptAt(r, t, data, path)
  }

  /** The second run's policy accepts its entries when it tolerates those without steps, or there is none. */
  lemma {:induction false} RerunJudged(r: Runner, t: Target, data: Json, out: Json)
    requires Consistent(r.graph) && PlannedAndJudged(r, t, data) && Relocated(r, t, data, out)
    ensures (forall e :: Plans(r, t, out, e) ==> Judge(r.graph, r.policy, e).Ok?) <==>
              ToleratesNoOps(r.policy) || NothingKept(r, t, data)
    ensures forall e :: Kept(r, t, out, e) ==> NoOp(e)
  {
    forall e | Plans(r, t, out, e)
      ensures Kept(r, t, out, e) ==> NoOp(e)
      ensures Judge(r.graph, r.policy, e).Ok? <==> ToleratesNoOps(r.policy) || !KeptAt(r, t, data, e.path)
    {
      ReplansEntry(r, t, data, out, e);
      if KeptAt(r, t, data, e.path) {
        JudgeNoOp(r.graph, r.policy, e);
      }
    }
    if path :| KeptAt(r, t, data, path) {
      var e := ReplansKept(r, t, data, out, path);
      assert Judge(r.graph, r.policy, e).Ok? <==> ToleratesNoOps(r.policy);
    }
  }

  lemma {:induction false} RerunPlan(r: Runner, t: Target, limit: int, data: Json, out: Json)
    requires Consistent(r.graph) && PlannedAndJudged(r, t, data) && Relocated(r, t, data, out)
    requires Compiles(r.graph, t) && WellFormed(out) && Extract(r.codec, r.graph, limit, out).Ok?
    ensures var again := FindPlan(r.graph, r.discriminator, r.policy, t, Extract(r.codec, r.graph, limit, out).value);
            && (again.Ok? <==> ToleratesNoOps(r.policy) || NothingKept(r, t, data))
            && (again.Ok? ==> forall e :: e in again.value ==> NoOp(e))
  {
    Replannable(r, t, data, out);
    RerunJudged(r, t, data, out);
    PlanExactly(r, t, limit, out);
  }

  /** The output is nested no deeper than the payload was, so a second extraction succeeds like the first. */
  lemma {:induction false} OutputExtracts(r: Runner, t: Target, limit: int, data: Json, out: Json)
    requires WellFormed(data) && WellFormed(out) && Relocated(r, t, data, out)
    requires Extract(r.codec, r.graph, limit, data).Ok?
    ensures Extract(r.codec, r.graph, limit, out).Ok?
  {
    SameMatchesSameDepth(r.codec, r.graph, data, out, limit);
    ExtractionExact(r.codec, r.graph, limit, data);
    ExtractionExact(r.codec, r.graph, limit, out);
  }

  /**
   Idempotence, for every target and every policy: running the output again returns it
   unchanged if and only if the policy tolerates entries that need no migration, or the first
   run's plan was empty.
   */
  lemma {:induction false} RunIsIdempotent(r: Runner, t: Target, limit: int, data: Json)
    requires SoundRunner(r) && WellFormed(data) && MigrationsKeep(r, t, limit, data) && RunResult(r, t, limit, data).Ok?
    ensures var out := RunResult(r, t, limit, data).value;
            RunResult(r, t, limit, out) == Ok(out) <==> ToleratesNoOps(r.policy) || PlanOf(r, t, limit, data) == []
  {
    var out := RunResult(r, t, limit, data).value;
    RunMoves(r, t, limit, data);
    PlanExactly(r, t, limit, data);
    OutputExtracts(r, t, limit, data, out);
    RerunPlan(r, t, limit, data, out);
    EmptyPlan(r, t, data, PlanOf(r, t, limit, data));
    if ToleratesNoOps(r.policy) || NothingKept(r, t, data) {
      NoOpPlanRuns(r, t, limit, out);
    }
  }

  lemma {:induction false} EmptyPlan(r: Runner, t: Target, data: Json, plan: seq<PlanEntry>)
    requires forall e :: e in plan <==> Kept(r, t, data, e)
    ensures plan == [] <==> NothingKept(r, t, data)
  {
    if plan != [] {
      KeptHere(r, t, data, plan[0]);
    } else {
      forall path ensures !KeptAt(r, t, data, path) {
        if KeptAt(r, t, data, path) {
          var e := KeptThere(r, t, data, path);
        }
      }
    }
  }

  lemma {:induction false} KeptHere(r: Runner, t: Target, data: Json, e: PlanEntry)
    requires Kept(r, t, data, e)
    ensures KeptAt(r, t, data, e.path)
  {
  }

  lemma {:induction false} KeptThere(r: Runner, t: Target, data: Json, path: Path) returns (e: PlanEntry)
    requires KeptAt(r, t, data, path)
    ensures Kept(r, t, data, e)
  {
    e := PlanAt(r, t, data, path).value.value;
  }
}
