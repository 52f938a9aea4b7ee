/**
 Convergence, for any target policy: when migrations bring in nothing that is off its target
 and the policy drops only entries that are at theirs, every versioned dict of the output is
 at its target, and running again changes nothing.
 */
module Convergence {
  import opened Wrappers
  import opened Collections
  import opened Sorting
  import opened Payload
  import opened Schedule
  import opened Execution
  import opened Backends
  import opened Identity
  import opened Indexed
  import opened EdgePath
  import opened Extraction
  import opened Planning
  import opened Splicing
  import opened Runs

  // ---- payloads at their target ----

  /** Every versioned dict of the payload is at its target. */
  ghost predicate AllSettled(c: Codec, b: Backend, t: Target, data: Json) {
    forall path :: Matched(c, b, data, path) ==> Settled(b, t, NodeFor(c, b, data, path))
  }

  /** Every versioned dict strictly inside `value` is at its target. */
  ghost predicate NestedSettled(c: Codec, b: Backend, t: Target, value: Json) {
    forall path :: path != [] && Matched(c, b, value, path) ==> Settled(b, t, NodeFor(c, b, value, path))
  }

  const ToLatest := Single(Latest)

  /** For the target "latest", at its target means: no greater model of the kind is registered. */
  lemma {:induction false} SettledAtLatest(b: Backend, node: NodeEntry)
    requires Consistent(b) && node in b.nodes && node.Model?
    ensures Settled(b, ToLatest, node) <==>
            forall n :: n in b.nodes && n.Model? && n.id.kind == node.id.kind ==> n == node || NodeLess(n.id, node.id)
  {
    KindMembers(b, node.id.kind);
    assert node in KindVersions(b, node.id.kind);
    LatestIsGreatest(b, node);
    var latest := ResolveSpec(b, Latest, node).value.value;
    NodeOrder();
    if latest.id == node.id {
      RegisteredUnique(b, latest, node);
    }
  }

  // ---- migrations ----

  ghost predicate StaysSettled(c: Codec, b: Backend, t: Target, x: Json, y: Json) {
    && y.Object? && WellFormed(y) && Child(y, Key(c.kindKey)) == Child(x, Key(c.kindKey))
    && (NestedSettled(c, b, t, x) ==> NestedSettled(c, b, t, y))
  }

  /**
   What convergence asks of the migration of an edge, on the values it is applied to: it
   returns a dict, keeps the kind tag, and brings in no nested entry that is off its target.
   */
  ghost predicate KeepsSettled(c: Codec, b: Backend, t: Target, edge: EdgeId, f: Json -> Option<Json>) {
    forall x :: WellFormed(x) && Carries(c, x, edge.source.kind, edge.source.version) && f(x).Some? ==>
      StaysSettled(c, b, t, x, f(x).value)
  }

  /** A sound configuration whose migrations bring in nothing that is off its target. */
  ghost predicate GoodRunner(r: Runner, t: Target) {
    SoundRunner(r) && forall e :: e in r.graph.edges ==> KeepsSettled(r.codec, r.graph, t, e, r.migrate(e))
  }

  // ---- one entry's chain ----

  ghost predicate Prepared(r: Runner, t: Target, value: Json, kind: string, version: Version) {
    WellFormed(value) && NestedSettled(r.codec, r.graph, t, value) && Carries(r.codec, value, kind, version)
  }

  lemma {:induction false} StampStaysSettled(c: Codec, b: Backend, t: Target, value: Json, version: string)
    requires value.Object? && WellFormed(value) && c.kindKey != c.versionKey && NestedSettled(c, b, t, value)
    ensures NestedSettled(c, b, t, Stamp(value, c.versionKey, version))
  {
    StampFacts(c, b, value, version);
    var w := Stamp(value, c.versionKey, version);
    forall path | path != [] && Matched(c, b, w, path) ensures Settled(b, t, NodeFor(c, b, w, path)) {
      assert Get(w, path) == Get(value, path);
      assert Matched(c, b, value, path);
    }
  }

  /** One migration of a chain, stamped. */
  lemma {:induction false} StepPrepares(r: Runner, t: Target, edge: EdgeId, value: Json)
    requires GoodRunner(r, t) && edge in r.graph.edges && Prepared(r, t, value, edge.source.kind, edge.source.version)
    requires r.migrate(edge)(value).Some?
    ensures Prepared(r, t, Stamped(r, edge, r.migrate(edge)(value).value), edge.target.kind, edge.target.version)
  {
    var migrated := r.migrate(edge)(value).value;
    assert KeepsSettled(r.codec, r.graph, t, edge, r.migrate(edge));
    assert StaysSettled(r.codec, r.graph, t, value, migrated);
    StampFacts(r.codec, r.graph, migrated, r.codec.show(edge.target.version));
    StampStaysSettled(r.codec, r.graph, t, migrated, r.codec.show(edge.target.version));
  }

  /** A chain of well-behaved migrations carries a prepared value from the source to the target version. */
  lemma {:induction false} ChainConverges(r: Runner, t: Target, from: NodeId, to: NodeId, edges: seq<EdgeId>,
          value: Json)
    requires GoodRunner(r, t) && Chain(r.graph.edges, OnWalk(r.graph, r.discriminator), from, to, edges)
    requires Prepared(r, t, value, from.kind, from.version)
    requires RunSteps(BindSteps(r, edges), r.codec.versionKey, value).Some?
    ensures Prepared(r, t, RunSteps(BindSteps(r, edges), r.codec.versionKey, value).value, to.kind, to.version)
    decreases |edges|
  {
    if edges != [] {
      ChainStep(r, edges, value);
      StepPrepares(r, t, edges[0], value);
      ChainConverges(r, t, edges[0].target, to, edges[1..], Stamped(r, edges[0], r.migrate(edges[0])(value).value));
    }
  }

  // ---- the run ----

  /** Mid-run: what is off its target still awaits its turn. */
  ghost predicate Outstanding(r: Runner, t: Target, plan: seq<PlanEntry>, order: seq<nat>, data: Json)
    requires Indexes(order, |plan|)
  {
    forall path :: Matched(r.codec, r.graph, data, path) ==>
      Settled(r.graph, t, NodeFor(r.codec, r.graph, data, path)) || Awaits(plan, order, path)
  }

  /** When an entry's turn comes, everything versioned inside it is already at its target. */
  lemma {:induction false} InsideIsSettled(r: Runner, t: Target, plan: seq<PlanEntry>, order: seq<nat>, data: Json)
    requires InTurn(plan, order) && order != [] && Outstanding(r, t, plan, order, data) && Queued(r, plan, order, data)
    ensures HoldsObject(data, plan[order[0]].path)
    ensures NestedSettled(r.codec, r.graph, t, Get(data, plan[order[0]].path).value)
  {
    var path := plan[order[0]].path;
    assert Waiting(r, plan[order[0]], data);
    var value := Get(data, path).value;
    forall below | below != [] && Matched(r.codec, r.graph, value, below)
      ensures Settled(r.graph, t, NodeFor(r.codec, r.graph, value, below))
    {
      GetConcat(data, path, below);
      assert Matched(r.codec, r.graph, data, path + below);
      NothingInsideWaits(plan, order, below);
    }
  }

  /** A dict that is at its target, inside and out. */
  ghost predicate SettledDict(r: Runner, t: Target, value: Json) {
    value.Object? && WellFormed(value) && AllSettled(r.codec, r.graph, t, value)
  }

  /** One entry's result: at its target, with everything inside at its target. */
  lemma {:induction false} EntryConverges(r: Runner, t: Target, e: PlanEntry, value: Json)
    requires GoodRunner(r, t) && Move(r, t, e) && Match(r.codec, r.graph, value) == Some(e.source)
    requires WellFormed(value) && NestedSettled(r.codec, r.graph, t, value)
    requires RunSteps(BindSteps(r, e.edges), r.codec.versionKey, value).Some?
    ensures SettledDict(r, t, RunSteps(BindSteps(r, e.edges), r.codec.versionKey, value).value)
  {
    MatchedCarries(r.codec, r.graph, value, e.source);
    ChainConverges(r, t, e.source.id, e.target.id, e.edges, value);
    var result := RunSteps(BindSteps(r, e.edges), r.codec.versionKey, value).value;
    assert FindModel(r.graph.nodes, e.target.id).value in r.graph.nodes;
    CarriedMatches(r.codec, r.graph, result, e.target.id);
    forall path | Matched(r.codec, r.graph, result, path)
      ensures Settled(r.graph, t, NodeFor(r.codec, r.graph, result, path))
    {
    }
  }

  lemma {:induction false} StepResult(r: Runner, t: Target, plan: seq<PlanEntry>, order: seq<nat>, data: Json,
          next: Json) returns (result: Json)
    requires GoodRunner(r, t) && InTurn(plan, order) && order != [] && Move(r, t, plan[order[0]])
    requires Outstanding(r, t, plan, order, data) && Queued(r, plan, order, data)
    requires RunEntry(data, Bind(r, plan)[order[0]], r.codec.versionKey) == Some(next)
    ensures HoldsObject(data, plan[order[0]].path) && ReplaceAt(data, plan[order[0]].path, result) == Some(next)
    ensures SettledDict(r, t, result) && WellFormed(next)
  {
    var e := plan[order[0]];
    InsideIsSettled(r, t, plan, order, data);
    assert Waiting(r, e, data);
    var value := Get(data, e.path).value;
    GetWellFormed(data, e.path);
    result := RunSteps(BindSteps(r, e.edges), r.codec.versionKey, value).value;
    EntryConverges(r, t, e, value);
    ReplaceWellFormed(data, e.path, result);
  }

  lemma {:induction false} SplicedIsSettled(r: Runner, t: Target, data: Json, path: Path, result: Json, other: Path)
    requires ReplaceAt(data, path, result).Some? && SettledDict(r, t, result) && IsPrefix(path, other)
    requires Matched(r.codec, r.graph, ReplaceAt(data, path, result).value, other)
    ensures Settled(r.graph, t, NodeFor(r.codec, r.graph, ReplaceAt(data, path, result).value, other))
  {
    SpliceGivesInside(data, path, result, other);
    assert Matched(r.codec, r.graph, result, other[|path|..]);
  }

  lemma {:induction false} OutsideProgresses(r: Runner, t: Target, plan: seq<PlanEntry>, order: seq<nat>, data: Json,
          result: Json, path: Path)
    requires Indexes(order, |plan|) && order != [] && HoldsObject(data, plan[order[0]].path) && result.Object?
    requires ReplaceAt(data, plan[order[0]].path, result).Some? && !IsPrefix(plan[order[0]].path, path)
    requires Matched(r.codec, r.graph, data, path) ==>
               Settled(r.graph, t, NodeFor(r.codec, r.graph, data, path)) || Awaits(plan, order, path)
    ensures Indexes(order[1..], |plan|)
    ensures var next := ReplaceAt(data, plan[order[0]].path, result).value;
            Matched(r.codec, r.graph, next, path) ==>
              Settled(r.graph, t, NodeFor(r.codec, r.graph, next, path)) || Awaits(plan, order[1..], path)
  {
    SpliceKeepsOutside(r.codec, r.graph, data, plan[order[0]].path, result, path);
    if Awaits(plan, order, path) {
      StillAwaits(plan, order, path);
    }
  }

  lemma {:induction false} StepOutstanding(r: Runner, t: Target, plan: seq<PlanEntry>, order: seq<nat>, data: Json,
          next: Json, result: Json)
    requires Indexes(order, |plan|) && order != [] && Outstanding(r, t, plan, order, data)
    requires HoldsObject(data, plan[order[0]].path) && ReplaceAt(data, plan[order[0]].path, result) == Some(next)
    requires SettledDict(r, t, result)
    ensures Indexes(order[1..], |plan|) && Outstanding(r, t, plan, order[1..], next)
  {
    var here, rest := plan[order[0]].path, order[1..];
    forall path | Matched(r.codec, r.graph, next, path)
      ensures Settled(r.graph, t, NodeFor(r.codec, r.graph, next, path)) || Awaits(plan, rest, path)
    {
      if IsPrefix(here, path) {
        SplicedIsSettled(r, t, data, here, result, path);
      } else {
        OutsideProgresses(r, t, plan, order, data, result, path);
      }
    }
  }

  lemma {:induction false} RunProgresses(r: Runner, t: Target, plan: seq<PlanEntry>, order: seq<nat>, data: Json)
    requires GoodRunner(r, t) && InTurn(plan, order) && forall e :: e in plan ==> Move(r, t, e)
    requires Outstanding(r, t, plan, order, data) && Queued(r, plan, order, data)
    requires RunInOrder(data, Bind(r, plan), order, r.codec.versionKey).Some?
    ensures WellFormed(RunInOrder(data, Bind(r, plan), order, r.codec.versionKey).value)
    ensures AllSettled(r.codec, r.graph, t, RunInOrder(data, Bind(r, plan), order, r.codec.versionKey).value)
    decreases |order|
  {
    if order == [] {
      forall path | Matched(r.codec, r.graph, data, path)
        ensures Settled(r.graph, t, NodeFor(r.codec, r.graph, data, path))
      {
        assert !Awaits(plan, order, path);
      }
    } else {
      var next := RunEntry(data, Bind(r, plan)[order[0]], r.codec.versionKey).value;
      var result := StepResult(r, t, plan, order, data, next);
      StepOutstanding(r, t, plan, order, data, next, result);
      StepQueued(r, plan, order, data, next, result);
      TailInTurn(plan, order);
      RunProgresses(r, t, plan, order[1..], next);
    }
  }

  // ---- convergence ----

  /** The policy drops only entries that are at their target: decided before anything runs. */
  predicate DropsOnlySettled(r: Runner, t: Target, limit: int, data: Json) {
    forall e | e in Planned(r, t, limit, data) && Judge(r.graph, r.policy, e) == Ok(false) :: e.source.id == e.target.id
  }

  lemma {:induction false} RunStartsOutstanding(r: Runner, t: Target, limit: int, data: Json)
    requires Consistent(r.graph) && WellFormed(data) && Extract(r.codec, r.graph, limit, data).Ok?
    requires FindPlan(r.graph, r.discriminator, r.policy, t, Extract(r.codec, r.graph, limit, data).value).Ok?
    requires DropsOnlySettled(r, t, limit, data)
    ensures var plan := PlanOf(r, t, limit, data);
            Indexes(Descending(|plan|), |plan|) && Outstanding(r, t, plan, Descending(|plan|), data)
  {
    var plan := PlanOf(r, t, limit, data);
    PlanExactly(r, t, limit, data);
    PlannedExactly(r, t, limit, data);
    forall path | Matched(r.codec, r.graph, data, path)
      ensures Settled(r.graph, t, NodeFor(r.codec, r.graph, data, path)) || Awaits(plan, Descending(|plan|), path)
    {
      UnsettledAwaits(r, t, limit, data, plan, path);
    }
  }

  lemma {:induction false} UnsettledAwaits(r: Runner, t: Target, limit: int, data: Json, plan: seq<PlanEntry>,
          path: Path)
    requires Consistent(r.graph) && Matched(r.codec, r.graph, data, path) && Plannable(r, t, data)
    requires DropsOnlySettled(r, t, limit, data)
    requires forall e :: e in Planned(r, t, limit, data) <==> Plans(r, t, data, e)
    requires forall e :: e in plan <==> Kept(r, t, data, e)
    requires forall e :: Plans(r, t, data, e) ==> Judge(r.graph, r.policy, e).Ok?
    ensures Indexes(Descending(|plan|), |plan|)
    ensures Settled(r.graph, t, NodeFor(r.codec, r.graph, data, path)) || Awaits(plan, Descending(|plan|), path)
  {
    var at := PlanAt(r, t, data, path);
    assert at.Ok?;
    if at.value.Some? {
      var e := at.value.value;
      assert e.path == path && Plans(r, t, data, e) && Judge(r.graph, r.policy, e).Ok?;
      PlansMove(r, t, data, e);
      if Judge(r.graph, r.policy, e).value {
        KeptAwaits(plan, e);
      } else {
        assert e in Planned(r, t, limit, data);
      }
    }
  }

  /**
   Convergence: a run that succeeds leaves every versioned dict of the output at its target,
   when the policy drops only entries that are at theirs.
   */
  lemma {:induction false} RunConverges(r: Runner, t: Target, limit: int, data: Json)
    requires GoodRunner(r, t) && DropsOnlySettled(r, t, limit, data) && WellFormed(data)
    requires RunResult(r, t, limit, data).Ok?
    ensures WellFormed(RunResult(r, t, limit, data).value)
    ensures AllSettled(r.codec, r.graph, t, RunResult(r, t, limit, data).value)
  {
    PlanIsQueued(r, t, limit, data);
    RunStartsOutstanding(r, t, limit, data);
    var plan := PlanOf(r, t, limit, data);
    RunProgresses(r, t, plan, Descending(|plan|), data);
  }

  // ---- running again ----

  /** The policy tolerates an entry that needs no migration. */
  predicate ToleratesNoOps(policy: Policy) {
    policy.direction.AnyDirection? || policy.onDirection.SkipEntry?
  }

  lemma {:induction false} JudgeNoOp(b: Backend, policy: Policy, e: PlanEntry)
    requires NoOp(e)
    ensures Judge(b, policy, e).Ok? <==> ToleratesNoOps(policy)
  {
    NodeOrder();
  }

  lemma {:induction false} NoOpsChangeNothing(r: Runner, plan: seq<PlanEntry>, order: seq<nat>, data: Json)
    requires Indexes(order, |plan|) && forall i :: 0 <= i < |plan| ==> NoOp(plan[i]) && HoldsObject(data, plan[i].path)
    ensures RunInOrder(data, Bind(r, plan), order, r.codec.versionKey) == Some(data)
    decreases |order|
  {
    if order != [] {
      var path := plan[order[0]].path;
      assert BindSteps(r, plan[order[0]].edges) == [];
      ReplaceSucceeds(data, path, Get(data, path).value);
      ReplaceBySame(data, path);
      NoOpsChangeNothing(r, plan, order[1..], data);
    }
  }

  /** A run whose plan holds only entries without steps returns the payload as it is. */
  lemma {:induction false} NoOpPlanRuns(r: Runner, t: Target, limit: int, data: Json)
    requires Consistent(r.graph) && WellFormed(data) && Extract(r.codec, r.graph, limit, data).Ok?
    requires FindPlan(r.graph, r.discriminator, r.policy, t, Extract(r.codec, r.graph, limit, data).value).Ok?
    requires forall e :: e in PlanOf(r, t, limit, data) ==> NoOp(e)
    ensures RunResult(r, t, limit, data) == Ok(data)
  {
    PlanFromExtraction(r, t, limit, data);
    var plan := PlanOf(r, t, limit, data);
    forall i | 0 <= i < |plan| ensures NoOp(plan[i]) {
      assert plan[i] in plan;
    }
    NoOpsChangeNothing(r, plan, Descending(|plan|), data);
  }

  /** Some versioned dict has a target, rather than being skipped. */
  ghost predicate HasTargets(r: Runner, t: Target, data: Json) {
    exists path :: Matched(r.codec, r.graph, data, path) && HasTarget(r, t, data, path)
  }

  predicate HasTarget(r: Runner, t: Target, data: Json, path: Path)
    requires Matched(r.codec, r.graph, data, path)
  {
    var resolved := ResolveTarget(r.graph, t, NodeFor(r.codec, r.graph, data, path));
    resolved.Ok? && resolved.value.Some?
  }

  /** The plans of a payload that is at its target: entries without steps, one for each dict that has a target. */
  lemma {:induction false} SettledPlans(r: Runner, t: Target, data: Json)
    requires Consistent(r.graph) && AllSettled(r.codec, r.graph, t, data)
    ensures Plannable(r, t, data) && (forall e :: Plans(r, t, data, e) ==> NoOp(e))
    ensures HasTargets(r, t, data) <==> exists e :: Plans(r, t, data, e)
  {
    forall path | Matched(r.codec, r.graph, data, path) ensures PlanAt(r, t, data, path).Ok? {
      SettledPlansNoOp(r, t, data, path);
    }
    forall e | Plans(r, t, data, e) ensures NoOp(e) && HasTarget(r, t, data, e.path) {
      SettledPlansNoOp(r, t, data, e.path);
    }
    if HasTargets(r, t, data) {
      var path :| Matched(r.codec, r.graph, data, path) && HasTarget(r, t, data, path);
      var e := TargetPlans(r, t, data, path);
    }
  }

  lemma {:induction false} TargetPlans(r: Runner, t: Target, data: Json, path: Path) returns (e: PlanEntry)
    requires Consistent(r.graph) && AllSettled(r.codec, r.graph, t, data)
    requires Matched(r.codec, r.graph, data, path) && HasTarget(r, t, data, path)
    ensures Plans(r, t, data, e)
  {
    SettledPlansNoOp(r, t, data, path);
    e := PlanAt(r, t, data, path).value.value;
  }

  /**
   Running a payload that is at its target returns it unchanged exactly when the target
   compiles, the nesting limit admits the payload, and the policy tolerates entries that need
   no migration (or no dict has a target).  A directional policy set to raise rejects a
   payload that is already current.
   */
  lemma {:induction false} RerunExact(r: Runner, t: Target, limit: int, data: Json)
    requires Consistent(r.graph) && WellFormed(data) && AllSettled(r.codec, r.graph, t, data)
    ensures RunResult(r, t, limit, data) == Ok(data) <==>
              Compiles(r.graph, t) && !SomeTooDeep(r.codec, r.graph, limit, data, 0)
              && (ToleratesNoOps(r.policy) || !HasTargets(r, t, data))
    ensures RunResult(r, t, limit, data).Ok? ==> RunResult(r, t, limit, data).value == data
  {
    ExtractionExact(r.codec, r.graph, limit, data);
    if Extract(r.codec, r.graph, limit, data).Ok? {
      SettledReruns(r, t, limit, data);
    }
  }

  lemma {:induction false} SettledReruns(r: Runner, t: Target, limit: int, data: Json)
    requires Consistent(r.graph) && WellFormed(data) && AllSettled(r.codec, r.graph, t, data)
    requires Extract(r.codec, r.graph, limit, data).Ok?
    ensures RunResult(r, t, limit, data) == Ok(data) <==>
              Compiles(r.graph, t) && (ToleratesNoOps(r.policy) || !HasTargets(r, t, data))
    ensures RunResult(r, t, limit, data).Ok? ==> RunResult(r, t, limit, data).value == data
  {
    var plan := FindPlan(r.graph, r.discriminator, r.policy, t, Extract(r.codec, r.graph, limit, data).value);
    SettledPlans(r, t, data);
    PlanExactly(r, t, limit, data);
    forall e | Plans(r, t, data, e) ensures Judge(r.graph, r.policy, e).Ok? <==> ToleratesNoOps(r.policy) {
      JudgeNoOp(r.graph, r.policy, e);
    }
    if plan.Ok? {
      forall e | e in plan.value ensures NoOp(e) {
        assert Kept(r, t, data, e);
      }
      NoOpPlanRuns(r, t, limit, data);
    }
  }

  /** What a second run does to the output of a converging one. */
  lemma {:induction false} RerunAfterConvergence(r: Runner, t: Target, limit: int, data: Json)
    requires GoodRunner(r, t) && DropsOnlySettled(r, t, limit, data) && WellFormed(data)
    requires RunResult(r, t, limit, data).Ok?
    ensures var out := RunResult(r, t, limit, data).value;
            RunResult(r, t, limit, out) == Ok(out) <==>
              !SomeTooDeep(r.codec, r.graph, limit, out, 0) && (ToleratesNoOps(r.policy) || !HasTargets(r, t, out))
  {
    RunConverges(r, t, limit, data);
    RerunExact(r, t, limit, RunResult(r, t, limit, data).value);
  }

  // ---- policies on the way to "latest" ----

  /** The policy lets every upgrade through: it is not a downgrade-only policy and sets no length limit. */
  predicate AdmitsUpgrades(policy: Policy) {
    policy.direction != Backward && policy.depthLimit < 0
  }

  /** A planned entry never leads below its source. */
  lemma {:induction false} LatestIsAbove(r: Runner, data: Json, e: PlanEntry)
    requires Consistent(r.graph) && Plans(r, ToLatest, data, e)
    ensures e.source.id == e.target.id || NodeLess(e.source.id, e.target.id)
    ensures !NodeLess(e.target.id, e.source.id)
  {
    PlansMove(r, ToLatest, data, e);
    LatestIsGreatest(r.graph, e.source);
    NodeOrder();
  }

  /** A policy that admits upgrades drops only entries at the latest version, whatever the payload. */
  lemma {:induction false} AdmittingDropsOnlySettled(r: Runner, limit: int, data: Json)
    requires Consistent(r.graph) && AdmitsUpgrades(r.policy) && WellFormed(data)
    ensures DropsOnlySettled(r, ToLatest, limit, data)
  {
    var planned := Planned(r, ToLatest, limit, data);
    if Extract(r.codec, r.graph, limit, data).Ok? {
      PlannedExactly(r, ToLatest, limit, data);
    }
    forall e | e in planned && Judge(r.graph, r.policy, e) == Ok(false) ensures e.source.id == e.target.id {
      PlansMove(r, ToLatest, data, e);
      LatestIsAbove(r, data, e);
    }
  }

  /** A downgrade-only policy that skips returns every plannable payload as it is, outdated or not. */
  lemma {:induction false} DowngradeOnlyChangesNothing(r: Runner, limit: int, data: Json)
    requires Consistent(r.graph) && WellFormed(data) && r.policy.direction == Backward
    requires r.policy.onDirection.SkipEntry?
    requires Extract(r.codec, r.graph, limit, data).Ok?
    requires PlanAll(r.graph, r.discriminator, ToLatest, Extract(r.codec, r.graph, limit, data).value).Ok?
    ensures RunResult(r, ToLatest, limit, data) == Ok(data)
  {
    PlannedExactly(r, ToLatest, limit, data);
    PlanExactly(r, ToLatest, limit, data);
    forall e | Plans(r, ToLatest, data, e) ensures Judge(r.graph, r.policy, e) == Ok(false) {
      LatestIsAbove(r, data, e);
    }
    NoOpPlanRuns(r, ToLatest, limit, data);
  }
}
