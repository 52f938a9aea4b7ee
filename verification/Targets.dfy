/**
 What each target policy selects, stated by versions; when a payload is at its target; why
 planning fails; and which planned entries a policy lets through, stated by versions and lengths.
 */
module Targets {
  import opened Wrappers
  import opened Collections
  import opened Sorting
  import opened Payload
  import opened Identity
  import opened Indexed
  import opened EdgePath
  import opened Extraction
  import opened Planning
  import opened Splicing
  import opened Runs
  import opened Convergence

  // ---- what a specification selects ----

  /** A compiled graph holds the nodes of one namespace. */
  ghost predicate OneNamespace(b: Backend) {
    forall m, n :: m in b.nodes && n in b.nodes ==> m.id.space == n.id.space
  }

  /** A registered model of the node's kind. */
  predicate Candidate(b: Backend, node: NodeEntry, m: NodeEntry) {
    m in b.nodes && m.Model? && m.id.kind == node.id.kind
  }

  /** The pinned version alone, or from the lower bound up to and without the upper one. */
  predicate Admitted(range: VersionRange, v: Version) {
    match range.eq
    case Some(only) => v == only
    case None => (range.gte.None? || range.gte.value <= v) && (range.lt.None? || v < range.lt.value)
  }

  /** The specification selects the model for the node. */
  ghost predicate Selects(b: Backend, spec: Spec, node: NodeEntry, m: NodeEntry) {
    match spec
    case Skip => false
    case Latest => Candidate(b, node, m) && forall n :: Candidate(b, node, n) ==> n.id.version <= m.id.version
    case Earliest => Candidate(b, node, m) && forall n :: Candidate(b, node, n) ==> m.id.version <= n.id.version
    case Exactly(version) => Candidate(b, node, m) && m.id.version == version
    case Within(range) =>
      && Candidate(b, node, m) && Admitted(range, m.id.version)
      && forall n :: Candidate(b, node, n) && Admitted(range, n.id.version) ==> n.id.version <= m.id.version
    case Fixed(fixed) => m == fixed && fixed.id.kind == node.id.kind
  }

  /** The specification leaves the node alone. */
  ghost predicate Passes(b: Backend, spec: Spec, node: NodeEntry) {
    match spec
    case Skip => true
    case Within(range) => forall n :: Candidate(b, node, n) ==> !Admitted(range, n.id.version)
    case _ => false
  }

  /** The specification fails for the node with the error. */
  ghost predicate FailsWith(b: Backend, spec: Spec, node: NodeEntry, error: PlanError) {
    match error
    case NoVersions => (spec.Latest? || spec.Earliest?) && forall n :: !Candidate(b, node, n)
    case TargetNotFound => spec.Exactly? && forall n :: Candidate(b, node, n) ==> n.id.version != spec.version
    case WrongKind => spec.Fixed? && spec.node.id.kind != node.id.kind
    case _ => false
  }

  /** Within a namespace and a kind, the order of nodes is the order of versions. */
  lemma {:induction false} CandidateOrder(b: Backend, node: NodeEntry, m: NodeEntry, n: NodeEntry)
    requires Consistent(b) && OneNamespace(b) && Candidate(b, node, m) && Candidate(b, node, n)
    ensures NodeLess(m.id, n.id) <==> m.id.version < n.id.version
    ensures m == n <==> m.id.version == n.id.version
  {
    VersionOrder(m.id, n.id);
    if m.id.version == n.id.version {
      assert m.id == n.id;
      RegisteredUnique(b, m, n);
    }
  }

  lemma {:induction false} InRangeAdmits(range: VersionRange, v: Version)
    ensures InRange(range, v) <==> Admitted(range, v)
  {
  }

  lemma {:induction false} LatestSelects(b: Backend, node: NodeEntry)
    requires Consistent(b) && OneNamespace(b) && ResolveSpec(b, Latest, node).Ok?
    ensures ResolveSpec(b, Latest, node).value.Some?
    ensures Selects(b, Latest, node, ResolveSpec(b, Latest, node).value.value)
  {
    LatestIsGreatest(b, node);
    var m := ResolveSpec(b, Latest, node).value.value;
    forall n | Candidate(b, node, n) ensures n.id.version <= m.id.version {
      CandidateOrder(b, node, n, m);
    }
  }

  /** "earliest" resolves to the least registered model version of the kind. */
  lemma {:induction false} EarliestSelects(b: Backend, node: NodeEntry)
    requires Consistent(b) && OneNamespace(b) && ResolveSpec(b, Earliest, node).Ok?
    ensures ResolveSpec(b, Earliest, node).value.Some?
    ensures Selects(b, Earliest, node, ResolveSpec(b, Earliest, node).value.value)
  {
    KindMembers(b, node.id.kind);
    var s := KindVersions(b, node.id.kind);
    var m := ResolveSpec(b, Earliest, node).value.value;
    assert m in s;
    forall n | Candidate(b, node, n) ensures m.id.version <= n.id.version {
      CandidateOrder(b, node, m, n);
      var i :| 0 <= i < |s| && s[i] == n;
      assert i > 0 ==> EntryLess(s[0], s[i]);
    }
  }

  lemma {:induction false} RangeSelects(b: Backend, range: VersionRange, node: NodeEntry)
    requires Consistent(b) && OneNamespace(b)
    ensures ResolveSpec(b, Within(range), node).Ok?
    ensures match ResolveSpec(b, Within(range), node).value
            case None => Passes(b, Within(range), node)
            case Some(m) => Selects(b, Within(range), node, m)
  {
    RangeIsGreatestMatch(b, range, node);
    var resolved := ResolveSpec(b, Within(range), node).value;
    forall n | Candidate(b, node, n) ensures InRange(range, n.id.version) <==> Admitted(range, n.id.version) {
      InRangeAdmits(range, n.id.version);
    }
    if resolved.Some? {
      assert Candidate(b, node, resolved.value);
      forall n | Candidate(b, node, n) && Admitted(range, n.id.version)
        ensures n.id.version <= resolved.value.id.version
      {
        CandidateOrder(b, node, n, resolved.value);
      }
    }
  }

  lemma {:induction false} ExactlySelects(b: Backend, version: Version, node: NodeEntry)
    requires OneNamespace(b) && node in b.nodes
    ensures match ResolveSpec(b, Exactly(version), node)
            case Err(error) => FailsWith(b, Exactly(version), node, error)
            case Ok(None) => false
            case Ok(Some(m)) => Selects(b, Exactly(version), node, m)
  {
    forall n | Candidate(b, node, n) && n.id.version == version ensures n.id == node.id.(version := version) {
    }
  }

  lemma {:induction false} SelectsOnce(b: Backend, spec: Spec, node: NodeEntry, m: NodeEntry, n: NodeEntry)
    requires Consistent(b) && OneNamespace(b) && Selects(b, spec, node, m) && Selects(b, spec, node, n)
    ensures m == n
  {
    if !spec.Fixed? {
      CandidateOrder(b, node, m, n);
    }
  }

  lemma {:induction false} NoCandidates(b: Backend, spec: Spec, node: NodeEntry)
    requires Consistent(b) && (spec.Latest? || spec.Earliest?) && ResolveSpec(b, spec, node).Err?
    ensures ResolveSpec(b, spec, node) == Err(NoVersions) && FailsWith(b, spec, node, NoVersions)
  {
    KindMembers(b, node.id.kind);
    assert KindVersions(b, node.id.kind) == [];
  }

  /** What resolving answers meets its description. */
  lemma {:induction false} SpecMeets(b: Backend, spec: Spec, node: NodeEntry)
    requires Consistent(b) && OneNamespace(b) && node in b.nodes
    ensures match ResolveSpec(b, spec, node)
            case Err(error) => FailsWith(b, spec, node, error)
            case Ok(None) => Passes(b, spec, node)
            case Ok(Some(m)) => Selects(b, spec, node, m)
  {
    match spec
    case Latest =>
      if ResolveSpec(b, spec, node).Ok? { LatestSelects(b, node); } else { NoCandidates(b, spec, node); }
    case Earliest =>
      if ResolveSpec(b, spec, node).Ok? { EarliestSelects(b, node); } else { NoCandidates(b, spec, node); }
    case Exactly(version) => ExactlySelects(b, version, node);
    case Within(range) => RangeSelects(b, range, node);
    case _ =>
  }

  lemma {:induction false} Exclusive(b: Backend, spec: Spec, node: NodeEntry)
    ensures Passes(b, spec, node) ==> forall m :: !Selects(b, spec, node, m)
    ensures Passes(b, spec, node) ==> forall error :: !FailsWith(b, spec, node, error)
    ensures forall m, error :: Selects(b, spec, node, m) ==> !FailsWith(b, spec, node, error)
  {
  }

  /**
   Resolving a specification for a registered node: the model it selects, nothing, or an
   error, each exactly under its description.
   */
  lemma {:induction false} SpecExact(b: Backend, spec: Spec, node: NodeEntry)
    requires Consistent(b) && OneNamespace(b) && node in b.nodes
    ensures forall m :: ResolveSpec(b, spec, node) == Ok(Some(m)) <==> Selects(b, spec, node, m)
    ensures ResolveSpec(b, spec, node) == Ok(None) <==> Passes(b, spec, node)
    ensures forall error :: ResolveSpec(b, spec, node) == Err(error) <==> FailsWith(b, spec, node, error)
  {
    var resolved := ResolveSpec(b, spec, node);
    SpecMeets(b, spec, node);
    Exclusive(b, spec, node);
    forall m | Selects(b, spec, node, m) ensures resolved == Ok(Some(m)) {
      SelectsOnce(b, spec, node, m, resolved.value.value);
    }
    forall error | FailsWith(b, spec, node, error) ensures resolved == Err(error) {
      OneFailure(b, spec, node, error, resolved.error);
    }
  }

  lemma {:induction false} OneFailure(b: Backend, spec: Spec, node: NodeEntry, x: PlanError, y: PlanError)
    requires FailsWith(b, spec, node, x) && FailsWith(b, spec, node, y)
    ensures x == y
  {
  }

  // ---- targets ----

  /** The specification that a target holds for a kind: its own, else that of "*", else to skip. */
  ghost predicate Applies(t: Target, kind: string, spec: Spec) {
    match t
    case Single(only) => spec == only
    case ByKind(kinds) =>
      if kind in kinds && kind != "*" then spec == kinds[kind]
      else if "*" in kinds then spec == kinds["*"] else spec == Skip
  }

  /** A per-kind target resolves by the kind's own entry, by "*" only without one, and skips with neither. */
  lemma {:induction false} TargetExact(b: Backend, t: Target, node: NodeEntry, spec: Spec)
    requires Consistent(b) && OneNamespace(b) && node in b.nodes && Applies(t, node.id.kind, spec)
    ensures forall m :: ResolveTarget(b, t, node) == Ok(Some(m)) <==> Selects(b, spec, node, m)
    ensures ResolveTarget(b, t, node) == Ok(None) <==> Passes(b, spec, node)
    ensures forall error :: ResolveTarget(b, t, node) == Err(error) <==> FailsWith(b, spec, node, error)
  {
    SpecExact(b, spec, node);
  }

  ghost predicate IsRegistered(b: Backend, id: NodeId) {
    exists n :: n in b.nodes && n.Model? && n.id == id
  }

  ghost predicate Names(t: Target, fixed: NodeEntry) {
    match t
    case Single(spec) => spec == Fixed(fixed)
    case ByKind(kinds) => exists kind :: kind in kinds && kinds[kind] == Fixed(fixed)
  }

  /** A target compiles if and only if each node it names has a registered model of its identity. */
  lemma {:induction false} CompilesExact(b: Backend, t: Target)
    ensures Compiles(b, t) <==> forall fixed :: Names(t, fixed) ==> IsRegistered(b, fixed.id)
  {
    match t
    case Single(spec) =>
      CompilesSpecExact(b, spec);
      assert spec.Fixed? ==> Names(t, spec.node);
    case ByKind(kinds) =>
      forall kind | kind in kinds ensures CompilesSpec(b, kinds[kind]) <==> NamesRegistered(b, kinds[kind]) {
        CompilesSpecExact(b, kinds[kind]);
        assert kinds[kind].Fixed? ==> Names(t, kinds[kind].node);
      }
      forall fixed | Names(t, fixed) && Compiles(b, t) ensures IsRegistered(b, fixed.id) {
        var kind :| kind in kinds && kinds[kind] == Fixed(fixed);
        assert NamesRegistered(b, kinds[kind]);
      }
  }

  ghost predicate NamesRegistered(b: Backend, spec: Spec) {
    spec.Fixed? ==> IsRegistered(b, spec.node.id)
  }

  lemma {:induction false} CompilesSpecExact(b: Backend, spec: Spec)
    ensures CompilesSpec(b, spec) <==> NamesRegistered(b, spec)
  {
  }

  /** At its target: left alone, or selected itself. */
  lemma {:induction false} SettledExactly(b: Backend, t: Target, node: NodeEntry, spec: Spec)
    requires Consistent(b) && OneNamespace(b) && node in b.nodes && Applies(t, node.id.kind, spec)
    ensures Settled(b, t, node) <==>
              Passes(b, spec, node) || exists m :: Selects(b, spec, node, m) && m.id == node.id
  {
    TargetExact(b, t, node, spec);
    var resolved := ResolveTarget(b, t, node);
    if resolved.Ok? && resolved.value.Some? {
      assert Selects(b, spec, node, resolved.value.value);
    }
  }

  const ToEarliest := Single(Earliest)

  /** For the target "earliest", at its target means: no lesser model of the kind is registered. */
  lemma {:induction false} SettledAtEarliest(b: Backend, node: NodeEntry)
    requires Consistent(b) && OneNamespace(b) && node in b.nodes && node.Model?
    ensures Settled(b, ToEarliest, node) <==>
              forall n :: n in b.nodes && n.Model? && n.id.kind == node.id.kind ==> node.id.version <= n.id.version
  {
    SettledExactly(b, ToEarliest, node, Earliest);
    if forall n :: n in b.nodes && n.Model? && n.id.kind == node.id.kind ==> node.id.version <= n.id.version {
      assert Selects(b, Earliest, node, node);
    }
    if m :| Selects(b, Earliest, node, m) && m.id == node.id {
      RegisteredUnique(b, m, node);
    }
  }

  /** So a converging run takes every versioned dict of the output to the model its target selects, or left it alone. */
  lemma {:induction false} RunReachesTarget(r: Runner, t: Target, limit: int, data: Json, path: Path, spec: Spec)
    requires GoodRunner(r, t) && DropsOnlySettled(r, t, limit, data) && WellFormed(data)
    requires RunResult(r, t, limit, data).Ok? && Matched(r.codec, r.graph, RunResult(r, t, limit, data).value, path)
    requires Applies(t, NodeFor(r.codec, r.graph, RunResult(r, t, limit, data).value, path).id.kind, spec)
    ensures var node := NodeFor(r.codec, r.graph, RunResult(r, t, limit, data).value, path);
            Passes(r.graph, spec, node) || exists m :: Selects(r.graph, spec, node, m) && m.id == node.id
  {
    RunConverges(r, t, limit, data);
    SettledExactly(r.graph, t, NodeFor(r.codec, r.graph, RunResult(r, t, limit, data).value, path), spec);
  }

  // ---- why planning fails ----

  /** The discovered node cannot be planned: its target fails, or there is no path to what it selects. */
  ghost predicate CannotPlan(b: Backend, discriminator: string, spec: Spec, node: NodeEntry, error: PlanError) {
    || FailsWith(b, spec, node, error)
    || (error.PathFailed? && exists m :: Selects(b, spec, node, m)
                                         && PathBetween(b, node.id, m.id, discriminator) == Err(error.path))
  }

  lemma {:induction false} PlanOneErrors(b: Backend, discriminator: string, t: Target, found: Found, spec: Spec)
    requires Consistent(b) && OneNamespace(b) && found.node in b.nodes && Applies(t, found.node.id.kind, spec)
    ensures forall error ::
              PlanOne(b, discriminator, t, found) == Err(error) <==>
                CannotPlan(b, discriminator, spec, found.node, error)
  {
    TargetExact(b, t, found.node, spec);
    var resolved := ResolveTarget(b, t, found.node);
    if resolved.Ok? && resolved.value.Some? {
      assert Selects(b, spec, found.node, resolved.value.value);
    }
    forall error ensures PlanOne(b, discriminator, t, found) == Err(error) <==>
                           CannotPlan(b, discriminator, spec, found.node, error)
    {
      PlanOneFails(b, discriminator, t, found, error);
    }
  }

  lemma {:induction false} PlanOneFails(b: Backend, discriminator: string, t: Target, found: Found, error: PlanError)
    ensures var resolved := ResolveTarget(b, t, found.node);
            PlanOne(b, discriminator, t, found) == Err(error) <==>
              || resolved == Err(error)
              || (resolved.Ok? && resolved.value.Some? && error.PathFailed?
                  && PathBetween(b, found.node.id, resolved.value.value.id, discriminator) == Err(error.path))
  {
  }

  /** The entry at the position is the first that cannot be planned. */
  ghost predicate FailsFirst(b: Backend, discriminator: string, t: Target, found: seq<Found>, i: nat,
          error: PlanError)
  {
    && i < |found| && PlanOne(b, discriminator, t, found[i]) == Err(error)
    && forall j :: 0 <= j < i ==> PlanOne(b, discriminator, t, found[j]).Ok?
  }

  lemma {:induction false} PlanAllFails(b: Backend, discriminator: string, t: Target, found: seq<Found>)
    returns (i: nat)
    requires PlanAll(b, discriminator, t, found).Err?
    ensures FailsFirst(b, discriminator, t, found, i, PlanAll(b, discriminator, t, found).error)
    decreases |found|
  {
    if PlanOne(b, discriminator, t, found[0]).Err? {
      i := 0;
    } else {
      var rest := PlanAllFails(b, discriminator, t, found[1..]);
      i := rest + 1;
      assert forall j :: 1 <= j < |found| ==> found[j] == found[1..][j - 1];
    }
  }

  /**
   Why planning fails, in this order: the target names a node that is not registered, the
   first entry that cannot be planned, or the policy.
   */
  lemma {:induction false} PlanningErrors(b: Backend, discriminator: string, policy: Policy, t: Target,
          found: seq<Found>)
    ensures var plan := FindPlan(b, discriminator, policy, t, found);
            if !Compiles(b, t) then plan == Err(TargetNotFound)
            else if exists f :: f in found && PlanOne(b, discriminator, t, f).Err? then
              plan.Err? && exists i: nat :: FailsFirst(b, discriminator, t, found, i, plan.error)
            else
              PlanAll(b, discriminator, t, found).Ok?
              && plan == Keep(b, policy, PlanAll(b, discriminator, t, found).value)
  {
    PlanAllMembers(b, discriminator, t, found);
    if PlanAll(b, discriminator, t, found).Err? {
      var i := PlanAllFails(b, discriminator, t, found);
    }
  }

  // ---- policies on planned entries ----

  /** The policy's direction does not allow the entry. */
  predicate WrongWay(policy: Policy, e: PlanEntry) {
    || (policy.direction.Forward? && e.target.id.version <= e.source.id.version)
    || (policy.direction.Backward? && e.source.id.version <= e.target.id.version)
  }

  predicate TooLong(policy: Policy, e: PlanEntry) {
    0 <= policy.depthLimit < |e.edges|
  }

  /** The policy raises on the entry, direction first. */
  predicate RaisesOn(policy: Policy, e: PlanEntry, error: PlanError) {
    || (error == DirectionRejected && WrongWay(policy, e) && policy.onDirection == Raise)
    || (error == DepthExceeded && !WrongWay(policy, e) && TooLong(policy, e) && policy.onDepth == Raise)
  }

  function Conforms(policy: Policy): PlanEntry -> bool {
    (e: PlanEntry) => !WrongWay(policy, e) && !TooLong(policy, e)
  }

  ghost predicate RaisesFirst(policy: Policy, entries: seq<PlanEntry>, i: nat, error: PlanError) {
    && i < |entries| && RaisesOn(policy, entries[i], error)
    && forall j, other :: 0 <= j < i ==> !RaisesOn(policy, entries[j], other)
  }

  /** A planned entry: executable chains between two registered models of one kind and namespace. */
  ghost predicate PlannedEntry(b: Backend, e: PlanEntry) {
    && e.source.id.kind == e.target.id.kind && e.source.id.space == e.target.id.space && !PathIsMissing(b, e)
  }

  lemma {:induction false} RulesOnPlanned(b: Backend, policy: Policy, e: PlanEntry)
    requires PlannedEntry(b, e)
    ensures Violates(b, policy, e, DirectionRule) <==> WrongWay(policy, e)
    ensures Violates(b, policy, e, LengthRule) <==> TooLong(policy, e)
    ensures !Violates(b, policy, e, PathRule)
  {
    VersionOrder(e.source.id, e.target.id);
    VersionOrder(e.target.id, e.source.id);
  }

  lemma {:induction false} RejectsRaises(b: Backend, policy: Policy, e: PlanEntry, rule: Rule)
    requires PlannedEntry(b, e)
    ensures Rejects(b, policy, e, rule) <==> RaisesOn(policy, e, ErrorFor(rule))
  {
    RulesOnPlanned(b, policy, e);
    assert CheckedBefore(DirectionRule, rule) <==> !rule.DirectionRule?;
    assert CheckedBefore(LengthRule, rule) <==> rule.PathRule?;
  }

  /**
   Which planned entries the policy keeps, and when it raises: an entry in the wrong
   direction, or else with more migrations than a non-negative limit, raises or is dropped as
   its rule says; all others are kept, in plan order.  A planned entry never misses its path.
   */
  lemma {:induction false} PolicyOnPlan(b: Backend, policy: Policy, entries: seq<PlanEntry>)
    requires forall e :: e in entries ==> PlannedEntry(b, e)
    ensures var kept := Keep(b, policy, entries);
            && (kept.Err? <==> exists e, error :: e in entries && RaisesOn(policy, e, error))
            && (kept.Err? ==> exists i: nat :: RaisesFirst(policy, entries, i, kept.error))
            && (kept.Ok? ==> kept.value == Filter(entries, Conforms(policy)))
  {
    KeepByRules(b, policy, entries);
    forall e, rule | e in entries ensures Rejects(b, policy, e, rule) <==> RaisesOn(policy, e, ErrorFor(rule)) {
      RejectsRaises(b, policy, e, rule);
    }
    var kept := Keep(b, policy, entries);
    if kept.Err? {
      var i: nat, rule :| RejectsFirst(b, policy, entries, i, rule) && kept.error == ErrorFor(rule);
      assert entries[i] in entries && RaisesOn(policy, entries[i], kept.error);
      NoneRaisesBefore(b, policy, entries, i, rule);
    } else {
      forall e, error | e in entries ensures !RaisesOn(policy, e, error) {
        assert !Rejects(b, policy, e, DirectionRule) && !Rejects(b, policy, e, LengthRule);
      }
      forall e | e in entries ensures Admits(b, policy)(e) == Conforms(policy)(e) {
        RulesOnPlanned(b, policy, e);
      }
      FilterAgree(entries, Admits(b, policy), Conforms(policy));
    }
  }

  lemma {:induction false} NoneRaisesBefore(b: Backend, policy: Policy, entries: seq<PlanEntry>, i: nat, rule: Rule)
    requires RejectsFirst(b, policy, entries, i, rule) && forall e :: e in entries ==> PlannedEntry(b, e)
    ensures RaisesFirst(policy, entries, i, ErrorFor(rule))
  {
    RejectsRaises(b, policy, entries[i], rule);
    forall j, other | 0 <= j < i ensures !RaisesOn(policy, entries[j], other) {
      assert !Rejects(b, policy, entries[j], DirectionRule) && !Rejects(b, policy, entries[j], LengthRule);
      RejectsRaises(b, policy, entries[j], DirectionRule);
      RejectsRaises(b, policy, entries[j], LengthRule);
    }
  }

  lemma {:induction false} PlannedAreEntries(r: Runner, t: Target, limit: int, data: Json)
    requires SoundRunner(r) && WellFormed(data) && Extract(r.codec, r.graph, limit, data).Ok? && Plannable(r, t, data)
    ensures forall e :: e in Planned(r, t, limit, data) ==> PlannedEntry(r.graph, e)
  {
    PlannedExactly(r, t, limit, data);
    forall e | e in Planned(r, t, limit, data) ensures PlannedEntry(r.graph, e) {
      PlansMove(r, t, data, e);
      assert FindModel(r.graph.nodes, e.target.id).value in r.graph.nodes;
    }
  }

  /** The plan of a run: what the policy makes of the entries that were planned. */
  lemma {:induction false} PlanByPolicy(r: Runner, t: Target, limit: int, data: Json)
    requires SoundRunner(r) && WellFormed(data) && Extract(r.codec, r.graph, limit, data).Ok?
    requires Compiles(r.graph, t) && Plannable(r, t, data)
    ensures var planned := Planned(r, t, limit, data);
            var plan := FindPlan(r.graph, r.discriminator, r.policy, t, Extract(r.codec, r.graph, limit, data).value);
            && (plan.Err? <==> exists e, error :: e in planned && RaisesOn(r.policy, e, error))
            && (plan.Err? ==> exists i: nat :: RaisesFirst(r.policy, planned, i, plan.error))
            && (plan.Ok? ==> plan.value == Filter(planned, Conforms(r.policy)))
  {
    PlannedExactly(r, t, limit, data);
    PlannedAreEntries(r, t, limit, data);
    PolicyOnPlan(r.graph, r.policy, Planned(r, t, limit, data));
  }
}
