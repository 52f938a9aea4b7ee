/**
 The whole run, extract-plan-execute: its result, and its plan seen path by path.  Each
 versioned dict of the payload plans its own entry, whatever the order they are found in.
 */
module Runs {
  import opened Wrappers
  import opened Collections
  import opened Sorting
  import opened Payload
  import opened Schedule
  import opened Execution
  import opened Backends
  import opened Identity
  import opened Indexed
  import opened EdgePath
  import opened Extraction
  import opened Planning
  import opened Splicing

  datatype RunError = NestingExceeded(path: Path) | PlanFailed(error: PlanError) | UnknownModel | MigrationFailed

  /** A configured runner: codec, graph snapshot, policy and the migration bound to each edge. */
  datatype Runner = Runner(codec: Codec, graph: Backend, discriminator: string, policy: Policy,
                           migrate: EdgeId -> (Json -> Option<Json>))

  function BindSteps(r: Runner, edges: seq<EdgeId>): (steps: seq<Migration>)
    ensures |steps| == |edges|
    ensures forall i :: 0 <= i < |edges| ==>
              steps[i] == Migration(r.migrate(edges[i]), r.codec.show(edges[i].target.version))
  {
    seq(|edges|, i requires 0 <= i < |edges| => Migration(r.migrate(edges[i]), r.codec.show(edges[i].target.version)))
  }

  /** `ExecutionPlanner.build`: bind each planned edge to its migration. */
  function Bind(r: Runner, plan: seq<PlanEntry>): (entries: seq<Entry>)
    ensures |entries| == |plan|
    ensures forall i :: 0 <= i < |plan| ==> entries[i] == Entry(plan[i].path, BindSteps(r, plan[i].edges))
  {
    seq(|plan|, i requires 0 <= i < |plan| => Entry(plan[i].path, BindSteps(r, plan[i].edges)))
  }

  function Descending(n: nat): (order: seq<nat>)
    ensures |order| == n && forall i :: 0 <= i < n ==> order[i] == n - 1 - i
  {
    seq(n, i requires 0 <= i < n => n - 1 - i)
  }

  /** The result of a run, taking the planned entries in reverse plan order. */
  function RunResult(r: Runner, target: Target, limit: int, data: Json): Result<Json, RunError> {
    var found := Extract(r.codec, r.graph, limit, data);
    if found.Err? then Err(NestingExceeded(found.error)) else
      var plan := FindPlan(r.graph, r.discriminator, r.policy, target, found.value);
      if plan.Err? then Err(PlanFailed(plan.error)) else
        var entries := Bind(r, plan.value);
        assert Indexes(Descending(|entries|), |entries|);
        var result := RunInOrder(data, entries, Descending(|entries|), r.codec.versionKey);
        if result.None? then Err(MigrationFailed) else Ok(result.value)
  }

  // ---- plans made from an extraction ----

  lemma {:induction false} KeepIsSubsequence(b: Backend, policy: Policy, entries: seq<PlanEntry>)
    requires Keep(b, policy, entries).Ok?
    ensures Subsequence(Keep(b, policy, entries).value, entries)
    decreases |entries|
  {
    if entries != [] {
      KeepIsSubsequence(b, policy, entries[1..]);
      var rest := Keep(b, policy, entries[1..]).value;
      if Judge(b, policy, entries[0]).value {
        assert ([entries[0]] + rest)[1..] == rest;
      } else {
        assert [] + rest == rest;
        SubsequenceSkips(rest, entries[1..], entries[0]);
        assert [entries[0]] + entries[1..] == entries;
      }
    }
  }

  lemma {:induction false} SubsequenceOfPlan(a: seq<PlanEntry>, b: seq<PlanEntry>)
    requires Subsequence(a, b)
    ensures Subsequence(EntryPaths(a), EntryPaths(b))
    decreases |b|
  {
    if a != [] {
      assert EntryPaths(b) == [b[0].path] + EntryPaths(b[1..]);
      assert EntryPaths(b)[1..] == EntryPaths(b[1..]);
      if a[0] == b[0] {
        SubsequenceOfPlan(a[1..], b[1..]);
        assert EntryPaths(a)[1..] == EntryPaths(a[1..]);
      } else {
        SubsequenceOfPlan(a, b[1..]);
        SubsequenceSkips(EntryPaths(a), EntryPaths(b[1..]), b[0].path);
      }
    }
  }

  lemma {:induction false} SubsequenceTransitive<T(!new)>(a: seq<T>, b: seq<T>, c: seq<T>)
    requires Subsequence(a, b) && Subsequence(b, c)
    ensures Subsequence(a, c)
    decreases |c|
  {
    if a != [] && b != [] {
      if b[0] == c[0] {
        if a[0] == b[0] {
          SubsequenceTransitive(a[1..], b[1..], c[1..]);
        } else {
          SubsequenceTransitive(a, b[1..], c[1..]);
        }
      } else {
        SubsequenceTransitive(a, b, c[1..]);
        SubsequenceSkips(a, c[1..], c[0]);
        assert [c[0]] + c[1..] == c;
      }
    }
  }

  /** Pre-order: nothing later in the sequence lies above something earlier. */
  ghost predicate AncestorsFirst(paths: seq<Path>) {
    forall i, j :: 0 <= i < j < |paths| ==> paths[i] != paths[j] && !IsDescendantOf(paths[i], paths[j])
  }

  lemma {:induction false} SubsequenceAncestorsFirst(a: seq<Path>, b: seq<Path>)
    requires Subsequence(a, b) && AncestorsFirst(b)
    ensures AncestorsFirst(a)
    decreases |b|
  {
    if a != [] {
      assert AncestorsFirst(b[1..]);
      if a[0] == b[0] {
        SubsequenceAncestorsFirst(a[1..], b[1..]);
        SubsequenceMembers(a[1..], b[1..]);
        forall j | 1 <= j < |a| ensures a[0] != a[j] && !IsDescendantOf(a[0], a[j]) {
          assert a[j] == a[1..][j - 1] && a[j] in b[1..];
          var k :| 0 <= k < |b[1..]| && b[1..][k] == a[j];
          assert b[k + 1] == a[j];
        }
        forall i, j | 1 <= i < j < |a| ensures a[i] != a[j] && !IsDescendantOf(a[i], a[j]) {
          assert a[i] == a[1..][i - 1] && a[j] == a[1..][j - 1];
        }
      } else {
        SubsequenceAncestorsFirst(a, b[1..]);
      }
    }
  }

  lemma {:induction false} BeforeNotBelow(data: Json, p: Path, q: Path)
    requires Before(data, p, q)
    ensures !IsDescendantOf(p, q)
    decreases |p|
  {
    if p != [] && p[0] == q[0] {
      BeforeNotBelow(Child(data, p[0]).value, p[1..], q[1..]);
      PrefixTails(q, p);
    } else if |p| > |q| {
      assert p[..|q|][0] == p[0];
    }
  }

  lemma {:induction false} ReverseIsValidOrder(entries: seq<Entry>)
    requires AncestorsFirst(Paths(entries))
    ensures DistinctPaths(entries) && ValidOrder(entries, Descending(|entries|))
  {
    var n := |entries|;
    var order := Descending(n);
    forall i: nat ensures i in order <==> i in Positions(n) {
      if i < n {
        assert order[n - 1 - i] == i && Positions(n)[i] == i;
      }
    }
  }

  /** A plan made from an extraction visits distinct dicts, ancestors first, so its reverse is a valid order. */
  lemma {:induction false} PlanFromExtraction(r: Runner, target: Target, limit: int, data: Json)
    requires WellFormed(data) && Consistent(r.graph) && Extract(r.codec, r.graph, limit, data).Ok?
    requires FindPlan(r.graph, r.discriminator, r.policy, target, Extract(r.codec, r.graph, limit, data).value).Ok?
    ensures var found := Extract(r.codec, r.graph, limit, data).value;
            var plan := FindPlan(r.graph, r.discriminator, r.policy, target, found).value;
            && AncestorsFirst(EntryPaths(plan))
            && forall i :: 0 <= i < |plan| ==> HoldsObject(data, plan[i].path)
  {
    var found := Extract(r.codec, r.graph, limit, data).value;
    ExtractionExact(r.codec, r.graph, limit, data);
    var planned := PlanAll(r.graph, r.discriminator, target, found).value;
    var plan := Keep(r.graph, r.policy, planned).value;
    PlannedEntriesSound(r.graph, r.discriminator, target, found);
    KeepIsSubsequence(r.graph, r.policy, planned);
    SubsequenceOfPlan(plan, planned);
    SubsequenceTransitive(EntryPaths(plan), EntryPaths(planned), FoundPaths(found));
    FoundAncestorsFirst(r.codec, r.graph, data, found);
    SubsequenceAncestorsFirst(EntryPaths(plan), FoundPaths(found));
    SubsequenceMembers(EntryPaths(plan), FoundPaths(found));
    forall i | 0 <= i < |plan| ensures HoldsObject(data, plan[i].path) {
      assert EntryPaths(plan)[i] in FoundPaths(found);
      var k :| 0 <= k < |found| && FoundPaths(found)[k] == plan[i].path;
      assert Reports(r.codec, r.graph, data, found[k]);
    }
  }

  lemma {:induction false} FoundAncestorsFirst(c: Codec, b: Backend, data: Json, found: seq<Found>)
    requires ListsExactly(c, b, data, found)
    ensures AncestorsFirst(FoundPaths(found))
  {
    forall i, j | 0 <= i < j < |found|
      ensures found[i].path != found[j].path && !IsDescendantOf(found[i].path, found[j].path)
    {
      BeforeNotBelow(data, found[i].path, found[j].path);
    }
  }

  /** Bind and execute a plan, on either backend. */
  method ExecutePlan(r: Runner, target: Target, limit: int, data: Json, plan: seq<PlanEntry>, interleave: bool)
    returns (result: Result<Json, RunError>)
    requires WellFormed(data) && Consistent(r.graph) && Extract(r.codec, r.graph, limit, data).Ok?
    requires FindPlan(r.graph, r.discriminator, r.policy, target, Extract(r.codec, r.graph, limit, data).value)
               == Ok(plan)
    ensures result == RunResult(r, target, limit, data)
  {
    PlanFromExtraction(r, target, limit, data);
    var entries := Bind(r, plan);
    assert Paths(entries) == EntryPaths(plan);
    ReverseIsValidOrder(entries);
    var out := Execute(data, entries, r.codec.versionKey, interleave);
    return if out.None? then Err(MigrationFailed) else Ok(out.value);
  }

  // ---- the plan, path by path ----

  function FoundAt(r: Runner, data: Json, path: Path): Found
    requires Matched(r.codec, r.graph, data, path)
  {
    Found(path, |path|, NodeFor(r.codec, r.graph, data, path))
  }

  /** What the versioned dict at a path plans: nothing when its target policy skips it. */
  function PlanAt(r: Runner, t: Target, data: Json, path: Path): Result<Option<PlanEntry>, PlanError>
    requires Matched(r.codec, r.graph, data, path)
  {
    PlanOne(r.graph, r.discriminator, t, FoundAt(r, data, path))
  }

  /** The versioned dict at the entry's path plans this entry. */
  predicate Plans(r: Runner, t: Target, data: Json, e: PlanEntry) {
    Matched(r.codec, r.graph, data, e.path) && PlanAt(r, t, data, e.path) == Ok(Some(e))
  }

  /** Every versioned dict can be planned. */
  ghost predicate Plannable(r: Runner, t: Target, data: Json) {
    forall path :: Matched(r.codec, r.graph, data, path) ==> PlanAt(r, t, data, path).Ok?
  }

  lemma {:induction false} PlanAllMembers(b: Backend, discriminator: string, t: Target, found: seq<Found>)
    ensures PlanAll(b, discriminator, t, found).Ok? <==>
            forall f :: f in found ==> PlanOne(b, discriminator, t, f).Ok?
    ensures PlanAll(b, discriminator, t, found).Ok? ==>
            forall e :: e in PlanAll(b, discriminator, t, found).value <==>
                        exists f :: f in found && PlanOne(b, discriminator, t, f) == Ok(Some(e))
    decreases |found|
  {
    if found != [] {
      PlanAllMembers(b, discriminator, t, found[1..]);
      assert forall f :: f in found <==> f == found[0] || f in found[1..];
      if PlanAll(b, discriminator, t, found).Ok? {
        PlanAllStep(b, discriminator, t, found);
      }
    }
  }

  lemma {:induction false} PlanAllStep(b: Backend, discriminator: string, t: Target, found: seq<Found>)
    requires found != [] && PlanAll(b, discriminator, t, found).Ok?
    ensures PlanOne(b, discriminator, t, found[0]).Ok? && PlanAll(b, discriminator, t, found[1..]).Ok?
    ensures forall e :: e in PlanAll(b, discriminator, t, found).value <==>
              PlanOne(b, discriminator, t, found[0]) == Ok(Some(e)) ||
              e in PlanAll(b, discriminator, t, found[1..]).value
  {
  }

  /** The entries planned before the policy filters them. */
  function Planned(r: Runner, t: Target, limit: int, data: Json): seq<PlanEntry> {
    var found := Extract(r.codec, r.graph, limit, data);
    if found.Err? then [] else
      var planned := PlanAll(r.graph, r.discriminator, t, found.value);
      if planned.Err? then [] else planned.value
  }

  lemma {:induction false} FoundExactly(r: Runner, limit: int, data: Json)
    requires WellFormed(data) && Extract(r.codec, r.graph, limit, data).Ok?
    ensures forall f :: f in Extract(r.codec, r.graph, limit, data).value <==>
              Matched(r.codec, r.graph, data, f.path) && f == FoundAt(r, data, f.path)
  {
    var found := Extract(r.codec, r.graph, limit, data).value;
    ExtractionExact(r.codec, r.graph, limit, data);
    forall f ensures f in found <==> Matched(r.codec, r.graph, data, f.path) && f == FoundAt(r, data, f.path) {
      if f in found {
        var i :| 0 <= i < |found| && found[i] == f;
        assert Reports(r.codec, r.graph, data, found[i]);
      }
      if Matched(r.codec, r.graph, data, f.path) && f == FoundAt(r, data, f.path) {
        var i :| 0 <= i < |found| && found[i].path == f.path;
        assert Reports(r.codec, r.graph, data, found[i]);
        assert found[i] == f;
      }
    }
  }

  /** Planning succeeds when every versioned dict can be planned, and then plans what they plan. */
  lemma {:induction false} PlannedExactly(r: Runner, t: Target, limit: int, data: Json)
    requires WellFormed(data) && Extract(r.codec, r.graph, limit, data).Ok?
    ensures PlanAll(r.graph, r.discriminator, t, Extract(r.codec, r.graph, limit, data).value).Ok? <==>
              Plannable(r, t, data)
    ensures Plannable(r, t, data) ==> forall e :: e in Planned(r, t, limit, data) <==> Plans(r, t, data, e)
  {
    var found := Extract(r.codec, r.graph, limit, data).value;
    FoundExactly(r, limit, data);
    PlanAllMembers(r.graph, r.discriminator, t, found);
    if PlanAll(r.graph, r.discriminator, t, found).Ok? {
      forall path | Matched(r.codec, r.graph, data, path) ensures PlanAt(r, t, data, path).Ok? {
        assert FoundAt(r, data, path) in found;
      }
    }
    if Plannable(r, t, data) {
      forall f | f in found ensures PlanOne(r.graph, r.discriminator, t, f).Ok? {
        assert PlanAt(r, t, data, f.path).Ok?;
      }
      forall e ensures e in Planned(r, t, limit, data) <==> Plans(r, t, data, e) {
        PlanMember(r, t, data, found, e);
      }
    }
  }

  lemma {:induction false} PlanMember(r: Runner, t: Target, data: Json, found: seq<Found>, e: PlanEntry)
    requires forall f :: f in found <==> Matched(r.codec, r.graph, data, f.path) && f == FoundAt(r, data, f.path)
    ensures (exists f :: f in found && PlanOne(r.graph, r.discriminator, t, f) == Ok(Some(e))) <==> Plans(r, t, data, e)
  {
    if f :| f in found && PlanOne(r.graph, r.discriminator, t, f) == Ok(Some(e)) {
      PlanOnePath(r, t, f, e);
    } else if Matched(r.codec, r.graph, data, e.path) {
      assert FoundAt(r, data, e.path) in found;
    }
  }

  lemma {:induction false} PlanOnePath(r: Runner, t: Target, f: Found, e: PlanEntry)
    requires PlanOne(r.graph, r.discriminator, t, f) == Ok(Some(e))
    ensures e.path == f.path
  {
  }

  /** The policy keeps an entry, and judges none with an error. */
  lemma {:induction false} KeepMembers(b: Backend, policy: Policy, entries: seq<PlanEntry>)
    ensures Keep(b, policy, entries).Ok? <==> forall e :: e in entries ==> Judge(b, policy, e).Ok?
    ensures Keep(b, policy, entries).Ok? ==>
            forall e :: e in Keep(b, policy, entries).value <==> e in entries && Judge(b, policy, e) == Ok(true)
    decreases |entries|
  {
    if entries != [] {
      KeepMembers(b, policy, entries[1..]);
      assert forall e :: e in entries <==> e == entries[0] || e in entries[1..];
    }
  }

  /** The entry is planned and the policy keeps it. */
  predicate Kept(r: Runner, t: Target, data: Json, e: PlanEntry) {
    Plans(r, t, data, e) && Judge(r.graph, r.policy, e) == Ok(true)
  }

  /** When the plan of a run exists, and what it holds. */
  lemma {:induction false} PlanExactly(r: Runner, t: Target, limit: int, data: Json)
    requires WellFormed(data) && Extract(r.codec, r.graph, limit, data).Ok?
    ensures var plan := FindPlan(r.graph, r.discriminator, r.policy, t, Extract(r.codec, r.graph, limit, data).value);
            && (plan.Ok? <==> Compiles(r.graph, t) && Plannable(r, t, data)
                              && forall e :: Plans(r, t, data, e) ==> Judge(r.graph, r.policy, e).Ok?)
            && (plan.Ok? ==> forall e :: e in plan.value <==> Kept(r, t, data, e))
  {
    PlannedExactly(r, t, limit, data);
    KeepMembers(r.graph, r.policy, Planned(r, t, limit, data));
  }

  /** The plan of a successful run. */
  function PlanOf(r: Runner, t: Target, limit: int, data: Json): seq<PlanEntry> {
    var found := Extract(r.codec, r.graph, limit, data);
    if found.Err? then [] else
      var plan := FindPlan(r.graph, r.discriminator, r.policy, t, found.value);
      if plan.Err? then [] else plan.value
  }

  // ---- what a planned entry is ----

  /** At its target: resolved to itself, or skipped. */
  predicate Settled(b: Backend, t: Target, node: NodeEntry) {
    match ResolveTarget(b, t, node)
    case Ok(None) => true
    case Ok(Some(m)) => m.id == node.id
    case Err(_) => false
  }

  /** The identity is a registered model that is at its target. */
  predicate Arrives(b: Backend, t: Target, id: NodeId) {
    var m := FindModel(b.nodes, id);
    m.Some? && Settled(b, t, m.value)
  }

  lemma {:induction false} RegisteredUnique(b: Backend, m: NodeEntry, n: NodeEntry)
    requires Consistent(b) && m in b.nodes && n in b.nodes && m.id == n.id
    ensures m == n
  {
    NodeOrder();
    var i :| 0 <= i < |b.nodes| && b.nodes[i] == m;
    var j :| 0 <= j < |b.nodes| && b.nodes[j] == n;
    assert i < j ==> EntryLess(b.nodes[i], b.nodes[j]);
    assert j < i ==> EntryLess(b.nodes[j], b.nodes[i]);
  }

  /** What a specification resolves to has the kind of the node it was resolved for. */
  lemma {:induction false} ResolvedKind(b: Backend, spec: Spec, node: NodeEntry)
    requires Consistent(b) && ResolveSpec(b, spec, node).Ok? && ResolveSpec(b, spec, node).value.Some?
    ensures ResolveSpec(b, spec, node).value.value.id.kind == node.id.kind
  {
    if spec.Latest? || spec.Earliest? || spec.Within? {
      KindMembers(b, node.id.kind);
      assert ResolveSpec(b, spec, node).value.value in KindVersions(b, node.id.kind);
    }
  }

  /** These specifications look at nothing but the node's kind. */
  lemma {:induction false} KindDecides(b: Backend, spec: Spec, node: NodeEntry, m: NodeEntry)
    requires spec.Latest? || spec.Earliest? || spec.Within?
    requires m.id.kind == node.id.kind
    ensures ResolveSpec(b, spec, m) == ResolveSpec(b, spec, node)
  {
  }

  lemma {:induction false} VersionStable(b: Backend, version: Version, node: NodeEntry, m: NodeEntry)
    requires m in b.nodes && m.Model? && m.id == node.id.(version := version)
    ensures ResolveSpec(b, Exactly(version), m).Ok? && ResolveSpec(b, Exactly(version), m).value.Some?
    ensures ResolveSpec(b, Exactly(version), m).value.value.id == m.id
  {
    assert m.id.(version := version) == m.id;
    assert FindModel(b.nodes, m.id).Some?;
  }

  /** What a specification resolves to resolves to itself: resolving is idempotent. */
  lemma {:induction false} SpecStable(b: Backend, spec: Spec, node: NodeEntry, m: NodeEntry)
    requires Consistent(b) && m in b.nodes && m.Model?
    requires ResolveSpec(b, spec, node).Ok? && ResolveSpec(b, spec, node).value.Some?
    requires m.id == ResolveSpec(b, spec, node).value.value.id
    ensures m.id.kind == node.id.kind
    ensures ResolveSpec(b, spec, m).Ok? && ResolveSpec(b, spec, m).value.Some?
    ensures ResolveSpec(b, spec, m).value.value.id == m.id
  {
    ResolvedKind(b, spec, node);
    match spec
    case Exactly(version) =>
      VersionStable(b, version, node, m);
    case Fixed(_) =>
    case _ =>
      KindDecides(b, spec, node, m);
  }

  /** So what a target resolves to is at its target. */
  lemma {:induction false} TargetStable(b: Backend, t: Target, node: NodeEntry, m: NodeEntry)
    requires Consistent(b) && m in b.nodes && m.Model?
    requires ResolveTarget(b, t, node).Ok? && ResolveTarget(b, t, node).value.Some?
    requires m.id == ResolveTarget(b, t, node).value.value.id
    ensures Settled(b, t, m) && ResolveTarget(b, t, m).value.Some?
  {
    match t
    case Single(spec) =>
      SpecStable(b, spec, node, m);
    case ByKind(kinds) =>
      if node.id.kind in kinds && node.id.kind != "*" {
        SpecStable(b, kinds[node.id.kind], node, m);
      } else {
        SpecStable(b, kinds["*"], node, m);
      }
  }

  /** A sound entry from a registered model to one that is at its target. */
  ghost predicate Move(r: Runner, t: Target, e: PlanEntry) {
    && SoundEntry(r.graph, r.discriminator, e) && !PathIsMissing(r.graph, e) && Arrives(r.graph, t, e.target.id)
    && e.source in r.graph.nodes && e.source.Model?
  }

  lemma {:induction false} PlansMove(r: Runner, t: Target, data: Json, e: PlanEntry)
    requires Consistent(r.graph) && Plans(r, t, data, e)
    ensures e.source == NodeFor(r.codec, r.graph, data, e.path) && Move(r, t, e)
    ensures ResolveTarget(r.graph, t, e.source) == Ok(Some(e.target))
  {
    var found := FoundAt(r, data, e.path);
    PlanOneSound(r.graph, r.discriminator, t, found);
    TargetRegistered(r.graph, found.node.id, e.target.id, r.discriminator);
    TargetStable(r.graph, t, e.source, FindModel(r.graph.nodes, e.target.id).value);
  }

  lemma {:induction false} TargetRegistered(b: Backend, from: NodeId, to: NodeId, discriminator: string)
    requires Consistent(b) && PathBetween(b, from, to, discriminator).Ok?
    ensures FindModel(b.nodes, to).Some?
  {
    KindMembers(b, from.kind);
    var versions := KindVersions(b, from.kind);
    var k := Position(VersionIds(b, from.kind), to).value;
    assert versions[k] in versions && versions[k].id == to;
  }

  /** The path from a registered version to itself is empty. */
  lemma {:induction false} SelfPath(b: Backend, discriminator: string, node: NodeEntry)
    requires Consistent(b) && node in b.nodes && node.Model?
    ensures PathBetween(b, node.id, node.id, discriminator) == Ok([])
  {
    VersionsSorted(b, node.id.kind);
    var versions := KindVersions(b, node.id.kind);
    assert node in versions;
    var i :| 0 <= i < |versions| && versions[i] == node;
    assert VersionIds(b, node.id.kind)[i] == node.id;
  }

  /** A planned entry that is already at its target. */
  predicate NoOp(e: PlanEntry) {
    e.source.id == e.target.id && e.edges == []
  }

  /** A versioned dict at its target plans nothing, or an entry without steps. */
  lemma {:induction false} SettledPlansNoOp(r: Runner, t: Target, data: Json, path: Path)
    requires Consistent(r.graph) && Matched(r.codec, r.graph, data, path)
    requires Settled(r.graph, t, NodeFor(r.codec, r.graph, data, path))
    ensures PlanAt(r, t, data, path).Ok?
    ensures var planned := PlanAt(r, t, data, path).value;
            && (planned.Some? ==> NoOp(planned.value))
            && (planned.Some? <==> ResolveTarget(r.graph, t, NodeFor(r.codec, r.graph, data, path)).value.Some?)
  {
    SelfPath(r.graph, r.discriminator, NodeFor(r.codec, r.graph, data, path));
  }

  /** The entries of a run's plan, ancestors first. */
  lemma {:induction false} PlanIsOrdered(r: Runner, t: Target, limit: int, data: Json)
    requires WellFormed(data) && Consistent(r.graph) && Extract(r.codec, r.graph, limit, data).Ok?
    requires FindPlan(r.graph, r.discriminator, r.policy, t, Extract(r.codec, r.graph, limit, data).value).Ok?
    ensures var plan := PlanOf(r, t, limit, data);
            && AncestorsFirst(EntryPaths(plan)) && Indexes(Descending(|plan|), |plan|)
            && Distinct(Descending(|plan|)) && DescendantsFirst(EntryPaths(plan), Descending(|plan|))
  {
    PlanFromExtraction(r, t, limit, data);
    var plan := PlanOf(r, t, limit, data);
    assert Paths(Bind(r, plan)) == EntryPaths(plan);
    ReverseIsValidOrder(Bind(r, plan));
  }

  // ---- why a run fails ----

  /** The migrations of the entry at its turn raise on the value it finds, after the earlier ones ran. */
  ghost predicate RaisesAt(r: Runner, plan: seq<PlanEntry>, order: seq<nat>, data: Json, k: nat)
    requires Indexes(order, |plan|)
  {
    && k < |order| && Indexes(order[..k], |plan|)
    && var now := RunInOrder(data, Bind(r, plan), order[..k], r.codec.versionKey);
       && now.Some? && Get(now.value, plan[order[k]].path).Some?
       && RunSteps(BindSteps(r, plan[order[k]].edges), r.codec.versionKey, Get(now.value, plan[order[k]].path).value)
            == None
  }

  lemma {:induction false} RunSplits(data: Json, entries: seq<Entry>, order: seq<nat>, versionKey: string, k: nat)
    requires Indexes(order, |entries|) && k <= |order|
    ensures Indexes(order[..k], |entries|) && Indexes(order[k..], |entries|)
    ensures var now := RunInOrder(data, entries, order[..k], versionKey);
            RunInOrder(data, entries, order, versionKey) ==
              if now.None? then None else RunInOrder(now.value, entries, order[k..], versionKey)
    decreases k
  {
    if k > 0 {
      var next := RunEntry(data, entries[order[0]], versionKey);
      assert order[..k][1..] == order[1..][..k - 1] && order[1..][k - 1..] == order[k..];
      if next.Some? {
        RunSplits(next.value, entries, order[1..], versionKey, k - 1);
      }
    } else {
      assert order[0..] == order;
    }
  }

  /** The number of entries that run before the run stops. */
  lemma {:induction false} StopsSomewhere(data: Json, entries: seq<Entry>, order: seq<nat>, versionKey: string)
    returns (k: nat)
    requires Indexes(order, |entries|) && RunInOrder(data, entries, order, versionKey).None?
    ensures k < |order| && Indexes(order[..k], |entries|) && RunInOrder(data, entries, order[..k], versionKey).Some?
    ensures var now := RunInOrder(data, entries, order[..k], versionKey).value;
            RunEntry(now, entries[order[k]], versionKey).None?
    decreases |order|
  {
    var next := RunEntry(data, entries[order[0]], versionKey);
    if next.None? {
      k := 0;
    } else {
      var rest := StopsSomewhere(next.value, entries, order[1..], versionKey);
      k := rest + 1;
      assert order[..k][1..] == order[1..][..rest];
    }
  }

  /** Nothing but a migration that raises stops the execution of a plan. */
  lemma {:induction false} FailsByMigration(r: Runner, t: Target, limit: int, data: Json)
    requires WellFormed(data) && Consistent(r.graph) && Extract(r.codec, r.graph, limit, data).Ok?
    requires FindPlan(r.graph, r.discriminator, r.policy, t, Extract(r.codec, r.graph, limit, data).value).Ok?
    ensures var plan := PlanOf(r, t, limit, data);
            && Indexes(Descending(|plan|), |plan|)
            && (RunResult(r, t, limit, data) == Err(MigrationFailed) <==>
                  exists k: nat :: RaisesAt(r, plan, Descending(|plan|), data, k))
  {
    var plan := PlanOf(r, t, limit, data);
    var order, entries := Descending(|plan|), Bind(r, plan);
    PlanFromExtraction(r, t, limit, data);
    PlanIsOrdered(r, t, limit, data);
    assert Paths(entries) == EntryPaths(plan);
    if RunInOrder(data, entries, order, r.codec.versionKey).None? {
      var k := StopsSomewhere(data, entries, order, r.codec.versionKey);
      EveryLookupSucceeds(data, entries, order, k, r.codec.versionKey);
      assert RaisesAt(r, plan, order, data, k);
    }
    if k: nat :| RaisesAt(r, plan, order, data, k) {
      RunSplits(data, entries, order, r.codec.versionKey, k);
      assert order[k..][0] == order[k];
    }
  }

  /**
   Why a run fails, in this order: a match is nested too deep, planning fails, or a migration
   raises in its turn.
   */
  lemma {:induction false} RunErrors(r: Runner, t: Target, limit: int, data: Json)
    requires WellFormed(data) && Consistent(r.graph)
    ensures var result, found := RunResult(r, t, limit, data), Extract(r.codec, r.graph, limit, data);
            && (result.Err? && result.error.NestingExceeded? <==> SomeTooDeep(r.codec, r.graph, limit, data, 0))
            && (result.Err? && result.error.NestingExceeded? ==>
                  FirstTooDeep(r.codec, r.graph, limit, data, result.error.path, 0))
            && (forall error :: result == Err(PlanFailed(error)) <==>
                  found.Ok? && FindPlan(r.graph, r.discriminator, r.policy, t, found.value) == Err(error))
            && (result == Err(MigrationFailed) <==>
                  && found.Ok? && FindPlan(r.graph, r.discriminator, r.policy, t, found.value).Ok?
                  && Raises(r, PlanOf(r, t, limit, data), data))
            && result != Err(UnknownModel)
  {
    ExtractionExact(r.codec, r.graph, limit, data);
    var found := Extract(r.codec, r.graph, limit, data);
    if found.Ok? && FindPlan(r.graph, r.discriminator, r.policy, t, found.value).Ok? {
      FailsByMigration(r, t, limit, data);
    }
  }

  /** Some migration of the plan raises in its turn. */
  ghost predicate Raises(r: Runner, plan: seq<PlanEntry>, data: Json) {
    Indexes(Descending(|plan|), |plan|) && exists k: nat :: RaisesAt(r, plan, Descending(|plan|), data, k)
  }

  // ---- configurations ----

  /** The assumptions on the configuration: properties apart, versions of the graph that parse back, one namespace. */
  ghost predicate SoundRunner(r: Runner) {
    && Consistent(r.graph)
    && r.codec.kindKey != r.codec.versionKey
    && (forall e :: e in r.graph.edges ==> r.codec.parse(r.codec.show(e.target.version)) == Some(e.target.version))
    && (forall n :: n in r.graph.nodes ==> n.id.space == r.codec.space)
    && (forall e :: e in r.graph.edges ==> ValidEdge(e))
  }

  /** A step of an entry's chain: migrate, then stamp the version reached. */
  function Stamped(r: Runner, edge: EdgeId, migrated: Json): Json {
    Stamp(migrated, r.codec.versionKey, r.codec.show(edge.target.version))
  }

  lemma {:induction false} ChainStep(r: Runner, edges: seq<EdgeId>, value: Json)
    requires edges != []
    ensures var migrated := r.migrate(edges[0])(value);
            RunSteps(BindSteps(r, edges), r.codec.versionKey, value) ==
            if migrated.None? then None
            else RunSteps(BindSteps(r, edges[1..]), r.codec.versionKey, Stamped(r, edges[0], migrated.value))
  {
    assert BindSteps(r, edges)[1..] == BindSteps(r, edges[1..]);
  }

  // ---- the queue of a run ----

  /** An order of a plan that visits each entry once, descendants before ancestors. */
  ghost predicate InTurn(plan: seq<PlanEntry>, order: seq<nat>) {
    && Indexes(order, |plan|) && Distinct(order)
    && AncestorsFirst(EntryPaths(plan)) && DescendantsFirst(EntryPaths(plan), order)
  }

  lemma {:induction false} TailInTurn(plan: seq<PlanEntry>, order: seq<nat>)
    requires InTurn(plan, order) && order != []
    ensures InTurn(plan, order[1..])
  {
  }

  ghost predicate Awaits(plan: seq<PlanEntry>, order: seq<nat>, path: Path)
    requires Indexes(order, |plan|)
  {
    exists i :: 0 <= i < |order| && plan[order[i]].path == path
  }

  ghost predicate Waiting(r: Runner, entry: PlanEntry, data: Json) {
    && Matched(r.codec, r.graph, data, entry.path)
    && NodeFor(r.codec, r.graph, data, entry.path) == entry.source
  }

  /** The entries in the order are all still as planned. */
  ghost predicate Queued(r: Runner, plan: seq<PlanEntry>, order: seq<nat>, data: Json)
    requires Indexes(order, |plan|)
  {
    WellFormed(data) && forall i :: 0 <= i < |order| ==> Waiting(r, plan[order[i]], data)
  }

  lemma {:induction false} StepQueued(r: Runner, plan: seq<PlanEntry>, order: seq<nat>, data: Json, next: Json,
          result: Json)
    requires InTurn(plan, order) && order != [] && Queued(r, plan, order, data) && WellFormed(next)
    requires HoldsObject(data, plan[order[0]].path) && result.Object?
    requires ReplaceAt(data, plan[order[0]].path, result) == Some(next)
    ensures Indexes(order[1..], |plan|) && Queued(r, plan, order[1..], next)
  {
    forall k | 0 < k < |order| ensures Waiting(r, plan[order[k]], next) {
      StillWaiting(r, plan, order, data, next, result, k);
    }
    QueuedTail(r, plan, order, next);
  }

  lemma {:induction false} QueuedTail(r: Runner, plan: seq<PlanEntry>, order: seq<nat>, data: Json)
    requires Indexes(order, |plan|) && order != [] && WellFormed(data)
    requires forall k :: 0 < k < |order| ==> Waiting(r, plan[order[k]], data)
    ensures Indexes(order[1..], |plan|) && Queued(r, plan, order[1..], data)
  {
  }

  /** Entries later in the order still wait after a step. */
  lemma {:induction false} StillWaiting(r: Runner, plan: seq<PlanEntry>, order: seq<nat>, data: Json, next: Json,
          result: Json, i: nat)
    requires InTurn(plan, order) && 0 < i < |order|
    requires Waiting(r, plan[order[i]], data) && HoldsObject(data, plan[order[0]].path) && result.Object?
    requires ReplaceAt(data, plan[order[0]].path, result) == Some(next)
    ensures Waiting(r, plan[order[i]], next)
  {
    NotAbove(plan, order, i);
    SpliceKeepsOutside(r.codec, r.graph, data, plan[order[0]].path, result, plan[order[i]].path);
  }

  lemma {:induction false} StillAwaits(plan: seq<PlanEntry>, order: seq<nat>, path: Path)
    requires Indexes(order, |plan|) && order != [] && plan[order[0]].path != path && Awaits(plan, order, path)
    ensures Indexes(order[1..], |plan|) && Awaits(plan, order[1..], path)
  {
    var i :| 0 <= i < |order| && plan[order[i]].path == path;
    assert order[1..][i - 1] == order[i];
  }

  lemma {:induction false} NotAbove(plan: seq<PlanEntry>, order: seq<nat>, i: nat)
    requires InTurn(plan, order) && 0 < i < |order|
    ensures !IsPrefix(plan[order[0]].path, plan[order[i]].path)
  {
    var paths := EntryPaths(plan);
    assert order[0] != order[i];
    assert !IsDescendantOf(paths[order[i]], paths[order[0]]);
    if order[0] < order[i] {
      assert paths[order[0]] != paths[order[i]];
    } else {
      assert paths[order[i]] != paths[order[0]];
    }
  }

  /** Everything planned inside an entry has been taken before it. */
  lemma {:induction false} NothingInsideWaits(plan: seq<PlanEntry>, order: seq<nat>, below: Path)
    requires InTurn(plan, order) && order != [] && below != []
    ensures !Awaits(plan, order, plan[order[0]].path + below)
  {
    var path := plan[order[0]].path;
    forall i | 0 <= i < |order| ensures plan[order[i]].path != path + below {
      if i > 0 {
        assert !IsDescendantOf(EntryPaths(plan)[order[i]], EntryPaths(plan)[order[0]]);
        assert (path + below)[..|path|] == path;
      }
    }
  }

  /** A run starts with every entry of its plan as planned. */
  lemma {:induction false} PlanIsQueued(r: Runner, t: Target, limit: int, data: Json)
    requires WellFormed(data) && Consistent(r.graph) && Extract(r.codec, r.graph, limit, data).Ok?
    requires FindPlan(r.graph, r.discriminator, r.policy, t, Extract(r.codec, r.graph, limit, data).value).Ok?
    ensures var plan := PlanOf(r, t, limit, data);
            && InTurn(plan, Descending(|plan|)) && Queued(r, plan, Descending(|plan|), data)
            && (forall e :: e in plan ==> Move(r, t, e))
  {
    var plan := PlanOf(r, t, limit, data);
    PlanIsOrdered(r, t, limit, data);
    PlanExactly(r, t, limit, data);
    forall e | e in plan ensures Move(r, t, e) && Waiting(r, e, data) {
      assert Kept(r, t, data, e);
      PlansMove(r, t, data, e);
    }
    forall i | 0 <= i < |plan| ensures Waiting(r, plan[Descending(|plan|)[i]], data) {
      assert plan[Descending(|plan|)[i]] in plan;
    }
  }

  lemma {:induction false} KeptAwaits(plan: seq<PlanEntry>, e: PlanEntry)
    requires e in plan
    ensures Indexes(Descending(|plan|), |plan|) && Awaits(plan, Descending(|plan|), e.path)
  {
    var k :| 0 <= k < |plan| && plan[k] == e;
    assert Descending(|plan|)[|plan| - 1 - k] == k;
  }
}
