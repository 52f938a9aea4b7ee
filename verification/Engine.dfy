/**
 The engine-level operations on a registry, and what any history of them leaves: the
 registry's contents are those of a simple catalog of nodes, edges and hooks, and every
 index is exact.
 */
module Engine {
  import opened Wrappers
  import opened Collections
  import opened SortedLists
  import opened Identity
  import opened Health
  import opened RegistryIndex
  import opened RegistrySpec
  import R = Registry

  type Hooks = map<EdgeId, seq<string>>

  datatype Catalog = Catalog(nodes: Nodes, edges: Edges, hooks: Hooks)

  /** One engine call. Removing a model by reference is `RemoveModel` of the identity found. */
  datatype Op =
    | StoreModel(entry: NodeEntry)
    | ReconcileModel(entry: NodeEntry)
    | Reconstruct(entry: NodeEntry)
    | RemoveModel(id: NodeId)
    | StoreMigration(spec: Spec)
    | RemoveMigration(key: EdgeId, force: bool)
    | DeleteKind(kind: string)
    | AddHook(key: EdgeId, hook: string)
    | RemoveHook(key: EdgeId, only: Option<string>)
    | ClearHooks(of: Option<EdgeId>)

  ghost predicate ValidOp(op: Op) {
    op.StoreMigration? ==> Reflects(op.spec.reflect)
  }

  predicate IsMigration(edges: Edges, key: EdgeId) {
    key in edges && Executable(edges[key])
  }

  /** What storing a model answers: full models hydrate, bare keys never replace anything. */
  function StoredModel(nodes: Nodes, entry: NodeEntry): Result<NodeEntry, RegistryError> {
    if entry.Model? then Hydrated(nodes, entry)
    else if entry.id in nodes then Ok(nodes[entry.id]) else Ok(entry)
  }

  /** What removing a migration answers. With more than two edges in its kind every edge is critical. */
  ghost function RemovedMigration(c: Catalog, key: EdgeId, force: bool): Result<(), RegistryError> {
    if !IsMigration(c.edges, key) then Err(MigrationMissing)
    else if !force && !Neighbours(c.nodes, key.source, key.target) then Err(NotAdjacent)
    else if !force && |EdgesOfKind(c.edges, key.source.kind)| > 2 then Err(CriticalMigration)
    else if key in c.hooks then Err(HooksRegistered)
    else Ok(())
  }

  /** Drop the first occurrence. */
  function Without(s: seq<string>, hook: string): seq<string> {
    if s == [] then [] else if s[0] == hook then s[1..] else [s[0]] + Without(s[1..], hook)
  }

  lemma {:induction false} WithoutBag(s: seq<string>, hook: string)
    ensures multiset(Without(s, hook)) == multiset(s) - multiset{hook}
  {
    if s != [] {
      assert s == [s[0]] + s[1..];
      WithoutBag(s[1..], hook);
    }
  }

  predicate IsHookOp(op: Op) {
    op.AddHook? || op.RemoveHook? || op.ClearHooks?
  }

  /** The hooks a call on a stored migration leaves. */
  function HooksAfter(hooks: Hooks, key: EdgeId, op: Op): Result<Hooks, RegistryError>
    requires IsHookOp(op)
  {
    match op
    case AddHook(_, hook) => Ok(hooks[key := HooksOf(hooks, key) + [hook]])
    case RemoveHook(_, Some(hook)) =>
      if key !in hooks then Err(NoHooks)
      else if hook !in hooks[key] then Err(UnknownHook)
      else
        var rest := Without(hooks[key], hook);
        Ok(if rest == [] then hooks - {key} else hooks[key := rest])
    case _ => if key !in hooks then Err(NoHooks) else Ok(hooks - {key})
  }

  function HookOutcome(c: Catalog, op: Op): Result<Hooks, RegistryError>
    requires IsHookOp(op)
  {
    if op == ClearHooks(None) then Ok(map[])
    else
      var key := match op case AddHook(k, _) => k case RemoveHook(k, _) => k case ClearHooks(of) => of.value;
      if IsMigration(c.edges, key) then HooksAfter(c.hooks, key, op) else Err(MigrationMissing)
  }

  /** The catalog an engine call leaves. */
  ghost function Step(digestOf: EdgeEntry -> string, c: Catalog, op: Op): Catalog {
    match op
    case StoreModel(entry) => c.(nodes := Updated(c.nodes, entry.id, StoredModel(c.nodes, entry)))
    case ReconcileModel(entry) => c.(nodes := Updated(c.nodes, entry.id, Reconciled(c.nodes, entry)))
    case Reconstruct(entry) => c.(nodes := if entry.id in c.nodes then c.nodes else c.nodes[entry.id := entry])
    case RemoveModel(id) => c.(nodes := if Removable(c.nodes, c.edges, id).Ok? then c.nodes - {id} else c.nodes)
    case StoreMigration(spec) =>
      var after := SpecNodes(c.nodes, spec);
      c.(nodes := after, edges := Updated(c.edges, SpecId(spec), SpecOutcome(digestOf, after, c.nodes, c.edges, spec)))
    case RemoveMigration(key, force) =>
      c.(edges := if RemovedMigration(c, key, force).Ok? then c.edges - {key} else c.edges)
    case DeleteKind(kind) =>
      var gone := MigrationsOfKind(c.edges, kind);
      Catalog(c.nodes - ModelsOfKind(c.nodes, kind), c.edges - gone, c.hooks - gone)
    case _ => c.(hooks := match HookOutcome(c, op) case Ok(hooks) => hooks case Err(_) => c.hooks)
  }

  function HooksOf(hooks: Hooks, key: EdgeId): seq<string> {
    if key in hooks then hooks[key] else []
  }

  function Updated<K, V>(m: map<K, V>, key: K, outcome: Result<V, RegistryError>): map<K, V> {
    if outcome.Ok? then m[key := outcome.value] else m
  }

  ghost function Replayed(digestOf: EdgeEntry -> string, c: Catalog, ops: seq<Op>): Catalog {
    if ops == [] then c else Step(digestOf, Replayed(digestOf, c, ops[..|ops| - 1]), ops[|ops| - 1])
  }

  ghost function Contents(r: R.Registry): Catalog
    reads r
  {
    Catalog(r.nodes, r.edges, r.hooks)
  }

  // ---- the engine's methods ----

  /** `Engine.store_model` */
  method DoStoreModel(registry: R.Registry, entry: NodeEntry) returns (r: Result<NodeEntry, RegistryError>)
    requires registry.Valid()
    modifies registry
    ensures registry.Valid() && (old(registry.Digests()) ==> registry.Digests())
    ensures r == StoredModel(old(registry.nodes), entry)
    ensures r.Err? || old(ModelAt(registry.nodes, entry.id)) ==> unchanged(registry)
    ensures Contents(registry) == Step(registry.digestOf, old(Contents(registry)), StoreModel(entry))
  {
    if entry.Model? {
      r := registry.Hydrate(entry);
      return;
    }
    r := registry.Reconcile(entry);
  }

  /** `get_migration_by_edge` */
  method GetMigration(registry: R.Registry, key: EdgeId) returns (r: Option<EdgeEntry>)
    requires registry.Valid()
    ensures r == if IsMigration(registry.edges, key) then Some(registry.edges[key]) else None
  {
    r := registry.FindEdge(key);
    if r.Some? && !Executable(r.value) { r := None; }
  }

  /** `is_critical_edge` of a stored edge */
  method IsCritical(registry: R.Registry, key: EdgeId) returns (critical: bool)
    requires registry.Valid() && key in registry.edges
    ensures critical <==> |EdgesOfKind(registry.edges, key.source.kind)| > 2
  {
    var paths := Collections.Bucket(registry.migrations, key.source.kind);
    var i := Bisect(EdgeLess, EdgeKey, paths, key);
    EdgeListLength(paths, EdgesOfKind(registry.edges, key.source.kind));
    return |paths| > 2 && (i > 0 || i < |paths| - 1);
  }

  /** The guards of `Engine.remove_migration` */
  method CheckMigrationRemoval(registry: R.Registry, key: EdgeId, force: bool) returns (r: Result<(), RegistryError>)
    requires registry.Valid()
    ensures r == RemovedMigration(Contents(registry), key, force)
  {
    var edge := GetMigration(registry, key);
    if edge.None? { return Err(MigrationMissing); }
    if !force {
      MigrationEndpoints(registry.nodes, registry.edges, key);
      var adjacent := registry.IsAdjacent(key.source, key.target);
      if !adjacent { return Err(NotAdjacent); }
      var critical := IsCritical(registry, key);
      if critical { return Err(CriticalMigration); }
    }
    return if key in registry.hooks then Err(HooksRegistered) else Ok(());
  }

  /** `Engine.remove_migration` */
  method DoRemoveMigration(registry: R.Registry, key: EdgeId, force: bool) returns (r: Result<(), RegistryError>)
    requires registry.Valid()
    modifies registry
    ensures registry.Valid() && (old(registry.Digests()) ==> registry.Digests())
    ensures r == RemovedMigration(old(Contents(registry)), key, force)
    ensures registry.nodes == old(registry.nodes) && registry.hooks == old(registry.hooks)
    ensures registry.edges == if r.Ok? then old(registry.edges) - {key} else old(registry.edges)
  {
    r := CheckMigrationRemoval(registry, key, force);
    if r.Ok? {
      RemoveUnguarded(registry, key);
    }
  }

  method RemoveUnguarded(registry: R.Registry, key: EdgeId)
    requires registry.Valid() && IsMigration(registry.edges, key) && key !in registry.hooks
    modifies registry
    ensures registry.Valid() && (old(registry.Digests()) ==> registry.Digests())
    ensures registry.nodes == old(registry.nodes) && registry.hooks == old(registry.hooks)
    ensures registry.edges == old(registry.edges) - {key}
  {
    EdgeIsKeyed(registry.edges, key);
    var edge := GetMigration(registry, key);
    registry.RemoveGroundedEdge(edge.value);
  }

  lemma {:induction false} MigrationEndpoints(nodes: Nodes, edges: Edges, key: EdgeId)
    requires EdgesGrounded(nodes, edges) && EdgesKeyed(edges) && IsMigration(edges, key)
    ensures ModelAt(nodes, key.source) && ModelAt(nodes, key.target) && key.source.kind == key.target.kind
  {
    assert Grounded(nodes, edges[key]);
  }

  /** `Engine.add_hook`, `remove_hook` and `clear_hooks`: only the hooks change. */
  method SetHooks(registry: R.Registry, op: Op) returns (r: Result<Hooks, RegistryError>)
    requires registry.Valid() && IsHookOp(op)
    modifies registry`hooks
    ensures registry.Valid() && r == HookOutcome(old(Contents(registry)), op)
    ensures registry.hooks == if r.Ok? then r.value else old(registry.hooks)
    ensures old(HooksAttached(Contents(registry))) ==> HooksAttached(Contents(registry))
  {
    OutcomeAttached(Contents(registry), op);
    r := CheckHooks(registry, op);
    if r.Ok? {
      registry.hooks := r.value;
    }
  }

  method CheckHooks(registry: R.Registry, op: Op) returns (r: Result<Hooks, RegistryError>)
    requires registry.Valid() && IsHookOp(op)
    ensures r == HookOutcome(Contents(registry), op)
  {
    if op == ClearHooks(None) { return Ok(map[]); }
    var key := match op case AddHook(k, _) => k case RemoveHook(k, _) => k case ClearHooks(of) => of.value;
    var edge := GetMigration(registry, key);
    return if edge.None? then Err(MigrationMissing) else HooksAfter(registry.hooks, key, op);
  }

  // ---- histories ----

  /** One engine call keeps every index exact and changes the contents as the catalog does. */
  method Apply(registry: R.Registry, op: Op)
    requires registry.Valid() && ValidOp(op)
    modifies registry
    ensures registry.Valid()
    ensures Contents(registry) == Step(registry.digestOf, old(Contents(registry)), op)
    ensures old(HooksAttached(Contents(registry))) ==> HooksAttached(Contents(registry))
    ensures old(registry.Digests())
            && ClashFree(registry.indexDigests, registry.digestOf, old(Contents(registry)), op) ==>
              registry.Digests()
  {
    StepKeepsHooks(registry.digestOf, Contents(registry), op);
    if IsHookOp(op) {
      var _ := SetHooks(registry, op);
    } else if IsNodeOp(op) {
      ApplyToNodes(registry, op);
    } else {
      ApplyToEdges(registry, op);
    }
  }

  predicate IsNodeOp(op: Op) {
    op.StoreModel? || op.ReconcileModel? || op.Reconstruct? || op.RemoveModel?
  }

  method ApplyToNodes(registry: R.Registry, op: Op)
    requires registry.Valid() && IsNodeOp(op)
    modifies registry
    ensures registry.Valid() && (old(registry.Digests()) ==> registry.Digests())
    ensures Contents(registry) == Step(registry.digestOf, old(Contents(registry)), op)
  {
    match op {
      case StoreModel(entry) => var _ := DoStoreModel(registry, entry);
      case ReconcileModel(entry) => var _ := registry.Reconcile(entry);
      case Reconstruct(entry) => var _ := registry.Store(entry);
      case RemoveModel(id) => var _ := registry.RemoveModel(id);
    }
  }

  method ApplyToEdges(registry: R.Registry, op: Op)
    requires registry.Valid() && ValidOp(op) && (op.StoreMigration? || op.RemoveMigration? || op.DeleteKind?)
    modifies registry
    ensures registry.Valid()
    ensures Contents(registry) == Step(registry.digestOf, old(Contents(registry)), op)
    ensures old(registry.Digests())
            && ClashFree(registry.indexDigests, registry.digestOf, old(Contents(registry)), op) ==>
              registry.Digests()
  {
    match op {
      case StoreMigration(spec) => var _ := registry.StoreMigration(spec);
      case RemoveMigration(key, force) => var _ := DoRemoveMigration(registry, key, force);
      case DeleteKind(kind) => registry.DeleteKind(kind);
    }
  }

  /** The call does not store an edge whose digest another stored edge has. */
  ghost predicate ClashFree(on: bool, digestOf: EdgeEntry -> string, c: Catalog, op: Op) {
    op.StoreMigration? ==>
        StaysClear(on, digestOf, c.edges, SpecOutcome(digestOf, SpecNodes(c.nodes, op.spec), c.nodes, c.edges, op.spec))
  }

  ghost predicate ClashFreeHistory(on: bool, digestOf: EdgeEntry -> string, c: Catalog, ops: seq<Op>) {
    forall i :: 0 <= i < |ops| ==> ClashFree(on, digestOf, Replayed(digestOf, c, ops[..i]), ops[i])
  }

  /** After any history of engine calls every index is exact, and the contents are the catalog's. */
  method Replay(registry: R.Registry, ops: seq<Op>)
    requires registry.Valid() && forall op :: op in ops ==> ValidOp(op)
    modifies registry
    ensures registry.Valid()
    ensures Contents(registry) == Replayed(registry.digestOf, old(Contents(registry)), ops)
    ensures old(HooksAttached(Contents(registry))) ==> HooksAttached(Contents(registry))
    ensures old(registry.Digests())
            && ClashFreeHistory(registry.indexDigests, registry.digestOf, old(Contents(registry)), ops) ==>
              registry.Digests()
  {
    for i := 0 to |ops|
      invariant registry.Valid() && (old(HooksAttached(Contents(registry))) ==> HooksAttached(Contents(registry)))
      invariant Contents(registry) == Replayed(registry.digestOf, old(Contents(registry)), ops[..i])
      invariant old(registry.Digests())
                && ClashFreeHistory(registry.indexDigests, registry.digestOf, old(Contents(registry)), ops) ==>
                  registry.Digests()
    {
      assert ops[..i + 1][..i] == ops[..i];
      Apply(registry, ops[i]);
    }
    assert ops[..|ops|] == ops;
  }

  // ---- what histories keep ----

  /** Hooks hang only on stored migrations, and every hooked migration has at least one. */
  ghost predicate HooksAttached(c: Catalog) {
    forall key :: key in c.hooks ==> IsMigration(c.edges, key) && c.hooks[key] != []
  }

  lemma {:induction false} OutcomeAttached(c: Catalog, op: Op)
    requires IsHookOp(op)
    ensures HooksAttached(c) && HookOutcome(c, op).Ok? ==> HooksAttached(c.(hooks := HookOutcome(c, op).value))
  {
  }

  lemma {:induction false} StepKeepsHooks(digestOf: EdgeEntry -> string, c: Catalog, op: Op)
    ensures HooksAttached(c) ==> HooksAttached(Step(digestOf, c, op))
  {
  }

  /** What a hook call does to one migration's hooks, as a bag; the other migrations keep theirs. */
  ghost predicate HookEffect(before: Hooks, after: Hooks, key: EdgeId, bag: multiset<string>) {
    && multiset(HooksOf(after, key)) == bag && (key in after ==> after[key] != [])
    && forall other :: other != key ==>
       (other in after <==> other in before) && HooksOf(after, other) == HooksOf(before, other)
  }

  lemma {:induction false} AddEffect(hooks: Hooks, key: EdgeId, hook: string)
    ensures HookEffect(hooks, hooks[key := HooksOf(hooks, key) + [hook]], key,
              multiset(HooksOf(hooks, key)) + multiset{hook})
  {
  }

  lemma {:induction false} DropOneEffect(hooks: Hooks, key: EdgeId, hook: string)
    requires key in hooks
    ensures var rest := Without(hooks[key], hook);
            HookEffect(hooks, if rest == [] then hooks - {key} else hooks[key := rest],
              key, multiset(hooks[key]) - multiset{hook})
  {
    WithoutBag(hooks[key], hook);
  }

  lemma {:induction false} DropAllEffect(hooks: Hooks, key: EdgeId)
    ensures HookEffect(hooks, hooks - {key}, key, multiset{})
  {
  }

  /** When each hook call succeeds, and what it then changes. */
  lemma {:induction false} HookOutcomeMeans(c: Catalog, op: Op)
    requires IsHookOp(op)
    ensures var r := HookOutcome(c, op);
            match op
            case AddHook(key, hook) =>
              && (r.Ok? <==> IsMigration(c.edges, key))
              && (r.Ok? ==> HookEffect(c.hooks, r.value, key, multiset(HooksOf(c.hooks, key)) + multiset{hook}))
            case RemoveHook(key, Some(hook)) =>
              && (r.Ok? <==> IsMigration(c.edges, key) && hook in HooksOf(c.hooks, key))
              && (r.Ok? ==> HookEffect(c.hooks, r.value, key, multiset(HooksOf(c.hooks, key)) - multiset{hook}))
            case RemoveHook(key, None) =>
              && (r.Ok? <==> IsMigration(c.edges, key) && key in c.hooks)
              && (r.Ok? ==> HookEffect(c.hooks, r.value, key, multiset{}))
            case ClearHooks(Some(key)) =>
              && (r.Ok? <==> IsMigration(c.edges, key) && key in c.hooks)
              && (r.Ok? ==> HookEffect(c.hooks, r.value, key, multiset{}))
            case ClearHooks(None) => r == Ok(map[])
            case _ => true
  {
    match op {
      case AddHook(key, hook) =>
        AddEffect(c.hooks, key, hook);
      case RemoveHook(key, Some(hook)) =>
        if key in c.hooks {
          DropOneEffect(c.hooks, key, hook);
        }
      case RemoveHook(key, None) =>
        DropAllEffect(c.hooks, key);
      case ClearHooks(Some(key)) =>
        DropAllEffect(c.hooks, key);
      case _ =>
    }
  }

  /** Removing a hook just added gives every migration its hooks back, in the old order if the hook is new. */
  lemma {:induction false} RemoveUndoesAdd(c: Catalog, key: EdgeId, hook: string)
    requires HooksAttached(c) && IsMigration(c.edges, key)
    ensures var added := HookOutcome(c, AddHook(key, hook));
            && added.Ok?
            && var removed := HookOutcome(c.(hooks := added.value), RemoveHook(key, Some(hook)));
               && removed.Ok? && HookEffect(c.hooks, removed.value, key, multiset(HooksOf(c.hooks, key)))
               && (hook !in HooksOf(c.hooks, key) ==> removed.value == c.hooks)
  {
    var own := HooksOf(c.hooks, key);
    var added := c.hooks[key := own + [hook]];
    var rest := Without(own + [hook], hook);
    var removed := if rest == [] then added - {key} else added[key := rest];
    DropOneEffect(added, key, hook);
    AddThenRemove(c, key, hook);
    assert multiset(own + [hook]) - multiset{hook} == multiset(own);
    EffectThrough(c.hooks, added, removed, key, multiset(own));
    if hook !in own {
      WithoutLast(own, hook);
      Restored(c.hooks, key, hook);
    }
  }

  lemma {:induction false} AddThenRemove(c: Catalog, key: EdgeId, hook: string)
    requires IsMigration(c.edges, key)
    ensures var added := c.hooks[key := HooksOf(c.hooks, key) + [hook]];
            var rest := Without(HooksOf(c.hooks, key) + [hook], hook);
            && HookOutcome(c, AddHook(key, hook)) == Ok(added)
            && HookOutcome(c.(hooks := added), RemoveHook(key, Some(hook)))
                 == Ok(if rest == [] then added - {key} else added[key := rest])
  {
    var own := HooksOf(c.hooks, key) + [hook];
    assert own[|own| - 1] == hook;
  }

  lemma {:induction false} EffectThrough(a: Hooks, b: Hooks, c: Hooks, key: EdgeId, bag: multiset<string>)
    requires HookEffect(b, c, key, bag)
    requires forall other :: other != key ==> (other in b <==> other in a) && HooksOf(b, other) == HooksOf(a, other)
    ensures HookEffect(a, c, key, bag)
  {
  }

  lemma {:induction false} Restored(hooks: Hooks, key: EdgeId, hook: string)
    requires key in hooks ==> hooks[key] != []
    ensures var own := HooksOf(hooks, key);
            (if own == [] then hooks[key := own + [hook]] - {key} else hooks[key := own + [hook]][key := own]) == hooks
  {
  }

  lemma {:induction false} WithoutLast(s: seq<string>, hook: string)
    requires hook !in s
    ensures Without(s + [hook], hook) == s
  {
    if s != [] {
      WithoutLast(s[1..], hook);
      assert (s + [hook])[0] == s[0] && (s + [hook])[1..] == s[1..] + [hook];
      assert s == [s[0]] + s[1..];
    }
  }

  /** The contents determine every index: histories that reach the same catalog leave the same registry. */
  lemma {:induction false} SameContentsSameIndexes(a: R.Registry, b: R.Registry, kind: string)
    requires a.Valid() && b.Valid() && a.Digests() && b.Digests() && Contents(a) == Contents(b)
    requires a.space == b.space && a.digestOf == b.digestOf && a.indexDigests == b.indexDigests
    ensures a.byVersions == b.byVersions && Collections.Bucket(a.byKinds, kind) == Collections.Bucket(b.byKinds, kind)
    ensures Collections.Bucket(a.migrations, kind) == Collections.Bucket(b.migrations, kind)
    ensures a.edgesByVersion == b.edgesByVersion && a.digestIndex == b.digestIndex
    ensures a.referencesTo == b.referencesTo && a.referencesBy == b.referencesBy
    ensures a.issues == b.issues && a.issuesByNamespace == b.issuesByNamespace
  {
    NodeListsUnique(a.nodes, a.byVersions, b.byVersions);
    NodeListsUnique(OfKind(a.nodes, kind), Collections.Bucket(a.byKinds, kind), Collections.Bucket(b.byKinds, kind));
    EdgeListsUnique(EdgesOfKind(a.edges, kind), Collections.Bucket(a.migrations, kind),
        Collections.Bucket(b.migrations, kind));
    TouchUnique(a.edges, a.edgesByVersion, b.edgesByVersion);
    DigestsUnique(a.indexDigests, a.digestOf, a.edges, a.digestIndex, b.digestIndex);
    TablesUnique(a.tracked, a.referencesTo, a.referencesBy, a.issuesByNamespace,
                 b.referencesTo, b.referencesBy, b.issuesByNamespace, a.issues, b.issues, a.space, a.nodes);
  }
}
