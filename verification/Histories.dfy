/**
 What the engine's calls promise, one call, two calls and whole histories: exactly when each
 succeeds, that repeating a call that succeeded changes nothing, that a removal undoes a
 registration, that stored models and migrations stay as they are until they are removed, the
 order of hooks, and what the health indexes mean.
 */
module Histories {
  import opened Wrappers
  import opened Collections
  import opened Identity
  import opened Health
  import opened RegistryIndex
  import opened RegistrySpec
  import opened Engine
  import R = Registry

  // ---- models ----

  /** A bare key of this identity is stored. */
  predicate HoldsKey(nodes: Nodes, id: NodeId) {
    id in nodes && nodes[id].KeyOnly?
  }

  /**
   Storing succeeds if and only if the identity is free, or held by a bare key, or by a model
   with the same fields; the only refusal is the field conflict.  A stored model wins.
   */
  lemma {:induction false} StoreModelExact(c: Catalog, entry: NodeEntry)
    ensures var r := StoredModel(c.nodes, entry);
            && (entry.KeyOnly? ==> r == Ok(if entry.id in c.nodes then c.nodes[entry.id] else entry))
            && (entry.Model? ==>
                  && (r.Ok? <==> ModelAt(c.nodes, entry.id) ==> c.nodes[entry.id].fields == entry.fields)
                  && (r.Ok? ==> r.value == if ModelAt(c.nodes, entry.id) then c.nodes[entry.id] else entry)
                  && (r.Err? ==> r == Err(FieldConflict)))
  {
  }

  /** Reconciling is the same, except that a model never takes over a bare key. */
  lemma {:induction false} ReconcileModelExact(c: Catalog, entry: NodeEntry)
    ensures var r := Reconciled(c.nodes, entry);
            && (r.Ok? ==> r.value == if entry.id in c.nodes then c.nodes[entry.id] else entry)
            && (r == Err(HydrateInstead) <==> entry.Model? && HoldsKey(c.nodes, entry.id))
            && (r == Err(FieldConflict) <==>
                  entry.Model? && ModelAt(c.nodes, entry.id) && c.nodes[entry.id].fields != entry.fields)
            && (r.Err? ==> r.error in {HydrateInstead, FieldConflict})
  {
  }

  /** A call on one model that is refused changes nothing; otherwise only that identity changes. */
  lemma {:induction false} StoreModelLeaves(digestOf: EdgeEntry -> string, c: Catalog, entry: NodeEntry)
    ensures var r, after := StoredModel(c.nodes, entry), Step(digestOf, c, StoreModel(entry));
            && (r.Err? ==> after == c)
            && (r.Ok? ==> after == c.(nodes := c.nodes[entry.id := r.value]) && Stores(after.nodes, entry))
  {
    StoreModelExact(c, entry);
  }

  /** The identity is stored, with a model of the same fields if the entry is one. */
  predicate Stores(nodes: Nodes, entry: NodeEntry) {
    entry.id in nodes && (entry.Model? ==> nodes[entry.id].Model? && nodes[entry.id].fields == entry.fields)
  }

  /** Storing what is stored answers it and leaves the whole catalog as it is. */
  lemma {:induction false} StoreModelAgain(digestOf: EdgeEntry -> string, c: Catalog, entry: NodeEntry)
    requires Stores(c.nodes, entry)
    ensures StoredModel(c.nodes, entry) == Ok(c.nodes[entry.id]) && Step(digestOf, c, StoreModel(entry)) == c
  {
    StoreModelExact(c, entry);
    assert c.nodes[entry.id := c.nodes[entry.id]] == c.nodes;
  }

  /** So storing twice is storing once. */
  lemma {:induction false} StoreModelTwice(digestOf: EdgeEntry -> string, c: Catalog, entry: NodeEntry)
    requires StoredModel(c.nodes, entry).Ok?
    ensures var once := Step(digestOf, c, StoreModel(entry));
            && Step(digestOf, once, StoreModel(entry)) == once
            && StoredModel(once.nodes, entry) == StoredModel(c.nodes, entry)
  {
    StoreModelLeaves(digestOf, c, entry);
    StoreModelAgain(digestOf, Step(digestOf, c, StoreModel(entry)), entry);
  }

  /** A model is removed exactly when it is stored and no migration touches it. */
  lemma {:induction false} RemoveModelExact(digestOf: EdgeEntry -> string, c: Catalog, id: NodeId)
    ensures var r, after := Removable(c.nodes, c.edges, id), Step(digestOf, c, RemoveModel(id));
            && (r == Err(NotRegistered) <==> id !in c.nodes)
            && (r == Err(UsedByMigrations) <==> id in c.nodes && exists e :: IsMigration(c.edges, e) && Touches(e, id))
            && (r.Err? ==> r.error in {NotRegistered, UsedByMigrations} && after == c)
            && (r.Ok? ==> r == Ok(c.nodes[id]) && after == c.(nodes := c.nodes - {id}))
  {
    if !Unused(c.edges, id) {
      var e :| e in c.edges && Executable(c.edges[e]) && Touches(e, id);
      assert IsMigration(c.edges, e);
    }
  }

  /** A catalog of a valid registry: edges are keyed and join stored models of one kind. */
  ghost predicate WellFormed(c: Catalog) {
    EdgesKeyed(c.edges) && EdgesGrounded(c.nodes, c.edges)
  }

  /** Removing a model just stored under a free identity gives the catalog back. */
  lemma {:induction false} RemoveUndoesStore(digestOf: EdgeEntry -> string, c: Catalog, entry: NodeEntry)
    requires WellFormed(c) && entry.id !in c.nodes
    ensures Step(digestOf, Step(digestOf, c, StoreModel(entry)), RemoveModel(entry.id)) == c
  {
    var stored := Step(digestOf, c, StoreModel(entry));
    StoreModelExact(c, entry);
    assert stored.nodes == c.nodes[entry.id := entry];
    RemoveModelExact(digestOf, stored, entry.id);
    forall e | IsMigration(c.edges, e) ensures !Touches(e, entry.id) {
      assert Grounded(c.nodes, c.edges[e]);
    }
    assert stored.nodes - {entry.id} == c.nodes;
  }

  // ---- migrations ----

  /** One endpoint is a stored model, the other identity is free, and the request allows to reconstruct it. */
  predicate Reconstructs(nodes: Nodes, spec: Spec) {
    && spec.reconstruct
    && ((ModelAt(nodes, spec.source) && spec.target !in nodes)
        || (ModelAt(nodes, spec.target) && spec.source !in nodes))
  }

  predicate HasEndpoints(nodes: Nodes, spec: Spec) {
    ModelAt(nodes, spec.source) && ModelAt(nodes, spec.target)
  }

  /** The nodes a request leaves: as they were, or with the one missing endpoint reconstructed from the other. */
  lemma {:induction false} SpecNodesExact(nodes: Nodes, spec: Spec)
    ensures SpecNodes(nodes, spec) ==
              if spec.source.kind != spec.target.kind || HasEndpoints(nodes, spec) || !Reconstructs(nodes, spec)
              then nodes
              else if ModelAt(nodes, spec.source) then
                nodes[spec.target := spec.reflect(nodes[spec.source], spec.target)]
              else nodes[spec.source := spec.reflect(nodes[spec.target], spec.source)]
  {
  }

  /** The edge a request asks for: its content comes from the two endpoint models. */
  function Requested(nodes: Nodes, spec: Spec): EdgeEntry
    requires HasEndpoints(nodes, spec)
  {
    var source, target := nodes[spec.source], nodes[spec.target];
    EdgeEntry(EdgeId(spec.source, spec.target, spec.discriminator), source, target, Some(spec.content(source, target)))
  }

  /** The request is one for neighbouring versions of one kind and namespace, both stored. */
  ghost predicate Proper(nodes: Nodes, spec: Spec) {
    && HasEndpoints(nodes, spec) && spec.source.kind == spec.target.kind && spec.source.space == spec.target.space
    && spec.discriminator != "" && spec.source != spec.target
    && forall n :: n in nodes && n.kind == spec.source.kind ==> !Between(spec.source, n, spec.target)
  }

  /** A migration of the identity is stored, with content that hashes differently from the one asked for. */
  ghost predicate Conflicts(digestOf: EdgeEntry -> string, nodes: Nodes, edges: Edges, spec: Spec)
    requires HasEndpoints(nodes, spec)
  {
    IsMigration(edges, SpecId(spec)) && digestOf(edges[SpecId(spec)]) != digestOf(Requested(nodes, spec))
  }

  ghost function Outcome(digestOf: EdgeEntry -> string, c: Catalog, spec: Spec): Result<EdgeEntry, RegistryError> {
    SpecOutcome(digestOf, SpecNodes(c.nodes, spec), c.nodes, c.edges, spec)
  }

  lemma {:induction false} StoredEdgeExact(digestOf: EdgeEntry -> string, nodes: Nodes, edges: Edges, edge: EdgeEntry)
    ensures var r := StoredEdge(digestOf, nodes, edges, edge);
            && (r == Err(MigrationMissing) <==>
                  Executable(edge) && !(edge.id.source in nodes && edge.id.target in nodes))
            && (r == Err(MigrationConflict) <==>
                  && Executable(edge) && edge.id.source in nodes && edge.id.target in nodes
                  && IsMigration(edges, edge.id) && digestOf(edges[edge.id]) != digestOf(edge))
            && (r.Err? ==> r.error in {MigrationMissing, MigrationConflict})
            && (r.Ok? ==>
                  if edge.id in edges && (Executable(edge) ==> IsMigration(edges, edge.id))
                  then r.value == edges[edge.id] else r.value == edge)
  {
  }

  /** With both endpoints there, when the request succeeds and what it answers. */
  lemma {:induction false} ResolvedExact(digestOf: EdgeEntry -> string, nodes: Nodes, edges: Edges, spec: Spec)
    requires HasEndpoints(nodes, spec) && spec.source.kind == spec.target.kind
    ensures var r := ResolvedOutcome(digestOf, nodes, edges, spec);
            && (r.Ok? <==> Proper(nodes, spec) && !Conflicts(digestOf, nodes, edges, spec))
            && (r == Err(MigrationConflict) <==> Proper(nodes, spec) && Conflicts(digestOf, nodes, edges, spec))
            && (r.Err? ==> r.error in {InvalidEdge, NotAdjacent, MigrationConflict})
            && (r.Ok? ==>
                  if IsMigration(edges, SpecId(spec)) then r.value == edges[SpecId(spec)]
                  else r.value == Requested(nodes, spec))
  {
    if spec.discriminator != "" {
      StoredEdgeExact(digestOf, nodes, edges, Requested(nodes, spec));
    }
  }

  /**
   A registration request succeeds if and only if its endpoints are or become neighbouring
   models of one kind and namespace, its discriminator is not empty, and no migration of its
   identity with another digest is stored.  It answers the stored migration if there is one.
   */
  lemma {:induction false} StoreMigrationExact(digestOf: EdgeEntry -> string, c: Catalog, spec: Spec)
    requires Reflects(spec.reflect)
    ensures var r, after := Outcome(digestOf, c, spec), SpecNodes(c.nodes, spec);
            && (r.Ok? <==> Proper(after, spec) && !Conflicts(digestOf, after, c.edges, spec))
            && (r == Err(MigrationConflict) <==> Proper(after, spec) && Conflicts(digestOf, after, c.edges, spec))
            && (r == Err(AcrossKinds) <==> spec.source.kind != spec.target.kind)
            && (r.Ok? ==>
                  if IsMigration(c.edges, SpecId(spec)) then r.value == c.edges[SpecId(spec)]
                  else r.value == Requested(after, spec))
  {
    if spec.source.kind == spec.target.kind {
      var after := SpecNodes(c.nodes, spec);
      SpecNodesExact(c.nodes, spec);
      EndpointsWhenResolved(c.nodes, spec);
      if HasEndpoints(after, spec) {
        ResolvedExact(digestOf, after, c.edges, spec);
      }
    }
  }

  lemma {:induction false} EndpointsWhenResolved(nodes: Nodes, spec: Spec)
    requires Reflects(spec.reflect) && spec.source.kind == spec.target.kind
    ensures HasEndpoints(SpecNodes(nodes, spec), spec) <==>
              Reconstructed(nodes, spec.reconstruct, spec.reflect, spec.source, spec.target).1.None?
    ensures HasEndpoints(SpecNodes(nodes, spec), spec) <==> HasEndpoints(nodes, spec) || Reconstructs(nodes, spec)
    ensures Reconstructed(nodes, spec.reconstruct, spec.reflect, spec.source, spec.target).1
              in {None, Some(NotRegistered), Some(AlreadyRegistered)}
  {
  }

  /** One endpoint is a stored model and the other is not, and the request allows to reconstruct it. */
  predicate WouldReconstruct(nodes: Nodes, spec: Spec) {
    spec.reconstruct && (ModelAt(nodes, spec.source) <==> !ModelAt(nodes, spec.target))
  }

  /** Why a request is refused, besides a conflict or a mix of kinds. */
  lemma {:induction false} StoreMigrationErrors(digestOf: EdgeEntry -> string, c: Catalog, spec: Spec)
    requires Reflects(spec.reflect) && spec.source.kind == spec.target.kind
    ensures var r, after := Outcome(digestOf, c, spec), SpecNodes(c.nodes, spec);
            && (r == Err(NotRegistered) <==> !HasEndpoints(c.nodes, spec) && !WouldReconstruct(c.nodes, spec))
            && (r == Err(AlreadyRegistered) <==>
                  WouldReconstruct(c.nodes, spec) && (HoldsKey(c.nodes, spec.source) || HoldsKey(c.nodes, spec.target)))
            && (r == Err(NotAdjacent) <==>
                  && HasEndpoints(after, spec) && spec.source.space == spec.target.space
                  && !Neighbours(after, spec.source, spec.target))
            && (r == Err(InvalidEdge) <==>
                  && HasEndpoints(after, spec)
                  && (spec.source.space != spec.target.space
                      || (Neighbours(after, spec.source, spec.target) && spec.discriminator == "")))
  {
    var after := SpecNodes(c.nodes, spec);
    SpecNodesExact(c.nodes, spec);
    EndpointsWhenResolved(c.nodes, spec);
    if HasEndpoints(after, spec) {
      ResolvedExact(digestOf, after, c.edges, spec);
    }
  }

  /** A refused request changes at most a reconstructed endpoint; the migrations stay as they are. */
  lemma {:induction false} StoreMigrationLeaves(digestOf: EdgeEntry -> string, c: Catalog, spec: Spec)
    ensures var r, after := Outcome(digestOf, c, spec), Step(digestOf, c, StoreMigration(spec));
            && after.nodes == SpecNodes(c.nodes, spec) && after.hooks == c.hooks
            && after.edges == if r.Ok? then c.edges[SpecId(spec) := r.value] else c.edges
  {
  }

  /** The request's migration is stored as the request asks for it. */
  ghost predicate Registered(digestOf: EdgeEntry -> string, c: Catalog, spec: Spec) {
    && Proper(c.nodes, spec) && IsMigration(c.edges, SpecId(spec))
    && digestOf(c.edges[SpecId(spec)]) == digestOf(Requested(c.nodes, spec))
  }

  /** After a request that succeeds its migration is stored so. */
  lemma {:induction false} StoreMigrationRegisters(digestOf: EdgeEntry -> string, c: Catalog, spec: Spec)
    requires Reflects(spec.reflect) && Outcome(digestOf, c, spec).Ok?
    ensures var after := Step(digestOf, c, StoreMigration(spec));
            && Registered(digestOf, after, spec) && after.edges[SpecId(spec)] == Outcome(digestOf, c, spec).value
  {
    StoreMigrationExact(digestOf, c, spec);
    StoreMigrationLeaves(digestOf, c, spec);
  }

  /** Registering what is registered answers the stored migration and leaves the whole catalog as it is. */
  lemma {:induction false} StoreMigrationAgain(digestOf: EdgeEntry -> string, c: Catalog, spec: Spec)
    requires Reflects(spec.reflect) && Registered(digestOf, c, spec)
    ensures Outcome(digestOf, c, spec) == Ok(c.edges[SpecId(spec)]) && Step(digestOf, c, StoreMigration(spec)) == c
  {
    SpecNodesExact(c.nodes, spec);
    StoreMigrationExact(digestOf, c, spec);
    StoreMigrationLeaves(digestOf, c, spec);
    assert c.edges[SpecId(spec) := c.edges[SpecId(spec)]] == c.edges;
  }

  /** So registering twice is registering once. */
  lemma {:induction false} StoreMigrationTwice(digestOf: EdgeEntry -> string, c: Catalog, spec: Spec)
    requires Reflects(spec.reflect) && Outcome(digestOf, c, spec).Ok?
    ensures var once := Step(digestOf, c, StoreMigration(spec));
            && Step(digestOf, once, StoreMigration(spec)) == once
            && Outcome(digestOf, once, spec) == Outcome(digestOf, c, spec)
  {
    StoreMigrationRegisters(digestOf, c, spec);
    StoreMigrationAgain(digestOf, Step(digestOf, c, StoreMigration(spec)), spec);
  }

  /** A request for a stored migration with another digest is refused and changes nothing. */
  lemma {:induction false} ConflictChangesNothing(digestOf: EdgeEntry -> string, c: Catalog, spec: Spec)
    requires WellFormed(c) && Reflects(spec.reflect) && Proper(c.nodes, spec) && IsMigration(c.edges, SpecId(spec))
    requires digestOf(c.edges[SpecId(spec)]) != digestOf(Requested(c.nodes, spec))
    ensures Outcome(digestOf, c, spec) == Err(MigrationConflict) && Step(digestOf, c, StoreMigration(spec)) == c
  {
    SpecNodesExact(c.nodes, spec);
    StoreMigrationExact(digestOf, c, spec);
    StoreMigrationLeaves(digestOf, c, spec);
  }

  /** Exactly when a migration is removed, and what is then left. */
  lemma {:induction false} RemoveMigrationExact(digestOf: EdgeEntry -> string, c: Catalog, key: EdgeId, force: bool)
    ensures var r, after := RemovedMigration(c, key, force), Step(digestOf, c, RemoveMigration(key, force));
            && (r.Ok? <==>
                  && IsMigration(c.edges, key) && key !in c.hooks
                  && (force || (Neighbours(c.nodes, key.source, key.target)
                                && |EdgesOfKind(c.edges, key.source.kind)| <= 2)))
            && (r == Err(MigrationMissing) <==> !IsMigration(c.edges, key))
            && (r == Err(NotAdjacent) <==>
                  IsMigration(c.edges, key) && !force && !Neighbours(c.nodes, key.source, key.target))
            && (r == Err(CriticalMigration) <==>
                  && IsMigration(c.edges, key) && !force && Neighbours(c.nodes, key.source, key.target)
                  && |EdgesOfKind(c.edges, key.source.kind)| > 2)
            && (r.Err? ==> r.error in {MigrationMissing, NotAdjacent, CriticalMigration, HooksRegistered})
            && after == if r.Ok? then c.(edges := c.edges - {key}) else c
  {
  }

  /** Forcing out a migration just registered under a free identity gives the catalog back. */
  lemma {:induction false} RemoveUndoesRegistration(digestOf: EdgeEntry -> string, c: Catalog, spec: Spec)
    requires Reflects(spec.reflect) && Outcome(digestOf, c, spec).Ok? && HasEndpoints(c.nodes, spec)
    requires SpecId(spec) !in c.edges && SpecId(spec) !in c.hooks
    ensures Step(digestOf, Step(digestOf, c, StoreMigration(spec)), RemoveMigration(SpecId(spec), true)) == c
  {
    var stored := Step(digestOf, c, StoreMigration(spec));
    SpecNodesExact(c.nodes, spec);
    StoreMigrationRegisters(digestOf, c, spec);
    RemoveMigrationExact(digestOf, stored, SpecId(spec), true);
    assert stored.edges - {SpecId(spec)} == c.edges;
  }

  // ---- histories ----

  /** The call can remove a node of the identity. */
  predicate CanRemove(op: Op, id: NodeId) {
    op == RemoveModel(id) || op == DeleteKind(id.kind)
  }

  /** The call can remove the migration. */
  predicate CanWithdraw(op: Op, key: EdgeId) {
    (op.RemoveMigration? && op.key == key) || op == DeleteKind(key.source.kind)
  }

  lemma {:induction false} StepKeepsModel(digestOf: EdgeEntry -> string, c: Catalog, op: Op, id: NodeId)
    requires ModelAt(c.nodes, id) && !CanRemove(op, id)
    ensures id in Step(digestOf, c, op).nodes && Step(digestOf, c, op).nodes[id] == c.nodes[id]
  {
    match op
    case StoreModel(entry) => StoreModelExact(c, entry);
    case ReconcileModel(entry) => ReconcileModelExact(c, entry);
    case StoreMigration(spec) => SpecNodesExact(c.nodes, spec);
    case _ =>
  }

  /** A bare key stays stored too, or a model of its identity takes it over. */
  lemma {:induction false} StepKeepsKey(digestOf: EdgeEntry -> string, c: Catalog, op: Op, id: NodeId)
    requires HoldsKey(c.nodes, id) && !CanRemove(op, id)
    ensures var after := Step(digestOf, c, op).nodes;
            id in after && (after[id] == c.nodes[id] || after[id].Model?)
  {
    match op
    case StoreModel(entry) => StoreModelExact(c, entry);
    case ReconcileModel(entry) => ReconcileModelExact(c, entry);
    case StoreMigration(spec) => SpecNodesExact(c.nodes, spec);
    case _ =>
  }

  lemma {:induction false} StepKeepsMigration(digestOf: EdgeEntry -> string, c: Catalog, op: Op, key: EdgeId)
    requires IsMigration(c.edges, key) && !CanWithdraw(op, key) && ValidOp(op)
    ensures key in Step(digestOf, c, op).edges && Step(digestOf, c, op).edges[key] == c.edges[key]
  {
    match op
    case StoreMigration(spec) =>
      StoreMigrationExact(digestOf, c, spec);
      StoreMigrationLeaves(digestOf, c, spec);
    case _ =>
  }

  /** A stored model, fields, references and all, stays the same until it is removed or its kind is deleted. */
  lemma {:induction false} HistoryKeepsModel(digestOf: EdgeEntry -> string, c: Catalog, ops: seq<Op>, id: NodeId)
    requires ModelAt(c.nodes, id) && forall op :: op in ops ==> !CanRemove(op, id)
    ensures var after := Replayed(digestOf, c, ops).nodes;
            id in after && after[id] == c.nodes[id]
    decreases |ops|
  {
    if ops != [] {
      var init := ops[..|ops| - 1];
      HistoryKeepsModel(digestOf, c, init, id);
      StepKeepsModel(digestOf, Replayed(digestOf, c, init), ops[|ops| - 1], id);
    }
  }

  /** A stored identity stays stored until it is removed or its kind is deleted. */
  lemma {:induction false} HistoryKeepsIdentity(digestOf: EdgeEntry -> string, c: Catalog, ops: seq<Op>, id: NodeId)
    requires id in c.nodes && forall op :: op in ops ==> !CanRemove(op, id)
    ensures id in Replayed(digestOf, c, ops).nodes
    decreases |ops|
  {
    if ops != [] {
      var init := ops[..|ops| - 1];
      HistoryKeepsIdentity(digestOf, c, init, id);
      var before := Replayed(digestOf, c, init);
      if ModelAt(before.nodes, id) {
        StepKeepsModel(digestOf, before, ops[|ops| - 1], id);
      } else {
        StepKeepsKey(digestOf, before, ops[|ops| - 1], id);
      }
    }
  }

  /** A stored migration, content and all, stays the same until it is removed or its kind is deleted. */
  lemma {:induction false} HistoryKeepsMigration(digestOf: EdgeEntry -> string, c: Catalog, ops: seq<Op>, key: EdgeId)
    requires IsMigration(c.edges, key) && forall op :: op in ops ==> !CanWithdraw(op, key) && ValidOp(op)
    ensures var after := Replayed(digestOf, c, ops).edges;
            key in after && after[key] == c.edges[key]
    decreases |ops|
  {
    if ops != [] {
      var init := ops[..|ops| - 1];
      HistoryKeepsMigration(digestOf, c, init, key);
      StepKeepsMigration(digestOf, Replayed(digestOf, c, init), ops[|ops| - 1], key);
    }
  }

  /** So once a model is stored, storing it again succeeds with the stored one, however long after. */
  lemma {:induction false} StoreModelLater(digestOf: EdgeEntry -> string, c: Catalog, entry: NodeEntry, ops: seq<Op>)
    requires entry.Model? && StoredModel(c.nodes, entry).Ok?
    requires forall op :: op in ops ==> !CanRemove(op, entry.id)
    ensures var later := Replayed(digestOf, Step(digestOf, c, StoreModel(entry)), ops);
            && StoredModel(later.nodes, entry) == StoredModel(c.nodes, entry)
            && Step(digestOf, later, StoreModel(entry)) == later
  {
    var once := Step(digestOf, c, StoreModel(entry));
    StoreModelLeaves(digestOf, c, entry);
    HistoryKeepsModel(digestOf, once, ops, entry.id);
    StoreModelAgain(digestOf, Replayed(digestOf, once, ops), entry);
  }

  // ---- hooks ----

  /** The migration a hook call is about; clearing all hooks is about none. */
  function About(op: Op): Option<EdgeId>
    requires IsHookOp(op)
  {
    match op
    case AddHook(key, _) => Some(key)
    case RemoveHook(key, _) => Some(key)
    case ClearHooks(of) => of
  }

  /** Why a hook call is refused: no such migration, no hooks on it, or not this hook. */
  lemma {:induction false} HookErrors(c: Catalog, op: Op)
    requires IsHookOp(op)
    ensures var r, key := HookOutcome(c, op), About(op);
            && (r == Err(MigrationMissing) <==> key.Some? && !IsMigration(c.edges, key.value))
            && (r == Err(NoHooks) <==>
                  key.Some? && IsMigration(c.edges, key.value) && !op.AddHook? && key.value !in c.hooks)
            && (r == Err(UnknownHook) <==>
                  && op.RemoveHook? && op.only.Some? && IsMigration(c.edges, op.key)
                  && op.key in c.hooks && op.only.value !in c.hooks[op.key])
            && (r.Err? ==> r.error in {MigrationMissing, NoHooks, UnknownHook})
  {
  }

  /** The calls that add the hooks, one after the other. */
  function AddAll(key: EdgeId, hooks: seq<string>): (ops: seq<Op>)
    ensures |ops| == |hooks| && forall i :: 0 <= i < |hooks| ==> ops[i] == AddHook(key, hooks[i])
  {
    seq(|hooks|, i requires 0 <= i < |hooks| => AddHook(key, hooks[i]))
  }

  /** Hooks are kept in the order in which they were added. */
  lemma {:induction false} HooksKeepOrder(digestOf: EdgeEntry -> string, c: Catalog, key: EdgeId, hooks: seq<string>)
    requires IsMigration(c.edges, key)
    ensures var after := Replayed(digestOf, c, AddAll(key, hooks));
            HooksOf(after.hooks, key) == HooksOf(c.hooks, key) + hooks && after.edges == c.edges
    decreases |hooks|
  {
    var own := HooksOf(c.hooks, key);
    if hooks == [] {
      assert own + [] == own;
    } else {
      var n := |hooks| - 1;
      assert AddAll(key, hooks)[..n] == AddAll(key, hooks[..n]);
      HooksKeepOrder(digestOf, c, key, hooks[..n]);
      assert own + hooks[..n] + [hooks[n]] == own + hooks;
    }
  }

  lemma {:induction false} WithoutFirst(s: seq<string>, hook: string) returns (i: nat)
    requires hook in s
    ensures i < |s| && s[i] == hook && hook !in s[..i] && Without(s, hook) == s[..i] + s[i + 1..]
  {
    if s[0] == hook {
      i := 0;
    } else {
      var rest := WithoutFirst(s[1..], hook);
      i := rest + 1;
      assert s[..i] == [s[0]] + s[1..][..rest] && s[1..][rest + 1..] == s[i + 1..];
      assert [s[0]] + (s[1..][..rest] + s[i + 1..]) == s[..i] + s[i + 1..];
    }
  }

  /** Removing a hook takes its first occurrence and leaves the others in order. */
  lemma {:induction false} RemoveTakesFirst(c: Catalog, key: EdgeId, hook: string) returns (i: nat)
    requires HookOutcome(c, RemoveHook(key, Some(hook))).Ok?
    ensures var own := HooksOf(c.hooks, key);
            && i < |own| && own[i] == hook && hook !in own[..i]
            && HooksOf(HookOutcome(c, RemoveHook(key, Some(hook))).value, key) == own[..i] + own[i + 1..]
  {
    i := WithoutFirst(c.hooks[key], hook);
  }

  // ---- health ----

  /**
   What the indexes of a valid registry mean: a stored model has an issue for each reference
   that leads out of the namespace or to no stored node, and nothing else has issues.
   */
  lemma {:induction false} IssuesMean(registry: R.Registry, id: NodeId, reference: NodeId, local: bool)
    requires registry.Valid()
    ensures Issue(reference, local) in IssuesOf(registry.issues, id) <==>
              && ModelAt(registry.nodes, id) && reference in registry.nodes[id].references
              && local == (reference.space == registry.space) && (local ==> reference !in registry.nodes)
  {
    assert IssuesOf(registry.issues, id) == Recomputed(registry.space, registry.nodes, id);
  }

  /** The referrers of an identity are the stored models that reference it. */
  lemma {:induction false} ReferrersMean(registry: R.Registry, id: NodeId, reference: NodeId)
    requires registry.Valid()
    ensures id in Referrers(registry.referencesTo, reference) <==>
              ModelAt(registry.nodes, id) && reference in registry.nodes[id].references
  {
    assert Referrers(registry.referencesTo, reference) == Referencing(registry.tracked, reference);
  }
}
