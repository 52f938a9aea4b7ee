/**
 The mutable registry: sorted node and edge stores, their secondary indexes, and the
 incrementally maintained reference and health indexes.
 */
module Registry {
  import opened Wrappers
  import opened Collections
  import opened Sorting
  import opened SortedLists
  import opened Identity
  import opened Health
  import opened RegistryIndex
  import opened RegistrySpec

  /** The registry. `nodes`, `edges` and `tracked` are its abstract contents. */
  class Registry {
    const space: string
    const indexDigests: bool
    /** The content hash of an executable edge. */
    const digestOf: EdgeEntry -> string
    var byVersions: seq<NodeEntry>
    var byKinds: map<string, seq<NodeEntry>>
    var byModels: map<ModelRef, NodeEntry>
    var migrations: map<string, seq<EdgeEntry>>
    var edgesByVersion: map<NodeId, Edges>
    var digestIndex: map<string, EdgeId>
    var hooks: map<EdgeId, seq<string>>
    var referencesTo: RefTable
    var referencesBy: map<NodeId, set<NodeId>>
    var issues: map<NodeId, set<Issue>>
    var issuesByNamespace: map<string, set<NodeId>>
    ghost var nodes: Nodes
    ghost var edges: Edges
    ghost var tracked: Nodes

    constructor (space: string, indexDigests: bool, digestOf: EdgeEntry -> string)
      ensures Valid() && Digests() && nodes == map[] && edges == map[] && hooks == map[]
      ensures this.space == space && this.indexDigests == indexDigests && this.digestOf == digestOf
    {
      this.space, this.indexDigests, this.digestOf := space, indexDigests, digestOf;
      byVersions, byKinds, byModels := [], map[], map[];
      migrations, edgesByVersion, digestIndex, hooks := map[], map[], map[], map[];
      referencesTo, referencesBy, issues, issuesByNamespace := map[], map[], map[], map[];
      nodes, edges, tracked := map[], map[], map[];
    }

    /** The representation invariant of the stores and their secondary indexes. */
    ghost predicate Indexed()
      reads this
    {
      && NodesIndexed(nodes, byVersions, byKinds)
      && EdgesIndexed(edges, migrations, edgesByVersion)
      && ModelsSound(nodes, byModels)
      && Tables(tracked, referencesTo, referencesBy, issues, issuesByNamespace)
    }

    /** The digest index is exact. */
    ghost predicate Digests()
      reads this
    {
      DigestsExact(indexDigests, digestOf, edges, digestIndex)
    }

    /**
     The reference index is the inverse of the stored references, and every node's issues are as
     recomputed from scratch.
     */
    ghost predicate HealthExact()
      reads this
    {
      ExactHealth(space, nodes, tracked, issues)
    }

    ghost predicate Valid()
      reads this
    {
      Indexed() && HealthExact() && EdgesGrounded(nodes, edges)
    }

    /** The first half of `_set_references`: forget the entity's former references. */
    method ForgetReferences(entity: NodeEntry)
      requires Tables(tracked, referencesTo, referencesBy, issues, issuesByNamespace)
      modifies this`referencesTo, this`referencesBy, this`tracked
      ensures Tables(tracked, referencesTo, referencesBy, issues, issuesByNamespace)
      ensures tracked == old(tracked) - {entity.id}
    {
      var former := if entity.id in referencesBy then referencesBy[entity.id] else {};
      FormerCovers(tracked, referencesBy, entity.id);
      referencesTo := RemoveReferences(tracked, referencesTo, former, entity.id);
      referencesBy := referencesBy - {entity.id};
      tracked := tracked - {entity.id};
    }

    /** The second half: record its present references. */
    method RecordReferences(entity: NodeEntry)
      requires Tables(tracked, referencesTo, referencesBy, issues, issuesByNamespace)
      requires entity.id !in tracked && References(entity) != {}
      modifies this`referencesTo, this`referencesBy, this`tracked
      ensures Tables(tracked, referencesTo, referencesBy, issues, issuesByNamespace)
      ensures tracked == old(tracked)[entity.id := entity]
    {
      referencesTo := AddReferences(tracked, referencesTo, entity);
      referencesBy := referencesBy[entity.id := References(entity)];
      tracked := tracked[entity.id := entity];
    }

    /** `_set_references` */
    method SetReferences(entity: NodeEntry, refs: set<NodeId>)
      requires Tables(tracked, referencesTo, referencesBy, issues, issuesByNamespace)
      requires refs == {} || refs == References(entity)
      modifies this`referencesTo, this`referencesBy, this`tracked
      ensures Tables(tracked, referencesTo, referencesBy, issues, issuesByNamespace)
      ensures tracked == if refs == {} then old(tracked) - {entity.id} else old(tracked)[entity.id := entity]
    {
      ForgetReferences(entity);
      if refs != {} {
        RecordReferences(entity);
        assert tracked == old(tracked)[entity.id := entity];
      }
    }

    /** `_set_health` */
    method SetHealth(id: NodeId, found: set<Issue>)
      requires Tables(tracked, referencesTo, referencesBy, issues, issuesByNamespace)
      modifies this`issues, this`issuesByNamespace
      ensures Tables(tracked, referencesTo, referencesBy, issues, issuesByNamespace)
      ensures issues == if found == {} then old(issues) - {id} else old(issues)[id := found]
    {
      issuesByNamespace := Refile(issuesByNamespace, id, found != {});
      issues := if found == {} then issues - {id} else issues[id := found];
    }

    /** `has_model`: any stored entry counts, key-only ones included. */
    method HasModel(id: NodeId) returns (found: bool)
      requires Lists(NodeLess, NodeKey, byVersions, nodes)
      ensures found <==> id in nodes
    {
      FindNodeExact(nodes, byVersions, id);
      return FindNode(byVersions, id).Some?;
    }

    /** `MissingReferencesLinter.__call__` */
    method Lint(entity: NodeEntry) returns (found: set<Issue>)
      requires Lists(NodeLess, NodeKey, byVersions, nodes)
      ensures found == Missing(space, nodes.Keys, entity)
    {
      found := {};
      var left := References(entity);
      while left != {}
        invariant left <= References(entity)
        invariant found == set r | r in References(entity) && r !in left && !(r.space == space && r in nodes.Keys) ::
                  Issue(r, r.space == space)
        decreases left
      {
        var r :| r in left;
        var local := r.space == space;
        var stored := HasModel(r);
        if !(local && stored) {
          found := found + {Issue(r, local)};
        }
        left := left - {r};
      }
    }

    /** `_refresh_health` over nodes, in any order. */
    method Refresh(entities: Nodes)
      requires Lists(NodeLess, NodeKey, byVersions, nodes) && Keyed(entities)
      requires Tables(tracked, referencesTo, referencesBy, issues, issuesByNamespace)
      modifies this`referencesTo, this`referencesBy, this`tracked, this`issues, this`issuesByNamespace
      ensures Tables(tracked, referencesTo, referencesBy, issues, issuesByNamespace)
      ensures tracked == Overlay(old(tracked), entities)
      ensures issues == Relint(old(issues), space, nodes.Keys, entities)
    {
      var left := entities.Keys;
      ghost var t0, i0, stored := tracked, issues, nodes.Keys;
      ghost var done: Nodes := map[];
      OverlayNothing(tracked, issues, space, stored);
      while left != {}
        invariant left <= entities.Keys && Splits(entities, left, done)
        invariant Tables(tracked, referencesTo, referencesBy, issues, issuesByNamespace)
        invariant Refreshed(t0, i0, space, stored, done, tracked, issues)
        decreases left
      {
        var id :| id in left;
        var entity := entities[id];
        SplitOne(entities, left, done, id);
        RefreshedOne(t0, i0, space, stored, done, tracked, issues, entity);
        RefreshOne(entity);
        left := left - {id};
        done := done[id := entity];
      }
      assert done == entities;
    }

    /** One turn of `_refresh_health` */
    method RefreshOne(entity: NodeEntry)
      requires Lists(NodeLess, NodeKey, byVersions, nodes)
      requires Tables(tracked, referencesTo, referencesBy, issues, issuesByNamespace)
      modifies this`referencesTo, this`referencesBy, this`tracked, this`issues, this`issuesByNamespace
      ensures Tables(tracked, referencesTo, referencesBy, issues, issuesByNamespace)
      ensures tracked == if References(entity) == {} then old(tracked) - {entity.id}
                         else old(tracked)[entity.id := entity]
      ensures issues == if Missing(space, nodes.Keys, entity) == {} then old(issues) - {entity.id}
                        else old(issues)[entity.id := Missing(space, nodes.Keys, entity)]
    {
      SetReferences(entity, References(entity));
      var found := Lint(entity);
      SetHealth(entity.id, found);
    }

    /** `_drop_entity` */
    method DropEntity(entity: NodeEntry)
      requires Tables(tracked, referencesTo, referencesBy, issues, issuesByNamespace)
      modifies this`referencesTo, this`referencesBy, this`tracked, this`issues, this`issuesByNamespace
      ensures Tables(tracked, referencesTo, referencesBy, issues, issuesByNamespace)
      ensures tracked == old(tracked) - {entity.id} && issues == old(issues) - {entity.id}
    {
      SetHealth(entity.id, {});
      SetReferences(entity, {});
    }

    /** `_rebuild_health`: start over and refresh every stored node. */
    method RebuildHealth()
      requires Lists(NodeLess, NodeKey, byVersions, nodes)
      modifies this`referencesTo, this`referencesBy, this`tracked, this`issues, this`issuesByNamespace
      ensures Tables(tracked, referencesTo, referencesBy, issues, issuesByNamespace) && HealthExact()
    {
      NodesAreKeyed(nodes, byVersions);
      RebuiltExact(space, nodes);
      var entities := Entities();
      ClearHealth();
      Refresh(entities);
    }

    method Entities() returns (entities: Nodes)
      requires Lists(NodeLess, NodeKey, byVersions, nodes)
      ensures entities == nodes
    {
      EntitiesAreNodes(nodes, byVersions);
      entities := ById(byVersions);
    }

    method ClearHealth()
      modifies this`referencesTo, this`referencesBy, this`tracked, this`issues, this`issuesByNamespace
      ensures Tables(tracked, referencesTo, referencesBy, issues, issuesByNamespace) && tracked == map[]
      ensures issues == map[]
    {
      referencesTo, referencesBy, issues, issuesByNamespace := map[], map[], map[], map[];
      tracked := map[];
    }

    /** Rebuilding a valid registry's indexes changes none of them. */
    method RebuildIsIncremental()
      requires Valid()
      modifies this`referencesTo, this`referencesBy, this`tracked, this`issues, this`issuesByNamespace
      ensures referencesTo == old(referencesTo) && referencesBy == old(referencesBy)
      ensures issues == old(issues) && issuesByNamespace == old(issuesByNamespace)
    {
      RebuildHealth();
      TablesUnique(tracked, referencesTo, referencesBy, issuesByNamespace,
                   old(referencesTo), old(referencesBy), old(issuesByNamespace), issues, old(issues), space, nodes);
    }

    // ---- nodes ----

    /** `find_entry` */
    method FindEntry(id: NodeId) returns (r: Option<NodeEntry>)
      requires Lists(NodeLess, NodeKey, byVersions, nodes)
      ensures r == if id in nodes then Some(nodes[id]) else None
    {
      FindNodeExact(nodes, byVersions, id);
      return FindNode(byVersions, id);
    }

    /** Insert into the sorted lists and the model index. */
    method InsertEntry(entry: NodeEntry)
      requires NodesIndexed(nodes, byVersions, byKinds) && ModelsSound(nodes, byModels) && entry.id !in nodes
      modifies this`byVersions, this`byKinds, this`byModels, this`nodes
      ensures NodesIndexed(nodes, byVersions, byKinds) && ModelsSound(nodes, byModels)
      ensures nodes == old(nodes)[entry.id := entry]
      ensures ModelsComplete(nodes, byModels) <==> old(ModelsComplete(nodes, byModels) && FreshReference(nodes, entry))
    {
      NodesAreKeyed(nodes, byVersions);
      StoreKeepsComplete(nodes, byModels, entry);
      NodesInsert(nodes, byVersions, byKinds, entry);
      StoreKeepsModels(nodes, byModels, entry);
      byVersions := InsertNode(byVersions, entry);
      byKinds := byKinds[entry.id.kind := InsertNode(Collections.Bucket(byKinds, entry.id.kind), entry)];
      if entry.Model? {
        byModels := byModels[entry.ref := entry];
      }
      nodes := nodes[entry.id := entry];
    }

    /** Delete from the sorted lists and the model index. */
    method DeleteEntry(entry: NodeEntry)
      requires NodesIndexed(nodes, byVersions, byKinds) && ModelsSound(nodes, byModels) && IsStored(nodes, entry)
      modifies this`byVersions, this`byKinds, this`byModels, this`nodes
      ensures NodesIndexed(nodes, byVersions, byKinds) && ModelsSound(nodes, byModels)
      ensures nodes == old(nodes) - {entry.id}
      ensures old(ModelsComplete(nodes, byModels)) ==> ModelsComplete(nodes, byModels)
    {
      NodesAreKeyed(nodes, byVersions);
      NodesDelete(nodes, byVersions, byKinds, entry.id);
      ForgetModel(entry);
      byVersions := DeleteNode(byVersions, entry.id);
      byKinds := byKinds[entry.id.kind := DeleteNode(Collections.Bucket(byKinds, entry.id.kind), entry.id)];
      nodes := nodes - {entry.id};
    }

    method ForgetModel(entry: NodeEntry)
      requires Keyed(nodes) && ModelsSound(nodes, byModels) && IsStored(nodes, entry)
      modifies this`byModels
      ensures ModelsSound(nodes - {entry.id}, byModels)
      ensures old(ModelsComplete(nodes, byModels)) ==> ModelsComplete(nodes - {entry.id}, byModels)
    {
      RemoveKeepsModels(nodes, byModels, entry);
      if ModelsComplete(nodes, byModels) {
        RemoveKeepsComplete(nodes, byModels, entry);
      }
      if entry.Model? {
        byModels := byModels - {entry.ref};
      }
    }

    /** After a node was inserted: refresh it and whatever references it. */
    method RefreshStoredNode(entry: NodeEntry, ghost before: Nodes)
      requires Lists(NodeLess, NodeKey, byVersions, nodes)
      requires Tables(tracked, referencesTo, referencesBy, issues, issuesByNamespace)
      requires Keyed(before) && entry.id !in before && nodes == before[entry.id := entry]
      requires tracked == WithReferences(before) && IssuesExact(space, before, issues)
      modifies this`referencesTo, this`referencesBy, this`tracked, this`issues, this`issuesByNamespace
      ensures Tables(tracked, referencesTo, referencesBy, issues, issuesByNamespace)
      ensures tracked == WithReferences(nodes) && IssuesExact(space, nodes, issues)
    {
      StoreTracks(before, referencesTo, entry);
      StoreIssues(space, before, referencesTo, issues, entry);
      AffectedKeyed(tracked, referencesTo, entry);
      Refresh(Referrers(referencesTo, entry.id)[entry.id := entry]);
    }

    /** `store` of an entry whose identity is free */
    method StoreAbsent(entry: NodeEntry)
      requires Valid() && entry.id !in nodes
      modifies this`byVersions, this`byKinds, this`byModels, this`nodes
      modifies this`referencesTo, this`referencesBy, this`tracked, this`issues, this`issuesByNamespace
      ensures Valid()
      ensures nodes == old(nodes)[entry.id := entry]
      ensures ModelsComplete(nodes, byModels) <==> old(ModelsComplete(nodes, byModels) && FreshReference(nodes, entry))
    {
      StoreKeepsGrounded(nodes, edges, entry);
      StoreNode(entry);
    }

    /** `store` on the node indexes */
    method StoreNode(entry: NodeEntry)
      requires NodesIndexed(nodes, byVersions, byKinds) && ModelsSound(nodes, byModels) && entry.id !in nodes
      requires Tables(tracked, referencesTo, referencesBy, issues, issuesByNamespace) && HealthExact()
      modifies this`byVersions, this`byKinds, this`byModels, this`nodes
      modifies this`referencesTo, this`referencesBy, this`tracked, this`issues, this`issuesByNamespace
      ensures NodesIndexed(nodes, byVersions, byKinds) && ModelsSound(nodes, byModels)
      ensures nodes == old(nodes)[entry.id := entry]
      ensures Tables(tracked, referencesTo, referencesBy, issues, issuesByNamespace) && HealthExact()
      ensures ModelsComplete(nodes, byModels) <==> old(ModelsComplete(nodes, byModels) && FreshReference(nodes, entry))
    {
      NodesAreKeyed(nodes, byVersions);
      InsertEntry(entry);
      RefreshStoredNode(entry, old(nodes));
    }

    /** `store` */
    method Store(entry: NodeEntry) returns (r: Result<NodeEntry, RegistryError>)
      requires Valid()
      modifies this`byVersions, this`byKinds, this`byModels, this`nodes
      modifies this`referencesTo, this`referencesBy, this`tracked, this`issues, this`issuesByNamespace
      ensures Valid()
      ensures entry.id in old(nodes) ==> r == Err(AlreadyRegistered) && nodes == old(nodes) && unchanged(this)
      ensures entry.id !in old(nodes) ==> r == Ok(entry) && nodes == old(nodes)[entry.id := entry]
    {
      var existing := FindEntry(entry.id);
      if existing.Some? { return Err(AlreadyRegistered); }
      StoreAbsent(entry);
      return Ok(entry);
    }

    /** After a node was deleted: drop it and refresh whatever referenced it. */
    method RefreshRemovedNode(entry: NodeEntry, ghost before: Nodes)
      requires Lists(NodeLess, NodeKey, byVersions, nodes)
      requires Tables(tracked, referencesTo, referencesBy, issues, issuesByNamespace)
      requires Keyed(before) && nodes == before - {entry.id}
      requires tracked == WithReferences(before) && IssuesExact(space, before, issues)
      modifies this`referencesTo, this`referencesBy, this`tracked, this`issues, this`issuesByNamespace
      ensures Tables(tracked, referencesTo, referencesBy, issues, issuesByNamespace)
      ensures tracked == WithReferences(nodes) && IssuesExact(space, nodes, issues)
    {
      var affected := Referrers(referencesTo, entry.id) - {entry.id};
      RemoveTracks(before, referencesTo, entry.id);
      RemoveIssues(space, before, referencesTo, issues, entry.id);
      AffectedKeyed(tracked, referencesTo, entry);
      DropEntity(entry);
      Refresh(affected);
    }

    /** `remove_entry` of a stored entry */
    method RemoveEntry(entry: NodeEntry)
      requires Valid() && IsStored(nodes, entry) && Unused(edges, entry.id)
      modifies this`byVersions, this`byKinds, this`byModels, this`nodes
      modifies this`referencesTo, this`referencesBy, this`tracked, this`issues, this`issuesByNamespace
      ensures Valid()
      ensures nodes == old(nodes) - {entry.id}
      ensures old(ModelsComplete(nodes, byModels)) ==> ModelsComplete(nodes, byModels)
    {
      RemoveKeepsGrounded(nodes, edges, entry.id);
      RemoveNode(entry);
    }

    /** `remove_entry` on the node indexes */
    method RemoveNode(entry: NodeEntry)
      requires NodesIndexed(nodes, byVersions, byKinds) && ModelsSound(nodes, byModels) && IsStored(nodes, entry)
      requires Tables(tracked, referencesTo, referencesBy, issues, issuesByNamespace) && HealthExact()
      modifies this`byVersions, this`byKinds, this`byModels, this`nodes
      modifies this`referencesTo, this`referencesBy, this`tracked, this`issues, this`issuesByNamespace
      ensures NodesIndexed(nodes, byVersions, byKinds) && ModelsSound(nodes, byModels)
      ensures nodes == old(nodes) - {entry.id}
      ensures Tables(tracked, referencesTo, referencesBy, issues, issuesByNamespace) && HealthExact()
      ensures old(ModelsComplete(nodes, byModels)) ==> ModelsComplete(nodes, byModels)
    {
      NodesAreKeyed(nodes, byVersions);
      DeleteEntry(entry);
      RefreshRemovedNode(entry, old(nodes));
    }

    /** `hydrate`: install a model, upgrading a bare key of the same identity. */
    method Hydrate(entry: NodeEntry) returns (r: Result<NodeEntry, RegistryError>)
      requires Valid()
      modifies this`byVersions, this`byKinds, this`byModels, this`nodes
      modifies this`referencesTo, this`referencesBy, this`tracked, this`issues, this`issuesByNamespace
      ensures Valid()
      ensures r == Hydrated(old(nodes), entry)
      ensures nodes == if r.Ok? then old(nodes)[entry.id := r.value] else old(nodes)
      ensures r.Ok? <==> entry.Model? && (old(ModelAt(nodes, entry.id)) ==> old(nodes)[entry.id].fields == entry.fields)
      ensures r.Ok? ==> r.value == if old(ModelAt(nodes, entry.id)) then old(nodes)[entry.id] else entry
      ensures r.Err? ==> r == Err(if entry.KeyOnly? then NotAModel else FieldConflict)
      ensures r.Err? || old(ModelAt(nodes, entry.id)) ==> unchanged(this)
    {
      if !entry.Model? { return Err(NotAModel); }
      var existing := FindEntry(entry.id);
      if existing.None? {
        r := Store(entry);
      } else if existing.value.Model? {
        r := Reconcile(entry);
      } else {
        NodesAreKeyed(nodes, byVersions);
        Upgrade(existing.value, entry);
        r := Ok(entry);
      }
    }

    /** Replace a bare key by its model. */
    method Upgrade(existing: NodeEntry, entry: NodeEntry)
      requires Valid() && IsStored(nodes, existing) && existing.KeyOnly? && entry.id == existing.id
      modifies this`byVersions, this`byKinds, this`byModels, this`nodes
      modifies this`referencesTo, this`referencesBy, this`tracked, this`issues, this`issuesByNamespace
      ensures Valid()
      ensures nodes == old(nodes)[entry.id := entry]
    {
      KeysAreUnused(nodes, edges, entry.id);
      Overwrite(nodes, entry);
      RemoveEntry(existing);
      StoreAbsent(entry);
    }

    /** `reconcile`: the stored entry wins unless the models disagree on their fields. */
    method Reconcile(entry: NodeEntry) returns (r: Result<NodeEntry, RegistryError>)
      requires Valid()
      modifies this`byVersions, this`byKinds, this`byModels, this`nodes
      modifies this`referencesTo, this`referencesBy, this`tracked, this`issues, this`issuesByNamespace
      ensures Valid()
      ensures r == Reconciled(old(nodes), entry)
      ensures nodes == if r.Ok? then old(nodes)[entry.id := r.value] else old(nodes)
      ensures r.Ok? <==> entry.KeyOnly? || entry.id !in old(nodes)
                         || (old(nodes)[entry.id].Model? && old(nodes)[entry.id].fields == entry.fields)
      ensures r.Ok? ==> r.value == if entry.id in old(nodes) then old(nodes)[entry.id] else entry
      ensures r.Err? ==> r == Err(if old(nodes)[entry.id].KeyOnly? then HydrateInstead else FieldConflict)
      ensures r.Err? || entry.id in old(nodes) ==> unchanged(this)
    {
      var existing := FindEntry(entry.id);
      if existing.None? {
        r := Store(entry);
      } else if !existing.value.Model? && entry.Model? {
        r := Err(HydrateInstead);
      } else {
        var resolved := ReconcileNodes(entry, existing.value);
        if resolved.Err? { return Err(FieldConflict); }
        if resolved.value != existing.value {
          assert false;
        }
        assert nodes == old(nodes)[entry.id := existing.value];
        r := Ok(existing.value);
      }
    }

    /** `migrations_of`: the executable edges touching a node */
    method MigrationsOf(id: NodeId) returns (r: set<EdgeId>)
      requires EdgesIndexed(edges, migrations, edgesByVersion)
      ensures r == set e | e in edges && Executable(edges[e]) && Touches(e, id)
    {
      var bucket := TouchBucket(edgesByVersion, id);
      assert bucket == EdgesTouching(edges, id);
      return set e | e in bucket && Executable(bucket[e]);
    }

    /** The checks of `remove_model` */
    method CheckRemovable(id: NodeId) returns (r: Result<NodeEntry, RegistryError>)
      requires Lists(NodeLess, NodeKey, byVersions, nodes) && EdgesIndexed(edges, migrations, edgesByVersion)
      ensures r == Removable(nodes, edges, id)
    {
      var existing := FindEntry(id);
      if existing.None? { return Err(NotRegistered); }
      var touching := MigrationsOf(id);
      UsedWhenTouched(edges, touching, id);
      return if touching != {} then Err(UsedByMigrations) else Ok(existing.value);
    }

    /** `remove_model`: only a node no migration touches can be removed. */
    method RemoveModel(id: NodeId) returns (r: Result<NodeEntry, RegistryError>)
      requires Valid()
      modifies this`byVersions, this`byKinds, this`byModels, this`nodes
      modifies this`referencesTo, this`referencesBy, this`tracked, this`issues, this`issuesByNamespace
      ensures Valid()
      ensures r == Removable(old(nodes), old(edges), id)
      ensures nodes == if r.Ok? then old(nodes) - {id} else old(nodes)
    {
      r := CheckRemovable(id);
      if r.Ok? {
        NodesAreKeyed(nodes, byVersions);
        RemoveEntry(r.value);
      }
    }

    // ---- edges ----

    /** Insert into the sorted list of its kind, its endpoints' buckets and the digest index. */
    method InsertEdgeEntry(edge: EdgeEntry)
      requires EdgesIndexed(edges, migrations, edgesByVersion) && edge.id !in edges
      modifies this`migrations, this`edgesByVersion, this`digestIndex, this`edges
      ensures EdgesIndexed(edges, migrations, edgesByVersion)
      ensures edges == old(edges)[edge.id := edge]
      ensures old(Digests()) ==> (Digests() <==> NoClash(indexDigests, digestOf, old(edges), edge))
    {
      EdgesInsert(edges, migrations, edgesByVersion, edge);
      if Digests() {
        DigestsInsert(indexDigests, digestOf, edges, digestIndex, edge);
      }
      var kind := edge.id.source.kind;
      migrations := migrations[kind := InsertEdge(Collections.Bucket(migrations, kind), edge)];
      edgesByVersion := Touch(Touch(edgesByVersion, edge.id.source, edge), edge.id.target, edge);
      if Executable(edge) && indexDigests {
        digestIndex := digestIndex[digestOf(edge) := edge.id];
      }
      edges := edges[edge.id := edge];
    }

    /**
     Delete from the sorted list of its kind, its endpoints' buckets and the digest index,
     keeping the emptied list.
     */
    method DeleteEdgeEntry(edge: EdgeEntry)
      requires EdgesIndexed(edges, migrations, edgesByVersion) && edge.id in edges && edges[edge.id] == edge
      modifies this`migrations, this`edgesByVersion, this`digestIndex, this`edges
      ensures EdgesIndexed(edges, migrations, edgesByVersion) && (old(Digests()) ==> Digests())
      ensures edges == old(edges) - {edge.id}
    {
      ForgetDigest(edge);
      UnlistEdge(edge.id);
      edges := edges - {edge.id};
    }

    method UnlistEdge(id: EdgeId)
      requires EdgesIndexed(edges, migrations, edgesByVersion)
      modifies this`migrations, this`edgesByVersion
      ensures EdgesIndexed(edges - {id}, migrations, edgesByVersion)
    {
      EdgesDelete(edges, migrations, edgesByVersion, id);
      var kind := id.source.kind;
      migrations := migrations[kind := DeleteEdge(Collections.Bucket(migrations, kind), id)];
      edgesByVersion := Untouch(Untouch(edgesByVersion, id.source, id), id.target, id);
    }

    method ForgetDigest(edge: EdgeEntry)
      requires EdgesKeyed(edges) && edge.id in edges && edges[edge.id] == edge
      modifies this`digestIndex
      ensures old(Digests()) ==> DigestsExact(indexDigests, digestOf, edges - {edge.id}, digestIndex)
    {
      if Digests() {
        DigestsDelete(indexDigests, digestOf, edges, digestIndex, edge);
      }
      if indexDigests && Executable(edge) {
        digestIndex := digestIndex - {digestOf(edge)};
      }
    }

    /** `_get_edge_identity` */
    method FindEdge(id: EdgeId) returns (r: Option<EdgeEntry>)
      requires EdgesIndexed(edges, migrations, edgesByVersion)
      ensures r == if id in edges then Some(edges[id]) else None
    {
      FindEdgeExact(edges, migrations, edgesByVersion, id);
      return FindEdgeEntry(Collections.Bucket(migrations, id.source.kind), id);
    }

    /** Insert an edge in place of a key-only one of the same identity, then refresh its endpoints. */
    method InstallEdge(edge: EdgeEntry)
      requires Indexed() && Installs(edges, edge)
      modifies this`migrations, this`edgesByVersion, this`digestIndex, this`edges
      modifies this`referencesTo, this`referencesBy, this`tracked, this`issues, this`issuesByNamespace
      ensures Indexed() && edges == old(edges)[edge.id := edge]
      ensures old(Digests()) ==> (Digests() <==> NoClash(indexDigests, digestOf, old(edges), edge))
      ensures tracked == Overlay(old(tracked), Endpoints(edge))
      ensures issues == Relint(old(issues), space, nodes.Keys, Endpoints(edge))
    {
      PutEdge(edge);
      Refresh(Endpoints(edge));
    }

    method PutEdge(edge: EdgeEntry)
      requires EdgesIndexed(edges, migrations, edgesByVersion)
      modifies this`migrations, this`edgesByVersion, this`digestIndex, this`edges
      ensures EdgesIndexed(edges, migrations, edgesByVersion)
      ensures edges == old(edges)[edge.id := edge]
      ensures old(Digests()) ==> (Digests() <==> NoClash(indexDigests, digestOf, old(edges), edge))
    {
      OverwriteEdge(edges, edge);
      NoClashIgnoresSelf(indexDigests, digestOf, edges, edge);
      var existing := FindEdge(edge.id);
      if existing.Some? {
        EdgeIsKeyed(edges, edge.id);
        DeleteEdgeEntry(existing.value);
      }
      InsertEdgeEntry(edge);
    }

    /** The checks of `store_migration` on a direct edge entry. */
    method CheckEdge(edge: EdgeEntry) returns (r: Result<EdgeEntry, RegistryError>, installs: bool)
      requires Lists(NodeLess, NodeKey, byVersions, nodes) && EdgesIndexed(edges, migrations, edgesByVersion)
      ensures r == StoredEdge(digestOf, nodes, edges, edge) && installs == (r.Ok? && Installs(edges, edge))
    {
      if Executable(edge) {
        var source := HasModel(edge.id.source);
        var target := HasModel(edge.id.target);
        if !source || !target { return Err(MigrationMissing), false; }
      }
      var existing := FindEdge(edge.id);
      if existing.None? || (Executable(edge) && !Executable(existing.value)) { return Ok(edge), true; }
      if Executable(existing.value) && Executable(edge) && digestOf(existing.value) != digestOf(edge) {
        return Err(MigrationConflict), false;
      }
      return Ok(existing.value), false;
    }

    /** `store_migration` of a direct edge entry */
    method StoreEdge(edge: EdgeEntry) returns (r: Result<EdgeEntry, RegistryError>)
      requires Indexed()
      modifies this`migrations, this`edgesByVersion, this`digestIndex, this`edges
      modifies this`referencesTo, this`referencesBy, this`tracked, this`issues, this`issuesByNamespace
      ensures Indexed()
      ensures old(Digests()) ==> (Digests() <==> StaysClear(indexDigests, digestOf, old(edges), r))
      ensures r == StoredEdge(digestOf, nodes, old(edges), edge)
      ensures r.Ok? <==> EdgeFits(digestOf, nodes, old(edges), edge)
      ensures r.Ok? ==> r.value == if Replaces(old(edges), edge) then edge else old(edges)[edge.id]
      ensures edges == if r.Ok? then old(edges)[edge.id := r.value] else old(edges)
      ensures r.Err? || !Replaces(old(edges), edge) ==> unchanged(this)
      ensures tracked == if r.Ok? && Installs(old(edges), edge)
                         then Overlay(old(tracked), Endpoints(edge)) else old(tracked)
      ensures issues == if r.Ok? && Installs(old(edges), edge)
                        then Relint(old(issues), space, nodes.Keys, Endpoints(edge)) else old(issues)
    {
      var installs;
      r, installs := CheckEdge(edge);
      if installs {
        InstallEdge(edge);
      } else {
        assert r.Ok? ==> edges[edge.id := r.value] == edges;
      }
    }

    /** `is_adjacent` of two stored nodes of one kind */
    method IsAdjacent(a: NodeId, b: NodeId) returns (adjacent: bool)
      requires KindsIndexed(nodes, byKinds) && a in nodes && b in nodes && a.kind == b.kind
      ensures adjacent <==> Neighbours(nodes, a, b)
    {
      var versions := Collections.Bucket(byKinds, a.kind);
      AdjacentExact(versions, OfKind(nodes, a.kind), a, b);
      assert forall c :: c in OfKind(nodes, a.kind) <==> c in nodes && c.kind == a.kind;
      var i, j := PositionOf(versions, a), PositionOf(versions, b);
      return i == j + 1 || j == i + 1;
    }

    /** `find_model` */
    method FindModel(id: NodeId) returns (r: Option<NodeEntry>)
      requires Lists(NodeLess, NodeKey, byVersions, nodes)
      ensures r == if ModelAt(nodes, id) then Some(nodes[id]) else None
    {
      r := FindEntry(id);
      if r.Some? && r.value.KeyOnly? { r := None; }
    }

    /** Find both endpoints of a migration, reconstructing one missing model when that is enabled. */
    method ResolveEndpoints(a: NodeId, b: NodeId, reconstruct: bool, reflect: (NodeEntry, NodeId) -> NodeEntry)
      returns (r: Result<(NodeEntry, NodeEntry), RegistryError>)
      requires Valid() && Reflects(reflect)
      modifies this`byVersions, this`byKinds, this`byModels, this`nodes
      modifies this`referencesTo, this`referencesBy, this`tracked, this`issues, this`issuesByNamespace
      ensures Valid()
      ensures nodes == Reconstructed(old(nodes), reconstruct, reflect, a, b).0
      ensures nodes == old(nodes) ==> unchanged(this)
      ensures r.Ok? ==> ModelAt(nodes, a) && ModelAt(nodes, b) && r.value == (nodes[a], nodes[b])
      ensures r.Ok? <==> Reconstructed(old(nodes), reconstruct, reflect, a, b).1.None?
      ensures r.Err? ==> Reconstructed(old(nodes), reconstruct, reflect, a, b).1 == Some(r.error)
    {
      var source := FindModel(a);
      var target := FindModel(b);
      if source.Some? && target.Some? { return Ok((source.value, target.value)); }
      if (source.None? && target.None?) || !reconstruct { return Err(NotRegistered); }
      var missing := if source.None? then a else b;
      var reflected := reflect(if source.None? then target.value else source.value, missing);
      var stored := Store(reflected);
      if stored.Err? { return Err(stored.error); }
      return if source.None? then Ok((reflected, target.value)) else Ok((source.value, reflected));
    }

    /** Storing an edge between stored models leaves the whole registry exact. */
    method StoreGroundedEdge(edge: EdgeEntry) returns (r: Result<EdgeEntry, RegistryError>)
      requires Valid() && Executable(edge) && Grounded(nodes, edge)
      modifies this`migrations, this`edgesByVersion, this`digestIndex, this`edges
      modifies this`referencesTo, this`referencesBy, this`tracked, this`issues, this`issuesByNamespace
      ensures Valid()
      ensures old(Digests()) ==> (Digests() <==> StaysClear(indexDigests, digestOf, old(edges), r))
      ensures r == StoredEdge(digestOf, nodes, old(edges), edge)
      ensures edges == if r.Ok? then old(edges)[edge.id := r.value] else old(edges)
      ensures r.Err? || !Replaces(old(edges), edge) ==> unchanged(this)
    {
      NodesAreKeyed(nodes, byVersions);
      GroundedIsHarmless(nodes, edge);
      RefreshKeepsExact(space, nodes, issues, Endpoints(edge));
      StoreKeepsEdgesGrounded(nodes, edges, edge);
      r := StoreEdge(edge);
    }

    /** `store_migration` of a registration request */
    method StoreMigration(spec: Spec) returns (r: Result<EdgeEntry, RegistryError>)
      requires Valid() && Reflects(spec.reflect)
      modifies this`byVersions, this`byKinds, this`byModels, this`nodes
      modifies this`migrations, this`edgesByVersion, this`digestIndex, this`edges
      modifies this`referencesTo, this`referencesBy, this`tracked, this`issues, this`issuesByNamespace
      ensures Valid()
      ensures old(Digests()) ==> (Digests() <==> StaysClear(indexDigests, digestOf, old(edges), r))
      ensures nodes == SpecNodes(old(nodes), spec)
      ensures r == SpecOutcome(digestOf, nodes, old(nodes), old(edges), spec)
      ensures edges == if r.Ok? then old(edges)[SpecId(spec) := r.value] else old(edges)
      ensures nodes == old(nodes) && (r.Err? || HasMigration(old(edges), spec)) ==> unchanged(this)
    {
      if spec.source.kind != spec.target.kind { return Err(AcrossKinds); }
      var endpoints := ResolveEndpoints(spec.source, spec.target, spec.reconstruct, spec.reflect);
      if endpoints.Err? { return Err(endpoints.error); }
      r := StoreResolved(spec, endpoints.value.0, endpoints.value.1);
    }

    /** The rest of `store_migration` once both endpoint models are at hand */
    method StoreResolved(spec: Spec, source: NodeEntry, target: NodeEntry) returns (r: Result<EdgeEntry, RegistryError>)
      requires Valid() && spec.source.kind == spec.target.kind && ModelAt(nodes, spec.source)
      requires ModelAt(nodes, spec.target)
      requires source == nodes[spec.source] && target == nodes[spec.target]
      modifies this`migrations, this`edgesByVersion, this`digestIndex, this`edges
      modifies this`referencesTo, this`referencesBy, this`tracked, this`issues, this`issuesByNamespace
      ensures Valid()
      ensures old(Digests()) ==> (Digests() <==> StaysClear(indexDigests, digestOf, old(edges), r))
      ensures r == ResolvedOutcome(digestOf, nodes, old(edges), spec)
      ensures edges == if r.Ok? then old(edges)[SpecId(spec) := r.value] else old(edges)
      ensures r.Err? || HasMigration(old(edges), spec) ==> unchanged(this)
    {
      NodesAreKeyed(nodes, byVersions);
      if spec.source.space != spec.target.space { return Err(InvalidEdge); }
      var adjacent := IsAdjacent(spec.source, spec.target);
      if !adjacent { return Err(NotAdjacent); }
      if spec.discriminator == "" { return Err(InvalidEdge); }
      r := StoreGroundedEdge(EdgeEntry(SpecId(spec), source, target, Some(spec.content(source, target))));
    }

    /** `remove_migration` */
    method RemoveMigration(key: EdgeEntry) returns (r: Result<(), RegistryError>)
      requires Indexed()
      modifies this`migrations, this`edgesByVersion, this`digestIndex, this`edges
      modifies this`referencesTo, this`referencesBy, this`tracked, this`issues, this`issuesByNamespace
      ensures Indexed()
      ensures old(Digests()) ==> Digests()
      ensures r == if key.id in hooks then Err(HooksRegistered) else Ok(())
      ensures edges == if r.Ok? then old(edges) - {key.id} else old(edges)
      ensures tracked == if r.Ok? then Overlay(old(tracked), Endpoints(Resolved(old(edges), key))) else old(tracked)
      ensures issues == if r.Ok? then Relint(old(issues), space, nodes.Keys, Endpoints(Resolved(old(edges), key)))
                        else old(issues)
    {
      if key.id in hooks { return Err(HooksRegistered); }
      RemoveUnhooked(key);
      return Ok(());
    }

    /** `remove_migration` once the hooks are out of the way */
    method RemoveUnhooked(key: EdgeEntry)
      requires Indexed()
      modifies this`migrations, this`edgesByVersion, this`digestIndex, this`edges
      modifies this`referencesTo, this`referencesBy, this`tracked, this`issues, this`issuesByNamespace
      ensures Indexed() && edges == old(edges) - {key.id}
      ensures old(Digests()) ==> Digests()
      ensures tracked == Overlay(old(tracked), Endpoints(Resolved(old(edges), key)))
      ensures issues == Relint(old(issues), space, nodes.Keys, Endpoints(Resolved(old(edges), key)))
    {
      var resolved := WithdrawEdge(key);
      Refresh(Endpoints(resolved));
    }

    /** Delete the stored edge of the key's identity, when there is one. */
    method WithdrawEdge(key: EdgeEntry) returns (resolved: EdgeEntry)
      requires EdgesIndexed(edges, migrations, edgesByVersion)
      modifies this`migrations, this`edgesByVersion, this`digestIndex, this`edges
      ensures EdgesIndexed(edges, migrations, edgesByVersion) && (old(Digests()) ==> Digests())
      ensures edges == old(edges) - {key.id} && resolved == Resolved(old(edges), key)
    {
      var existing := FindEdge(key.id);
      if existing.None? {
        assert edges - {key.id} == edges;
        return key;
      }
      EdgeIsKeyed(edges, key.id);
      DeleteEdgeEntry(existing.value);
      DropEmptyKind(key.id.source.kind);
      return existing.value;
    }

    /** Forget a kind whose last edge was deleted. */
    method DropEmptyKind(kind: string)
      requires EdgesIndexed(edges, migrations, edgesByVersion)
      modifies this`migrations
      ensures EdgesIndexed(edges, migrations, edgesByVersion)
    {
      if Collections.Bucket(migrations, kind) == [] {
        EmptyKindDropped(edges, migrations, edgesByVersion, kind);
        migrations := migrations - {kind};
      }
    }

    /** Clear the hooks of a stored migration, then remove it. */
    method RemoveWithHooks(edge: EdgeEntry)
      requires Valid() && edge.id in edges && edges[edge.id] == edge && Executable(edge)
      modifies this`migrations, this`edgesByVersion, this`digestIndex, this`edges, this`hooks
      modifies this`referencesTo, this`referencesBy, this`tracked, this`issues, this`issuesByNamespace
      ensures Valid() && edges == old(edges) - {edge.id} && hooks == old(hooks) - {edge.id}
      ensures old(Digests()) ==> Digests()
    {
      if edge.id in hooks {
        hooks := hooks - {edge.id};
      }
      NothingToClear(old(hooks), edge.id);
      RemoveGroundedEdge(edge);
    }

    /** Removing a stored migration leaves the whole registry exact. */
    method RemoveGroundedEdge(edge: EdgeEntry)
      requires Valid() && edge.id in edges && edges[edge.id] == edge && Executable(edge) && edge.id !in hooks
      modifies this`migrations, this`edgesByVersion, this`digestIndex, this`edges
      modifies this`referencesTo, this`referencesBy, this`tracked, this`issues, this`issuesByNamespace
      ensures Valid() && edges == old(edges) - {edge.id}
      ensures old(Digests()) ==> Digests()
    {
      NodesAreKeyed(nodes, byVersions);
      assert Grounded(nodes, edge);
      GroundedIsHarmless(nodes, edge);
      RefreshKeepsExact(space, nodes, issues, Endpoints(edge));
      RemoveKeepsEdgesGrounded(nodes, edges, {edge.id});
      var r := RemoveMigration(edge);
    }

    /** Remove the given migrations one at a time. */
    method RemoveAll(ids: set<EdgeId>)
      requires Valid() && forall e :: e in ids ==> e in edges && Executable(edges[e])
      modifies this`migrations, this`edgesByVersion, this`digestIndex, this`edges, this`hooks
      modifies this`referencesTo, this`referencesBy, this`tracked, this`issues, this`issuesByNamespace
      ensures Valid() && edges == old(edges) - ids && hooks == old(hooks) - ids
      ensures old(Digests()) ==> Digests()
    {
      var left := ids;
      while left != {}
        invariant Valid() && left <= ids && (old(Digests()) ==> Digests())
        invariant edges == old(edges) - (ids - left) && hooks == old(hooks) - (ids - left)
        decreases left
      {
        var e :| e in left;
        assert e in edges && edges[e] == old(edges)[e];
        OneMoreRemoved(old(edges), old(hooks), ids, left, e);
        RemoveById(e);
        left := left - {e};
      }
      assert ids - left == ids;
    }

    method RemoveById(id: EdgeId)
      requires Valid() && id in edges && Executable(edges[id])
      modifies this`migrations, this`edgesByVersion, this`digestIndex, this`edges, this`hooks
      modifies this`referencesTo, this`referencesBy, this`tracked, this`issues, this`issuesByNamespace
      ensures Valid() && edges == old(edges) - {id} && hooks == old(hooks) - {id}
      ensures old(Digests()) ==> Digests()
    {
      EdgeIsKeyed(edges, id);
      var edge := FindEdge(id);
      RemoveWithHooks(edge.value);
    }

    /** `kind_versions`: the models of a kind, in version order */
    method KindVersions(kind: string) returns (r: seq<NodeEntry>)
      requires KindsIndexed(nodes, byKinds)
      ensures Ids(r) == ModelsOfKind(nodes, kind) && Lists(NodeLess, NodeKey, r, OnlyModels(OfKind(nodes, kind)))
    {
      var entries := Collections.Bucket(byKinds, kind);
      FilterLists(NodeLess, NodeKey, entries, OfKind(nodes, kind), IsModel(), OnlyModels(OfKind(nodes, kind)));
      r := Filter(entries, IsModel());
      ListedIds(r, OnlyModels(OfKind(nodes, kind)));
      assert ModelsOfKind(nodes, kind) == OnlyModels(OfKind(nodes, kind)).Keys;
    }

    /** The cross-kind check of `delete_kind`, which never fails. */
    method CheckClosed(versions: seq<NodeEntry>, ghost kind: string) returns (closed: bool)
      requires EdgesIndexed(edges, migrations, edgesByVersion) && EdgesGrounded(nodes, edges)
      requires Ids(versions) == ModelsOfKind(nodes, kind)
      ensures closed
    {
      var ids := Ids(versions);
      closed := true;
      for i := 0 to |versions|
        invariant closed
      {
        var touching := MigrationsOf(versions[i].id);
        assert versions[i].id in ids;
        TouchingStaysInKind(nodes, edges, kind, versions[i].id);
        closed := closed && forall e | e in touching :: e.source in ids && e.target in ids;
      }
    }

    /** Remove every migration of the given versions, version by version. */
    method RemoveMigrationsOf(versions: seq<NodeEntry>)
      requires Valid()
      modifies this`migrations, this`edgesByVersion, this`digestIndex, this`edges, this`hooks
      modifies this`referencesTo, this`referencesBy, this`tracked, this`issues, this`issuesByNamespace
      ensures Valid()
      ensures old(Digests()) ==> Digests()
      ensures edges == old(edges) - TouchedBy(old(edges), Ids(versions))
      ensures hooks == old(hooks) - TouchedBy(old(edges), Ids(versions))
    {
      TouchedByNone(edges, hooks);
      for i := 0 to |versions|
        invariant Valid() && (old(Digests()) ==> Digests())
        invariant edges == old(edges) - TouchedBy(old(edges), Ids(versions[..i]))
        invariant hooks == old(hooks) - TouchedBy(old(edges), Ids(versions[..i]))
      {
        TouchedByOneMore(old(edges), old(hooks), Ids(versions[..i]), versions[i].id);
        assert Ids(versions[..i + 1]) == Ids(versions[..i]) + {versions[i].id};
        var touching := MigrationsOf(versions[i].id);
        RemoveAll(touching);
      }
      assert versions[..|versions|] == versions;
    }

    /** Remove the given unused models, last first. */
    method RemoveModels(versions: seq<NodeEntry>)
      requires Valid() && forall id :: id in Ids(versions) ==> Unused(edges, id)
      modifies this`byVersions, this`byKinds, this`byModels, this`nodes
      modifies this`referencesTo, this`referencesBy, this`tracked, this`issues, this`issuesByNamespace
      ensures Valid() && nodes == old(nodes) - Ids(versions)
    {
      var i := |versions|;
      assert versions[i..] == [];
      while i > 0
        invariant 0 <= i <= |versions| && Valid() && nodes == old(nodes) - Ids(versions[i..])
      {
        i := i - 1;
        OneMoreDropped(old(nodes), versions, i);
        var r := RemoveModel(versions[i].id);
      }
      assert versions[0..] == versions;
    }

    /**
     `delete_kind`: the kind's models, the migrations between them and the hooks of those are
     gone, and nothing else.
     */
    method DeleteKind(kind: string)
      requires Valid()
      modifies this
      ensures Valid()
      ensures old(Digests()) ==> Digests()
      ensures nodes == old(nodes) - ModelsOfKind(old(nodes), kind)
      ensures edges == old(edges) - MigrationsOfKind(old(edges), kind)
      ensures hooks == old(hooks) - MigrationsOfKind(old(edges), kind)
    {
      var versions := KindVersions(kind);
      TouchedIsKind(nodes, edges, kind);
      var closed := CheckClosed(versions, kind);
      if !closed {
        assert false;
      }
      TouchedAreUnused(edges, Ids(versions));
      RemoveMigrationsOf(versions);
      RemoveModels(versions);
    }
  }
}
