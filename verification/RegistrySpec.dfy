/**
 What the registry's operations answer and leave, as functions of its abstract contents,
 and the laws its incremental indexes rest on.
 */
module RegistrySpec {
  import opened Wrappers
  import opened Collections
  import opened Sorting
  import opened SortedLists
  import opened Identity
  import opened Health
  import opened RegistryIndex

  datatype RegistryError =
    | AlreadyRegistered
    | NotRegistered
    | NotAModel
    | HydrateInstead
    | FieldConflict
    | UsedByMigrations
    | AcrossKinds
    | NotAdjacent
    | MigrationConflict
    | MigrationMissing
    | HooksRegistered
    | InvalidEdge
    | CriticalMigration
    | NoHooks
    | UnknownHook

  /** The nodes that carry references: what the reference index tracks. */
  function WithReferences(nodes: Nodes): Nodes {
    map id | id in nodes && References(nodes[id]) != {} :: nodes[id]
  }

  /** Identities are keyed consistently. */
  ghost predicate Keyed(nodes: Nodes) {
    forall id :: id in nodes ==> nodes[id].id == id
  }

  /** What refreshing `entities` leaves in the reference index. */
  function Overlay(tracked: Nodes, entities: Nodes): Nodes {
    map id | id in tracked.Keys + entities.Keys && (id in entities ==> References(entities[id]) != {})
      :: if id in entities then entities[id] else tracked[id]
  }

  /** What refreshing `entities` leaves in the issue table. */
  function Relint(issues: map<NodeId, set<Issue>>, space: string, stored: set<NodeId>, entities: Nodes)
    : map<NodeId, set<Issue>>
  {
    map id | id in issues.Keys + entities.Keys && (id in entities ==> Missing(space, stored, entities[id]) != {})
      :: if id in entities then Missing(space, stored, entities[id]) else issues[id]
  }

  /** Models found by reference are stored models with that reference. */
  ghost predicate ModelsSound(nodes: Nodes, byModels: map<ModelRef, NodeEntry>) {
    forall ref :: ref in byModels ==> byModels[ref].Model? && byModels[ref].ref == ref
                                      && byModels[ref].id in nodes && nodes[byModels[ref].id] == byModels[ref]
  }

  /** Edges join nodes of one kind; an executable edge holds the stored models it joins. */
  ghost predicate EdgesGrounded(nodes: Nodes, edges: Edges) {
    forall id :: id in edges ==> Grounded(nodes, edges[id])
  }

  ghost predicate Grounded(nodes: Nodes, e: EdgeEntry) {
    && ValidEdge(e.id) && e.source.id == e.id.source && e.target.id == e.id.target
    && (Executable(e) ==> IsStoredModel(nodes, e.source) && IsStoredModel(nodes, e.target))
  }

  ghost predicate IsStored(nodes: Nodes, n: NodeEntry) {
    n.id in nodes && nodes[n.id] == n
  }

  predicate IsStoredModel(nodes: Nodes, n: NodeEntry) {
    n.Model? && n.id in nodes && nodes[n.id] == n
  }

  /** The tracked references are the stored ones and the issues are as recomputed from scratch. */
  ghost predicate ExactHealth(space: string, nodes: Nodes, tracked: Nodes, issues: map<NodeId, set<Issue>>) {
    tracked == WithReferences(nodes) && IssuesExact(space, nodes, issues)
  }

  /** The reference and issue tables are consistent with what they track. */
  ghost predicate Tables(tracked: Nodes, to: RefTable, refs: map<NodeId, set<NodeId>>, issues: map<NodeId, set<Issue>>,
          spaces: map<string, set<NodeId>>)
  {
    && Keyed(tracked) && Inverse(tracked, to) && Forward(tracked, refs)
    && (forall id :: id in tracked ==> References(tracked[id]) != {})
    && NamespacesExact(issues, spaces) && forall id :: id in issues ==> issues[id] != {}
  }

  // ---- the effect of a node change on the incremental indexes ----

  lemma {:induction false} StoreTracks(nodes: Nodes, to: RefTable, entry: NodeEntry)
    requires Keyed(nodes) && Inverse(WithReferences(nodes), to) && entry.id !in nodes
    ensures Overlay(WithReferences(nodes), Referrers(to, entry.id)[entry.id := entry])
              == WithReferences(nodes[entry.id := entry])
  {
    assert Referrers(to, entry.id) == Referencing(WithReferences(nodes), entry.id);
  }

  lemma {:induction false} StoreIssues(space: string, nodes: Nodes, to: RefTable, issues: map<NodeId, set<Issue>>,
          entry: NodeEntry)
    requires Keyed(nodes) && Inverse(WithReferences(nodes), to) && entry.id !in nodes
    requires IssuesExact(space, nodes, issues)
    ensures IssuesExact(space, nodes[entry.id := entry],
              Relint(issues, space, nodes[entry.id := entry].Keys, Referrers(to, entry.id)[entry.id := entry]))
  {
    var after, affected := nodes[entry.id := entry], Referrers(to, entry.id)[entry.id := entry];
    var relinted := Relint(issues, space, after.Keys, affected);
    assert Referrers(to, entry.id) == Referencing(WithReferences(nodes), entry.id);
    assert after.Keys == nodes.Keys + {entry.id};
    forall id ensures IssuesOf(relinted, id) == Recomputed(space, after, id) {
      assert IssuesOf(issues, id) == Recomputed(space, nodes, id);
      if id in affected {
        assert affected[id] == after[id];
      } else if id in nodes {
        UnaffectedKeepsIssues(space, nodes.Keys, entry.id, nodes[id]);
      }
    }
  }

  lemma {:induction false} RemoveTracks(nodes: Nodes, to: RefTable, id: NodeId)
    requires Keyed(nodes) && Inverse(WithReferences(nodes), to)
    ensures Overlay(WithReferences(nodes) - {id}, Referrers(to, id) - {id}) == WithReferences(nodes - {id})
  {
    assert Referrers(to, id) == Referencing(WithReferences(nodes), id);
  }

  lemma {:induction false} RemoveIssues(space: string, nodes: Nodes, to: RefTable, issues: map<NodeId, set<Issue>>,
          id: NodeId)
    requires Keyed(nodes) && Inverse(WithReferences(nodes), to) && IssuesExact(space, nodes, issues)
    ensures IssuesExact(space, nodes - {id},
              Relint(issues - {id}, space, (nodes - {id}).Keys, Referrers(to, id) - {id}))
  {
    var after, affected := nodes - {id}, Referrers(to, id) - {id};
    var relinted := Relint(issues - {id}, space, after.Keys, affected);
    assert Referrers(to, id) == Referencing(WithReferences(nodes), id);
    assert after.Keys == nodes.Keys - {id};
    forall other ensures IssuesOf(relinted, other) == Recomputed(space, after, other) {
      assert IssuesOf(issues, other) == Recomputed(space, nodes, other);
      if other !in affected && other in after {
        UnaffectedKeepsIssues(space, nodes.Keys, id, nodes[other]);
      }
    }
  }

  /** Refreshing this object as if it were the stored one cannot be noticed. */
  ghost predicate Harmless(nodes: Nodes, entity: NodeEntry) {
    IsStored(nodes, entity) || (References(entity) == {} && (entity.id in nodes ==> References(nodes[entity.id]) == {}))
  }

  ghost predicate AllHarmless(nodes: Nodes, entities: Nodes) {
    forall id :: id in entities ==> Harmless(nodes, entities[id])
  }

  /** Exact indexes stay exact under a refresh if and only if every refreshed object is harmless. */
  lemma {:induction false} RefreshKeepsExact(space: string, nodes: Nodes, issues: map<NodeId, set<Issue>>,
          entities: Nodes)
    requires Keyed(nodes) && Keyed(entities) && IssuesExact(space, nodes, issues)
    ensures ExactHealth(space, nodes, Overlay(WithReferences(nodes), entities),
              Relint(issues, space, nodes.Keys, entities)) <==>
            AllHarmless(nodes, entities)
  {
    if AllHarmless(nodes, entities) {
      HarmlessTracks(nodes, entities);
      HarmlessIssues(space, nodes, issues, entities);
    } else {
      var id :| id in entities && !Harmless(nodes, entities[id]);
      HarmfulTracks(nodes, entities, id);
    }
  }

  lemma {:induction false} HarmlessTracks(nodes: Nodes, entities: Nodes)
    requires Keyed(nodes) && Keyed(entities) && AllHarmless(nodes, entities)
    ensures Overlay(WithReferences(nodes), entities) == WithReferences(nodes)
  {
    forall id | id in entities ensures entities[id].id == id && Harmless(nodes, entities[id]) {
    }
  }

  lemma {:induction false} HarmlessIssues(space: string, nodes: Nodes, issues: map<NodeId, set<Issue>>, entities: Nodes)
    requires Keyed(nodes) && Keyed(entities) && IssuesExact(space, nodes, issues) && AllHarmless(nodes, entities)
    ensures IssuesExact(space, nodes, Relint(issues, space, nodes.Keys, entities))
  {
    var relinted := Relint(issues, space, nodes.Keys, entities);
    forall id ensures IssuesOf(relinted, id) == Recomputed(space, nodes, id) {
      assert IssuesOf(issues, id) == Recomputed(space, nodes, id);
      assert id in entities ==> entities[id].id == id && Harmless(nodes, entities[id]);
    }
  }

  lemma {:induction false} HarmfulTracks(nodes: Nodes, entities: Nodes, id: NodeId)
    requires Keyed(nodes) && Keyed(entities) && id in entities && !Harmless(nodes, entities[id])
    ensures Overlay(WithReferences(nodes), entities) != WithReferences(nodes)
  {
    var overlay := Overlay(WithReferences(nodes), entities);
    assert entities[id].id == id;
    if References(entities[id]) == {} {
      assert id in WithReferences(nodes) && id !in overlay;
    } else {
      assert id in overlay && overlay[id] == entities[id];
    }
  }

  /** Storing a key-only edge over a model that has references drops those references from the index. */
  lemma {:induction false} BareEndpointLosesReferences()
    ensures exists nodes: Nodes, edge: EdgeEntry, space: string, issues: map<NodeId, set<Issue>> ::
              && Keyed(nodes) && IssuesExact(space, nodes, issues) && !Executable(edge) && ValidEdge(edge.id)
              && Overlay(WithReferences(nodes), Endpoints(edge)) != WithReferences(nodes)
  {
    var a, b := NodeId("n", "k", 1.0), NodeId("n", "k", 2.0);
    var model := Model(a, ModelRef("p", "e"), {"f"}, {b});
    var edge := EdgeEntry(EdgeId(a, b, "default"), KeyOnly(a), KeyOnly(b), None);
    var nodes: Nodes := map[a := model, b := KeyOnly(b)];
    var issues: map<NodeId, set<Issue>> := map[];
    assert Missing("n", nodes.Keys, model) == {};
    assert IssuesExact("n", nodes, issues);
    assert Endpoints(edge)[a] == KeyOnly(a);
    assert b in References(model);
    HarmfulTracks(nodes, Endpoints(edge), a);
  }

  /** `_set_health` on the namespace table: the entity is re-filed under its namespace. */
  function Refile(spaces: map<string, set<NodeId>>, id: NodeId, ailing: bool): (after: map<string, set<NodeId>>)
    ensures forall space :: Affected(after, space) ==
              if space != id.space then Affected(spaces, space)
              else if ailing then Affected(spaces, space) + {id} else Affected(spaces, space) - {id}
    ensures (forall space :: space in spaces ==> spaces[space] != {}) ==>
              forall space :: space in after ==> after[space] != {}
  {
    var bucket := Affected(spaces, id.space) - {id};
    var without := if id.space !in spaces then spaces
        else if bucket == {} then spaces - {id.space} else spaces[id.space := bucket];
    if ailing then
      assert Affected(without, id.space) + {id} == Affected(spaces, id.space) + {id};
      without[id.space := Affected(without, id.space) + {id}]
    else without
  }

  /** The node objects an edge change refreshes; of equal endpoints the source is kept. */
  function Endpoints(e: EdgeEntry): (entities: Nodes)
    ensures forall id :: id in entities ==> entities[id].id == id
  {
    map[e.target.id := e.target][e.source.id := e.source]
  }

  /** The stored edge of that identity, or the key itself. */
  function Resolved(edges: Edges, key: EdgeEntry): EdgeEntry {
    if key.id in edges then edges[key.id] else key
  }

  predicate Installs(edges: Edges, edge: EdgeEntry) {
    edge.id !in edges || (Executable(edge) && !Executable(edges[edge.id]))
  }

  /** An edge that is installed has a digest not in use. */
  ghost predicate StaysClear(on: bool, digestOf: EdgeEntry -> string, edges: Edges, r: Result<EdgeEntry, RegistryError>)
  {
    r.Ok? && Installs(edges, r.value) ==> NoClash(on, digestOf, edges, r.value)
  }

  /** What storing a direct edge answers. */
  function StoredEdge(digestOf: EdgeEntry -> string, nodes: Nodes, edges: Edges, edge: EdgeEntry)
    : Result<EdgeEntry, RegistryError>
  {
    if Executable(edge) && (edge.id.source !in nodes || edge.id.target !in nodes) then Err(MigrationMissing)
    else if Installs(edges, edge) then Ok(edge)
    else if Executable(edge) && digestOf(edges[edge.id]) != digestOf(edge) then Err(MigrationConflict)
    else Ok(edges[edge.id])
  }

  /** No edge of the identity is stored, or a key-only one that gives way to a migration. */
  predicate Replaces(edges: Edges, edge: EdgeEntry) {
    edge.id !in edges || (edge.migration.Some? && edges[edge.id].migration.None?)
  }

  /** The endpoints of a migration are stored, and a stored migration of its identity has its digest. */
  predicate EdgeFits(digestOf: EdgeEntry -> string, nodes: Nodes, edges: Edges, edge: EdgeEntry) {
    edge.migration.Some? ==>
      && edge.id.source in nodes && edge.id.target in nodes
      && (edge.id in edges && edges[edge.id].migration.Some? ==> digestOf(edges[edge.id]) == digestOf(edge))
  }

  predicate ModelAt(nodes: Nodes, id: NodeId) {
    id in nodes && nodes[id].Model?
  }

  /** Reflection answers a model of the identity asked for. */
  ghost predicate Reflects(reflect: (NodeEntry, NodeId) -> NodeEntry) {
    forall anchor, id :: reflect(anchor, id).Model? && reflect(anchor, id).id == id
  }

  /** The nodes after resolving the endpoints of a migration, and the error if that fails. */
  function Reconstructed(nodes: Nodes, reconstruct: bool, reflect: (NodeEntry, NodeId) -> NodeEntry, a: NodeId,
          b: NodeId)
    : (Nodes, Option<RegistryError>)
  {
    if ModelAt(nodes, a) && ModelAt(nodes, b) then (nodes, None)
    else if (!ModelAt(nodes, a) && !ModelAt(nodes, b)) || !reconstruct then (nodes, Some(NotRegistered))
    else
      var (missing, anchor) := if ModelAt(nodes, b) then (a, nodes[b]) else (b, nodes[a]);
      if missing in nodes then (nodes, Some(AlreadyRegistered)) else (nodes[missing := reflect(anchor, missing)], None)
  }

  /** No stored node of the kind lies strictly between the two. */
  ghost predicate Neighbours(nodes: Nodes, a: NodeId, b: NodeId) {
    a != b && forall c :: c in nodes && c.kind == a.kind ==> !Between(a, c, b)
  }

  predicate Between(a: NodeId, c: NodeId, b: NodeId) {
    (NodeLess(a, c) && NodeLess(c, b)) || (NodeLess(b, c) && NodeLess(c, a))
  }

  function PositionOf(s: seq<NodeEntry>, id: NodeId): nat {
    Bisect(NodeLess, NodeKey, s, id)
  }

  /** Stored identities sit at their bisection points, so adjacent positions are neighbouring versions. */
  lemma {:induction false} AdjacentExact(s: seq<NodeEntry>, contents: Nodes, a: NodeId, b: NodeId)
    requires Lists(NodeLess, NodeKey, s, contents) && a in contents && b in contents
    ensures PositionOf(s, a) - PositionOf(s, b) == 1 || PositionOf(s, b) - PositionOf(s, a) == 1 <==>
            a != b && forall c :: c in contents ==> !Between(a, c, b)
  {
    PositionExact(s, contents, a);
    PositionExact(s, contents, b);
    var i, j := PositionOf(s, a), PositionOf(s, b);
    if i < j {
      NextExact(s, contents, a, b);
    } else if j < i {
      NextExact(s, contents, b, a);
    }
  }

  lemma {:induction false} PositionExact(s: seq<NodeEntry>, contents: Nodes, a: NodeId)
    requires Lists(NodeLess, NodeKey, s, contents) && a in contents
    ensures PositionOf(s, a) < |s| && s[PositionOf(s, a)] == contents[a] && contents[a].id == a
  {
    NodeOrder();
    assert NodeKey(contents[a]) == a;
    var m :| 0 <= m < |s| && s[m] == contents[a];
    BisectFinds(NodeLess, NodeKey, s, m);
  }

  lemma {:induction false} NextExact(s: seq<NodeEntry>, contents: Nodes, a: NodeId, b: NodeId)
    requires Lists(NodeLess, NodeKey, s, contents) && a in contents && b in contents
    requires PositionOf(s, a) < PositionOf(s, b)
    ensures PositionOf(s, b) - PositionOf(s, a) == 1 <==> forall c :: c in contents ==> !Between(a, c, b)
  {
    var i, j := PositionOf(s, a), PositionOf(s, b);
    PositionExact(s, contents, a);
    PositionExact(s, contents, b);
    if j - i > 1 {
      var c := s[i + 1];
      assert NodeLess(NodeKey(s[i]), NodeKey(c)) && NodeLess(NodeKey(c), NodeKey(s[j]));
      assert c in s && Between(a, c.id, b);
    } else {
      forall c | c in contents ensures !Between(a, c, b) {
        PositionExact(s, contents, c);
        NotBetween(s, i, PositionOf(s, c));
      }
    }
  }

  lemma {:induction false} NotBetween(s: seq<NodeEntry>, i: nat, k: nat)
    requires SortedBy(NodeLess, NodeKey, s) && i + 1 < |s| && k < |s|
    ensures !Between(s[i].id, s[k].id, s[i + 1].id)
  {
    NodeOrder();
    assert forall x: nat, y: nat :: x < y < |s| ==> NodeLess(NodeKey(s[x]), NodeKey(s[y]));
  }

  /** A migration registration request: its content is derived from the two endpoint models. */
  datatype Spec = Spec(
    source: NodeId,
    target: NodeId,
    discriminator: string,
    content: (NodeEntry, NodeEntry) -> string,
    reconstruct: bool,
    reflect: (NodeEntry, NodeId) -> NodeEntry
  )

  function SpecId(spec: Spec): EdgeId {
    EdgeId(spec.source, spec.target, spec.discriminator)
  }

  /** A migration of the request's identity is stored. */
  predicate HasMigration(edges: Edges, spec: Spec) {
    SpecId(spec) in edges && Executable(edges[SpecId(spec)])
  }

  /** The nodes a request leaves: a reconstructed endpoint stays even when the request then fails. */
  function SpecNodes(nodes: Nodes, spec: Spec): Nodes {
    if spec.source.kind != spec.target.kind then nodes
    else Reconstructed(nodes, spec.reconstruct, spec.reflect, spec.source, spec.target).0
  }

  /** What a request answers, `after` being the nodes it leaves. */
  ghost function SpecOutcome(digestOf: EdgeEntry -> string, after: Nodes, nodes: Nodes, edges: Edges, spec: Spec)
    : Result<EdgeEntry, RegistryError>
  {
    if spec.source.kind != spec.target.kind then Err(AcrossKinds)
    else
      var failure := Reconstructed(nodes, spec.reconstruct, spec.reflect, spec.source, spec.target).1;
      if failure.Some? then Err(failure.value) else ResolvedOutcome(digestOf, after, edges, spec)
  }

  ghost function ResolvedOutcome(digestOf: EdgeEntry -> string, nodes: Nodes, edges: Edges, spec: Spec)
    : Result<EdgeEntry, RegistryError>
  {
    if spec.source.space != spec.target.space then Err(InvalidEdge)
    else if !Neighbours(nodes, spec.source, spec.target) then Err(NotAdjacent)
    else if spec.discriminator == "" || spec.source !in nodes || spec.target !in nodes then Err(InvalidEdge)
    else
      var source, target := nodes[spec.source], nodes[spec.target];
      StoredEdge(digestOf, nodes, edges, EdgeEntry(SpecId(spec), source, target, Some(spec.content(source, target))))
  }

  lemma {:induction false} GroundedIsHarmless(nodes: Nodes, edge: EdgeEntry)
    requires Executable(edge) && Grounded(nodes, edge)
    ensures AllHarmless(nodes, Endpoints(edge)) && Keyed(Endpoints(edge))
  {
  }

  lemma {:induction false} StoreKeepsEdgesGrounded(nodes: Nodes, edges: Edges, edge: EdgeEntry)
    requires EdgesGrounded(nodes, edges) && Grounded(nodes, edge)
    ensures EdgesGrounded(nodes, edges[edge.id := edge])
  {
  }

  lemma {:induction false} RemoveKeepsEdgesGrounded(nodes: Nodes, edges: Edges, ids: set<EdgeId>)
    requires EdgesGrounded(nodes, edges)
    ensures EdgesGrounded(nodes, edges - ids)
  {
  }

  lemma {:induction false} NothingToClear<V>(hooks: map<EdgeId, V>, id: EdgeId)
    ensures id !in hooks ==> hooks - {id} == hooks
  {
  }

  lemma {:induction false} OneMoreRemoved<V>(edges: Edges, hooks: map<EdgeId, V>, ids: set<EdgeId>, left: set<EdgeId>,
          e: EdgeId)
    requires left <= ids && e in left
    ensures edges - (ids - left) - {e} == edges - (ids - (left - {e}))
    ensures hooks - (ids - left) - {e} == hooks - (ids - (left - {e}))
  {
  }

  function Ids(s: seq<NodeEntry>): set<NodeId> {
    set n | n in s :: n.id
  }

  function OnlyModels(nodes: Nodes): Nodes {
    map id | id in nodes && nodes[id].Model? :: nodes[id]
  }

  function ModelsOfKind(nodes: Nodes, kind: string): set<NodeId> {
    set id | id in nodes && id.kind == kind && nodes[id].Model?
  }

  /** The executable edges between nodes of a kind. */
  function MigrationsOfKind(edges: Edges, kind: string): set<EdgeId> {
    set e | e in edges && Executable(edges[e]) && e.source.kind == kind
  }

  function TouchedBy(edges: Edges, ids: set<NodeId>): set<EdgeId> {
    set e | e in edges && Executable(edges[e]) && (e.source in ids || e.target in ids)
  }

  lemma {:induction false} ListedIds(s: seq<NodeEntry>, contents: Nodes)
    requires Lists(NodeLess, NodeKey, s, contents)
    ensures Ids(s) == contents.Keys
  {
    forall id ensures id in Ids(s) <==> id in contents {
      if id in Ids(s) {
        var n :| n in s && n.id == id;
        assert NodeKey(n) in contents;
      }
      if id in contents {
        assert NodeKey(contents[id]) == id && contents[id] in s;
      }
    }
  }

  lemma {:induction false} TouchingStaysInKind(nodes: Nodes, edges: Edges, kind: string, id: NodeId)
    requires EdgesKeyed(edges) && EdgesGrounded(nodes, edges) && id in ModelsOfKind(nodes, kind)
    ensures forall e :: e in edges && Executable(edges[e]) && Touches(e, id) ==>
              e.source in ModelsOfKind(nodes, kind) && e.target in ModelsOfKind(nodes, kind)
  {
    forall e | e in edges && Executable(edges[e]) && Touches(e, id)
      ensures e.source in ModelsOfKind(nodes, kind) && e.target in ModelsOfKind(nodes, kind)
    {
      assert Grounded(nodes, edges[e]);
    }
  }

  lemma {:induction false} TouchedByNone<V>(edges: Edges, hooks: map<EdgeId, V>)
    ensures edges - TouchedBy(edges, Ids([])) == edges && hooks - TouchedBy(edges, Ids([])) == hooks
  {
  }

  lemma {:induction false} TouchedByOneMore<V>(edges: Edges, hooks: map<EdgeId, V>, ids: set<NodeId>, id: NodeId)
    ensures var rest := edges - TouchedBy(edges, ids);
            var touching := set e | e in rest && Executable(rest[e]) && Touches(e, id);
            rest - touching == edges - TouchedBy(edges, ids + {id})
            && hooks - TouchedBy(edges, ids) - touching == hooks - TouchedBy(edges, ids + {id})
  {
    var rest := edges - TouchedBy(edges, ids);
    var touching := set e | e in rest && Executable(rest[e]) && Touches(e, id);
    assert TouchedBy(edges, ids + {id}) == TouchedBy(edges, ids) + touching;
  }

  lemma {:induction false} OneMoreDropped(nodes: Nodes, versions: seq<NodeEntry>, i: nat)
    requires i < |versions|
    ensures versions[i].id in Ids(versions)
    ensures nodes - Ids(versions[i..]) == nodes - Ids(versions[i + 1..]) - {versions[i].id}
  {
    assert Ids(versions[i..]) == Ids(versions[i + 1..]) + {versions[i].id};
  }

  lemma {:induction false} TouchedAreUnused(edges: Edges, ids: set<NodeId>)
    ensures forall id :: id in ids ==> Unused(edges - TouchedBy(edges, ids), id)
  {
  }

  /** The migrations touching a kind's models are exactly the kind's migrations. */
  lemma {:induction false} TouchedIsKind(nodes: Nodes, edges: Edges, kind: string)
    requires EdgesKeyed(edges) && EdgesGrounded(nodes, edges)
    ensures TouchedBy(edges, ModelsOfKind(nodes, kind)) == MigrationsOfKind(edges, kind)
  {
    forall e | e in edges && Executable(edges[e])
      ensures (e.source in ModelsOfKind(nodes, kind) || e.target in ModelsOfKind(nodes, kind)) <==>
                e.source.kind == kind
    {
      assert Grounded(nodes, edges[e]);
    }
  }

  /** A list of nodes by identity. */
  function ById(s: seq<NodeEntry>): (r: Nodes)
    ensures Keyed(r) && (forall id :: id in r ==> r[id] in s) && forall n :: n in s ==> n.id in r
  {
    if s == [] then map[] else ById(s[1..])[s[0].id := s[0]]
  }

  lemma {:induction false} EntitiesAreNodes(nodes: Nodes, byVersions: seq<NodeEntry>)
    requires Lists(NodeLess, NodeKey, byVersions, nodes)
    ensures ById(byVersions) == nodes
  {
    forall n | n in byVersions ensures n.id in nodes && nodes[n.id] == n {
      assert NodeKey(n) in nodes;
    }
    forall id | id in nodes ensures nodes[id] in byVersions && nodes[id].id == id {
      assert NodeKey(nodes[id]) == id;
    }
  }

  lemma {:induction false} RebuiltExact(space: string, nodes: Nodes)
    requires Keyed(nodes)
    ensures ExactHealth(space, nodes, Overlay(map[], nodes), Relint(map[], space, nodes.Keys, nodes))
  {
    assert Overlay(map[], nodes) == WithReferences(nodes);
  }

  /** The contents determine the reference and health indexes: exact ones are the same ones. */
  lemma {:induction false} TablesUnique(tracked: Nodes,
          to1: RefTable, refs1: map<NodeId, set<NodeId>>, spaces1: map<string, set<NodeId>>,
          to2: RefTable, refs2: map<NodeId, set<NodeId>>, spaces2: map<string, set<NodeId>>,
          issues1: map<NodeId, set<Issue>>, issues2: map<NodeId, set<Issue>>, space: string, nodes: Nodes)
    requires Tables(tracked, to1, refs1, issues1, spaces1) && Tables(tracked, to2, refs2, issues2, spaces2)
    requires IssuesExact(space, nodes, issues1) && IssuesExact(space, nodes, issues2)
    ensures to1 == to2 && refs1 == refs2 && issues1 == issues2 && spaces1 == spaces2
  {
    InverseUnique(tracked, to1, to2);
    IssuesUnique(space, nodes, issues1, issues2);
    NamespacesUnique(issues1, spaces1, spaces2);
  }

  lemma {:induction false} InverseUnique(tracked: Nodes, a: RefTable, b: RefTable)
    requires Inverse(tracked, a) && Inverse(tracked, b)
    ensures a == b
  {
    forall r ensures (r in a <==> r in b) && (r in a ==> a[r] == b[r]) {
      assert Referrers(a, r) == Referencing(tracked, r) && Referrers(b, r) == Referencing(tracked, r);
    }
  }

  lemma {:induction false} IssuesUnique(space: string, nodes: Nodes, a: map<NodeId, set<Issue>>,
          b: map<NodeId, set<Issue>>)
    requires IssuesExact(space, nodes, a) && IssuesExact(space, nodes, b)
    ensures a == b
  {
    forall id ensures (id in a <==> id in b) && (id in a ==> a[id] == b[id]) {
      assert IssuesOf(a, id) == Recomputed(space, nodes, id) && IssuesOf(b, id) == Recomputed(space, nodes, id);
    }
  }

  lemma {:induction false} NamespacesUnique(issues: map<NodeId, set<Issue>>, a: map<string, set<NodeId>>,
          b: map<string, set<NodeId>>)
    requires NamespacesExact(issues, a) && NamespacesExact(issues, b)
    ensures a == b
  {
    forall space ensures (space in a <==> space in b) && (space in a ==> a[space] == b[space]) {
      forall id ensures id in Affected(a, space) <==> id in Affected(b, space) {
        assert id in Affected(a, space) <==> id in issues && id.space == space;
      }
      assert Affected(a, space) == Affected(b, space);
    }
  }

  lemma {:induction false} EdgeIsKeyed(edges: Edges, id: EdgeId)
    requires EdgesKeyed(edges) && id in edges
    ensures edges[id].id == id
  {
  }

  lemma {:induction false} OverwriteEdge(edges: Edges, edge: EdgeEntry)
    ensures (edges - {edge.id})[edge.id := edge] == edges[edge.id := edge]
  {
  }

  /** What `remove_model` answers: the entry removed, or why not. */
  ghost function Removable(nodes: Nodes, edges: Edges, id: NodeId): Result<NodeEntry, RegistryError> {
    if id !in nodes then Err(NotRegistered) else if !Unused(edges, id) then Err(UsedByMigrations) else Ok(nodes[id])
  }

  /**
   `entry.reconcile(existing)`: a bare key yields to anything, a model takes over a bare key,
   models must agree on fields.
   */
  function ReconcileNodes(entry: NodeEntry, existing: NodeEntry): (r: Result<NodeEntry, RegistryError>)
    ensures !(entry.Model? && existing.KeyOnly?) && r.Ok? ==> r.value == existing
  {
    if entry.KeyOnly? then Ok(existing)
    else if existing.KeyOnly? then Ok(entry)
    else if entry.fields != existing.fields then Err(FieldConflict)
    else Ok(existing)
  }

  /** What `reconcile` answers. */
  function Reconciled(nodes: Nodes, entry: NodeEntry): Result<NodeEntry, RegistryError> {
    if entry.id !in nodes then Ok(entry)
    else if entry.Model? && nodes[entry.id].KeyOnly? then Err(HydrateInstead)
    else if entry.Model? && entry.fields != nodes[entry.id].fields then Err(FieldConflict)
    else Ok(nodes[entry.id])
  }

  /** What `hydrate` answers. */
  function Hydrated(nodes: Nodes, entry: NodeEntry): Result<NodeEntry, RegistryError> {
    if entry.KeyOnly? then Err(NotAModel)
    else if entry.id in nodes && nodes[entry.id].KeyOnly? then Ok(entry)
    else Reconciled(nodes, entry)
  }

  lemma {:induction false} NodesAreKeyed(nodes: Nodes, byVersions: seq<NodeEntry>)
    requires Lists(NodeLess, NodeKey, byVersions, nodes)
    ensures Keyed(nodes)
  {
    forall id | id in nodes ensures nodes[id].id == id {
      assert NodeKey(nodes[id]) == id;
    }
  }

  lemma {:induction false} Overwrite(nodes: Nodes, entry: NodeEntry)
    ensures (nodes - {entry.id})[entry.id := entry] == nodes[entry.id := entry]
  {
  }

  /** No executable edge touches a bare key. */
  lemma {:induction false} KeysAreUnused(nodes: Nodes, edges: Edges, id: NodeId)
    requires EdgesGrounded(nodes, edges) && EdgesKeyed(edges) && id in nodes && nodes[id].KeyOnly?
    ensures Unused(edges, id)
  {
    forall e | e in edges && Executable(edges[e]) ensures !Touches(e, id) {
      assert Grounded(nodes, edges[e]);
    }
  }

  lemma {:induction false} UsedWhenTouched(edges: Edges, touching: set<EdgeId>, id: NodeId)
    requires touching == set e | e in edges && Executable(edges[e]) && Touches(e, id)
    ensures touching != {} <==> !Unused(edges, id)
  {
    if touching != {} {
      var e :| e in touching;
      assert e in edges && Executable(edges[e]) && Touches(e, id);
    }
    if !Unused(edges, id) {
      var e :| e in edges && Executable(edges[e]) && Touches(e, id);
      assert e in touching;
    }
  }

  /** No executable edge touches the node. */
  ghost predicate Unused(edges: Edges, n: NodeId) {
    forall id :: id in edges && Executable(edges[id]) ==> !Touches(id, n)
  }

  lemma {:induction false} AffectedKeyed(tracked: Nodes, to: RefTable, entry: NodeEntry)
    requires Keyed(tracked) && Inverse(tracked, to)
    ensures Keyed(Referrers(to, entry.id)[entry.id := entry]) && Keyed(Referrers(to, entry.id) - {entry.id})
  {
    assert Referrers(to, entry.id) == Referencing(tracked, entry.id);
  }

  lemma {:induction false} StoreKeepsModels(nodes: Nodes, byModels: map<ModelRef, NodeEntry>, entry: NodeEntry)
    requires ModelsSound(nodes, byModels) && entry.id !in nodes
    ensures ModelsSound(nodes[entry.id := entry], if entry.Model? then byModels[entry.ref := entry] else byModels)
  {
  }

  /** Every stored model can be found by its reference. */
  ghost predicate ModelsComplete(nodes: Nodes, byModels: map<ModelRef, NodeEntry>) {
    forall id :: ModelAt(nodes, id) ==> nodes[id].ref in byModels && byModels[nodes[id].ref] == nodes[id]
  }

  /** No stored model has the entry's reference. */
  ghost predicate FreshReference(nodes: Nodes, entry: NodeEntry) {
    entry.Model? ==> forall id :: ModelAt(nodes, id) ==> nodes[id].ref != entry.ref
  }

  /** Storing keeps every model findable if and only if all were and the new reference is not in use. */
  lemma {:induction false} StoreKeepsComplete(nodes: Nodes, byModels: map<ModelRef, NodeEntry>, entry: NodeEntry)
    requires Keyed(nodes) && entry.id !in nodes
    ensures ModelsComplete(nodes[entry.id := entry],
              if entry.Model? then byModels[entry.ref := entry] else byModels) <==>
            ModelsComplete(nodes, byModels) && FreshReference(nodes, entry)
  {
    var after := nodes[entry.id := entry];
    var index := if entry.Model? then byModels[entry.ref := entry] else byModels;
    if ModelsComplete(after, index) {
      forall id | ModelAt(nodes, id)
        ensures nodes[id].ref in byModels && byModels[nodes[id].ref] == nodes[id]
        ensures (entry.Model? ==> nodes[id].ref != entry.ref)
      {
        assert ModelAt(after, id) && nodes[id].id == id;
      }
    }
  }

  lemma {:induction false} RemoveKeepsComplete(nodes: Nodes, byModels: map<ModelRef, NodeEntry>, entry: NodeEntry)
    requires Keyed(nodes) && IsStored(nodes, entry) && ModelsComplete(nodes, byModels)
    ensures ModelsComplete(nodes - {entry.id}, if entry.Model? then byModels - {entry.ref} else byModels)
  {
    forall id | ModelAt(nodes - {entry.id}, id) ensures entry.Model? ==> nodes[id].ref != entry.ref {
      assert ModelAt(nodes, id) && nodes[id].id == id;
      assert entry.Model? ==> ModelAt(nodes, entry.id);
    }
  }

  lemma {:induction false} StoreKeepsGrounded(nodes: Nodes, edges: Edges, entry: NodeEntry)
    requires entry.id !in nodes && EdgesGrounded(nodes, edges)
    ensures EdgesGrounded(nodes[entry.id := entry], edges)
  {
  }

  lemma {:induction false} RemoveKeepsGrounded(nodes: Nodes, edges: Edges, id: NodeId)
    requires EdgesGrounded(nodes, edges) && Unused(edges, id) && EdgesKeyed(edges)
    ensures EdgesGrounded(nodes - {id}, edges)
  {
    forall e | e in edges ensures Grounded(nodes - {id}, edges[e]) {
      assert Grounded(nodes, edges[e]);
    }
  }

  lemma {:induction false} RemoveKeepsModels(nodes: Nodes, byModels: map<ModelRef, NodeEntry>, entry: NodeEntry)
    requires ModelsSound(nodes, byModels) && IsStored(nodes, entry)
    ensures ModelsSound(nodes - {entry.id}, if entry.Model? then byModels - {entry.ref} else byModels)
  {
  }

  lemma {:induction false} OverlayNothing(tracked: Nodes, issues: map<NodeId, set<Issue>>, space: string,
          stored: set<NodeId>)
    ensures Overlay(tracked, map[]) == tracked && Relint(issues, space, stored, map[]) == issues
  {
  }

  lemma {:induction false} FormerCovers(tracked: Nodes, refs: map<NodeId, set<NodeId>>, id: NodeId)
    requires Forward(tracked, refs)
    ensures forall r :: id in Referencing(tracked, r) ==> r in (if id in refs then refs[id] else {})
  {
  }

  lemma {:induction false} OverlayOne(tracked: Nodes, done: Nodes, entity: NodeEntry)
    requires entity.id !in done
    ensures Overlay(tracked, done[entity.id := entity]) ==
            if References(entity) == {} then Overlay(tracked, done) - {entity.id}
            else Overlay(tracked, done)[entity.id := entity]
  {
    var more := done[entity.id := entity];
    assert forall id :: id in more <==> id in done || id == entity.id;
  }

  lemma {:induction false} RelintOne(issues: map<NodeId, set<Issue>>, space: string, stored: set<NodeId>, done: Nodes,
          entity: NodeEntry)
    requires entity.id !in done
    ensures Relint(issues, space, stored, done[entity.id := entity]) ==
            if Missing(space, stored, entity) == {} then Relint(issues, space, stored, done) - {entity.id}
            else Relint(issues, space, stored, done)[entity.id := Missing(space, stored, entity)]
  {
    var after := Relint(issues, space, stored, done[entity.id := entity]);
    var before := Relint(issues, space, stored, done);
    var found := Missing(space, stored, entity);
    assert entity.id in after <==> found != {};
    assert found != {} ==> after[entity.id] == found;
    forall other | other != entity.id ensures SameAt(after, before, other) {
      RelintElsewhere(issues, space, stored, done, entity, other);
    }
    DiffersOnlyAt(after, before, entity.id);
  }

  /** `done` holds the entities that are not left. */
  ghost predicate Splits(entities: Nodes, left: set<NodeId>, done: Nodes) {
    done.Keys == entities.Keys - left && forall id :: id in done ==> id in entities && done[id] == entities[id]
  }

  lemma {:induction false} SplitOne(entities: Nodes, left: set<NodeId>, done: Nodes, id: NodeId)
    requires Keyed(entities) && left <= entities.Keys && Splits(entities, left, done) && id in left
    ensures entities[id].id == id && id !in done && Splits(entities, left - {id}, done[id := entities[id]])
  {
    assert done[id := entities[id]].Keys == entities.Keys - (left - {id});
  }

  /** The tables after refreshing `done`. */
  ghost predicate Refreshed(tracked: Nodes, issues: map<NodeId, set<Issue>>, space: string, stored: set<NodeId>,
          done: Nodes, nowTracked: Nodes, nowIssues: map<NodeId, set<Issue>>)
  {
    nowTracked == Overlay(tracked, done) && nowIssues == Relint(issues, space, stored, done)
  }

  lemma {:induction false} RefreshedOne(tracked: Nodes, issues: map<NodeId, set<Issue>>, space: string,
          stored: set<NodeId>, done: Nodes, nowTracked: Nodes, nowIssues: map<NodeId, set<Issue>>, entity: NodeEntry)
    requires Refreshed(tracked, issues, space, stored, done, nowTracked, nowIssues) && entity.id !in done
    ensures Refreshed(tracked, issues, space, stored, done[entity.id := entity],
              if References(entity) == {} then nowTracked - {entity.id} else nowTracked[entity.id := entity],
              if Missing(space, stored, entity) == {} then nowIssues - {entity.id}
              else nowIssues[entity.id := Missing(space, stored, entity)])
  {
    OverlayOne(tracked, done, entity);
    RelintOne(issues, space, stored, done, entity);
  }

  ghost predicate SameAt<K, V>(a: map<K, V>, b: map<K, V>, k: K) {
    (k in a <==> k in b) && (k in a ==> a[k] == b[k])
  }

  lemma {:induction false} DiffersOnlyAt<K(!new), V>(a: map<K, V>, b: map<K, V>, k: K)
    requires forall other :: other != k ==> SameAt(a, b, other)
    ensures a == if k in a then b[k := a[k]] else b - {k}
  {
    forall other | other != k ensures (other in a <==> other in b) && (other in a ==> a[other] == b[other]) {
      assert SameAt(a, b, other);
    }
  }

  lemma {:induction false} RelintElsewhere(issues: map<NodeId, set<Issue>>, space: string, stored: set<NodeId>,
          done: Nodes, entity: NodeEntry, other: NodeId)
    requires other != entity.id
    ensures SameAt(Relint(issues, space, stored, done[entity.id := entity]), Relint(issues, space, stored, done), other)
  {
  }
}
