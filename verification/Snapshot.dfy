/**
 Compiling a registry into an immutable graph snapshot, and the revision derived from it:
 neither depends on the order in which models, edges or hooks were registered.
 */
module Snapshot {
  import opened Wrappers
  import opened Collections
  import opened Sorting
  import opened SortedLists
  import opened HookSort
  import opened Identity
  import opened Indexed
  import opened RegistryIndex
  import opened RegistrySpec
  import opened Engine
  import R = Registry

  /** The identity dict of a node, its version as text. */
  datatype NodeName = NodeName(space: string, kind: string, version: string)

  /**
   The canonical values that are hashed.  Objects with different keys are different
   constructors.  A model's sorted list of reference texts is given by how often each occurs.
   */
  datatype Payload =
    | NodeIdentity(node: NodeName)
    | ModelContent(id: string, model: string, fields: set<string>, references: map<string, nat>)
    | EdgeIdentity(source: NodeName, target: NodeName, discriminator: string)
    | EdgeContent(id: string, sourceDigest: string, targetDigest: string, discriminator: string, migration: string)
    | HookContent(hook: string)
    | GraphContent(space: string, nodes: seq<(string, string)>, edges: seq<(string, string, bool)>,
                   hooks: seq<(string, seq<string>)>)

  /** The content hash and the text of versions. */
  datatype Hasher = Hasher(digest: Payload -> string, show: Version -> string)

  function NameOf(show: Version -> string, id: NodeId): NodeName {
    NodeName(id.space, id.kind, show(id.version))
  }

  function WithText(show: Version -> string, refs: set<NodeId>, text: string): set<NodeId> {
    set r | r in refs && NodeText(show, r) == text
  }

  /** How often each text occurs among the references. */
  function TextCounts(show: Version -> string, refs: set<NodeId>): map<string, nat> {
    map text | text in (set r | r in refs :: NodeText(show, r)) :: |WithText(show, refs, text)|
  }

  /** What `digest` of a node entry hashes; a model's provider is not part of it. */
  function NodePayload(show: Version -> string, n: NodeEntry): Payload {
    match n
    case KeyOnly(id) => NodeIdentity(NameOf(show, id))
    case Model(id, ref, fields, references) =>
      ModelContent(NodeText(show, id), ref.entity, fields, TextCounts(show, references))
  }

  function NodeDigest(hash: Hasher, n: NodeEntry): string {
    hash.digest(NodePayload(hash.show, n))
  }

  /** `str(edge)` */
  function EdgeText(show: Version -> string, e: EdgeId): string {
    NodeText(show, e.source) + "->" + NodeText(show, e.target)
    + (if e.discriminator == "default" then "" else "#" + e.discriminator)
  }

  function EdgeName(show: Version -> string, e: EdgeId): Payload {
    EdgeIdentity(NameOf(show, e.source), NameOf(show, e.target), e.discriminator)
  }

  /** What `digest` of an edge entry hashes; a key-only edge is its identity. */
  function EdgePayload(hash: Hasher, e: EdgeEntry): Payload {
    match e.migration
    case None => EdgeName(hash.show, e.id)
    case Some(migration) =>
      EdgeContent(EdgeText(hash.show, e.id), NodeDigest(hash, e.source), NodeDigest(hash, e.target),
                  e.id.discriminator, migration)
  }

  function EdgeDigest(hash: Hasher, e: EdgeEntry): string {
    hash.digest(EdgePayload(hash, e))
  }

  function HookDigest(hash: Hasher): string -> string {
    (hook: string) => hash.digest(HookContent(hook))
  }

  datatype Revision = Revision(versions: map<string, seq<string>>, content: string)

  datatype Graph = Graph(
    space: string,
    backend: Backend,
    nodeDigests: map<NodeId, string>,
    edgeDigests: map<EdgeId, string>,
    hookIds: seq<EdgeId>,
    hookSpecs: map<EdgeId, seq<string>>,
    modelsByRef: map<ModelRef, NodeEntry>,
    digests: map<string, EdgeId>)

  datatype SnapshotError = MixedNamespaces | RevisionMismatch

  // ---- the snapshot of a catalog ----

  /** The stored edges that carry hooks. */
  function Hooked(c: Catalog): set<EdgeId> {
    set e | e in c.edges && HooksOf(c.hooks, e) != []
  }

  ghost predicate NodesSnapshot(hash: Hasher, c: Catalog, g: Graph) {
    && Lists(NodeLess, NodeKey, g.backend.nodes, c.nodes)
    && g.nodeDigests == map id | id in c.nodes :: NodeDigest(hash, c.nodes[id])
  }

  ghost predicate EdgesSnapshot(hash: Hasher, c: Catalog, g: Graph) {
    && Sorted(EdgeLess, g.backend.edges) && (forall e :: e in g.backend.edges <==> e in c.edges)
    && g.edgeDigests == (map e | e in c.edges :: EdgeDigest(hash, c.edges[e]))
    && g.backend.executable == set e | e in c.edges && Executable(c.edges[e])
  }

  ghost predicate HooksSnapshot(hash: Hasher, c: Catalog, g: Graph) {
    && Sorted(EdgeLess, g.hookIds) && (forall e :: e in g.hookIds <==> e in Hooked(c))
    && g.hookSpecs == map e | e in Hooked(c) :: SortHooks(HookDigest(hash), HooksOf(c.hooks, e))
  }

  ghost predicate IsSnapshot(hash: Hasher, c: Catalog, g: Graph) {
    Consistent(g.backend) && Tidy(g.backend) && NodesSnapshot(hash, c, g)
    && EdgesSnapshot(hash, c, g) && HooksSnapshot(hash, c, g)
  }

  // ---- the revision ----

  /** `node.id` of a stored node is the node itself, so both columns are its digest. */
  function NodeRow(hash: Hasher, g: Graph, n: NodeEntry): (string, string) {
    (NodeDigest(hash, n), if n.id in g.nodeDigests then g.nodeDigests[n.id] else "")
  }

  function EdgeRow(hash: Hasher, g: Graph, e: EdgeId): (string, string, bool) {
    (hash.digest(EdgeName(hash.show, e)),
     if e in g.edgeDigests then g.edgeDigests[e] else "", e in g.backend.executable)
  }

  function HookRow(hash: Hasher, g: Graph, e: EdgeId): (string, seq<string>) {
    (hash.digest(EdgeName(hash.show, e)), Texts(HookDigest(hash), if e in g.hookSpecs then g.hookSpecs[e] else []))
  }

  /** The value `content_digest` hashes. */
  function ContentOf(hash: Hasher, g: Graph): Payload {
    GraphContent(
      g.space,
      seq(|g.backend.nodes|, i requires 0 <= i < |g.backend.nodes| => NodeRow(hash, g, g.backend.nodes[i])),
      seq(|g.backend.edges|, i requires 0 <= i < |g.backend.edges| => EdgeRow(hash, g, g.backend.edges[i])),
      seq(|g.hookIds|, i requires 0 <= i < |g.hookIds| => HookRow(hash, g, g.hookIds[i])))
  }

  function VersionTexts(show: Version -> string, nodes: seq<NodeEntry>): seq<string> {
    seq(|nodes|, i requires 0 <= i < |nodes| => show(nodes[i].id.version))
  }

  function VersionVector(show: Version -> string, byKind: map<string, seq<NodeEntry>>): map<string, seq<string>> {
    map kind | kind in byKind :: VersionTexts(show, byKind[kind])
  }

  /** `VersionVectorRevisionPolicy.derive` */
  function RevisionOf(hash: Hasher, g: Graph): Revision {
    Revision(VersionVector(hash.show, g.backend.nodesByKind), hash.digest(ContentOf(hash, g)))
  }

  // ---- order independence ----

  /** The same stored nodes, edges and hook multisets. */
  ghost predicate SameRegistrations(a: Catalog, b: Catalog) {
    && a.nodes == b.nodes && a.edges == b.edges
    && forall e :: e in a.edges ==> multiset(HooksOf(a.hooks, e)) == multiset(HooksOf(b.hooks, e))
  }

  lemma {:induction false} BackendUnique(a: Backend, b: Backend)
    requires Consistent(a) && Consistent(b) && a.executable == b.executable && a.nodes == b.nodes && a.edges == b.edges
    requires Tidy(a) && Tidy(b)
    ensures a == b
  {
    GroupsUnique(a.nodes, KindOf, a.nodesByKind, b.nodesByKind);
    GroupsUnique(a.edges, PairOf, a.byPair, b.byPair);
    forall n ensures (n in a.outgoing <==> n in b.outgoing) && (n in a.outgoing ==> a.outgoing[n] == b.outgoing[n]) {
      forall e ensures e in Outgoing(a, n) <==> e in Outgoing(b, n) {
        assert e in Outgoing(a, n) <==> e in a.edges && e.source == n;
      }
      assert Outgoing(a, n) == Outgoing(b, n);
    }
  }

  lemma {:induction false} GroupsUnique<K(!new), T(!new)>(s: seq<T>, key: T -> K, a: map<K, seq<T>>, b: map<K, seq<T>>)
    requires Groups(s, key, a) && Groups(s, key, b)
    ensures a == b
  {
    forall k ensures (k in a <==> k in b) && (k in a ==> a[k] == b[k]) {
      assert Bucket(a, k) == Filter(s, WithKey(key, k)) && Bucket(b, k) == Filter(s, WithKey(key, k));
    }
  }

  lemma {:induction false} SameEdgeList(a: seq<EdgeId>, b: seq<EdgeId>)
    requires Sorted(EdgeLess, a) && Sorted(EdgeLess, b) && forall e :: e in a <==> e in b
    ensures a == b
  {
    EdgeOrder();
    SortedUnique(EdgeLess, a, b);
  }

  /** The reference lookup of a graph finds exactly the stored models. */
  ghost predicate ModelsExact(nodes: Nodes, models: map<ModelRef, NodeEntry>) {
    ModelsSound(nodes, models) && ModelsComplete(nodes, models)
  }

  lemma {:induction false} ModelsUnique(nodes: Nodes, a: map<ModelRef, NodeEntry>, b: map<ModelRef, NodeEntry>)
    requires ModelsExact(nodes, a) && ModelsExact(nodes, b)
    ensures a == b
  {
    forall ref | ref in a ensures ref in b && a[ref] == b[ref] {
      assert ModelAt(nodes, a[ref].id);
    }
    forall ref | ref in b ensures ref in a {
      assert ModelAt(nodes, b[ref].id);
    }
  }

  /**
   Registration order does not matter: equal registrations give equal node, edge and hook
   indexes and equal revisions, and equal reference lookups where those are exact.
   */
  lemma {:induction false} SnapshotsAgree(hash: Hasher, a: Catalog, b: Catalog, g: Graph, h: Graph)
    requires IsSnapshot(hash, a, g) && IsSnapshot(hash, b, h)
    requires SameRegistrations(a, b) && g.space == h.space
    ensures g.backend == h.backend && RevisionOf(hash, g) == RevisionOf(hash, h)
    ensures g.nodeDigests == h.nodeDigests && g.edgeDigests == h.edgeDigests && g.hookIds == h.hookIds
    ensures ModelsExact(a.nodes, g.modelsByRef) && ModelsExact(b.nodes, h.modelsByRef) ==>
              g.modelsByRef == h.modelsByRef
  {
    NodeListsUnique(a.nodes, g.backend.nodes, h.backend.nodes);
    SameEdgeList(g.backend.edges, h.backend.edges);
    BackendUnique(g.backend, h.backend);
    HooksAgree(hash, a, b, g, h);
    SameRowsSameContent(hash, g, h);
    if ModelsExact(a.nodes, g.modelsByRef) && ModelsExact(b.nodes, h.modelsByRef) {
      ModelsUnique(a.nodes, g.modelsByRef, h.modelsByRef);
    }
  }

  lemma {:induction false} HooksAgree(hash: Hasher, a: Catalog, b: Catalog, g: Graph, h: Graph)
    requires HooksSnapshot(hash, a, g) && HooksSnapshot(hash, b, h) && SameRegistrations(a, b)
    ensures g.hookIds == h.hookIds && forall e :: e in g.hookIds ==> HookRow(hash, g, e) == HookRow(hash, h, e)
  {
    SameHooked(a, b);
    SameEdgeList(g.hookIds, h.hookIds);
    SameHookRows(hash, a, b, g, h);
  }

  lemma {:induction false} SameRowsSameContent(hash: Hasher, g: Graph, h: Graph)
    requires g.space == h.space && g.backend == h.backend && g.nodeDigests == h.nodeDigests
    requires g.edgeDigests == h.edgeDigests
    requires g.hookIds == h.hookIds && forall e :: e in g.hookIds ==> HookRow(hash, g, e) == HookRow(hash, h, e)
    ensures ContentOf(hash, g) == ContentOf(hash, h)
  {
    var p, q := ContentOf(hash, g), ContentOf(hash, h);
    assert p.nodes == q.nodes && p.edges == q.edges;
    forall i | 0 <= i < |g.hookIds| ensures p.hooks[i] == q.hooks[i] {
      assert g.hookIds[i] in g.hookIds;
    }
    assert p.hooks == q.hooks;
  }

  lemma {:induction false} SameHooked(a: Catalog, b: Catalog)
    requires SameRegistrations(a, b)
    ensures Hooked(a) == Hooked(b)
  {
    forall e | e in a.edges ensures HooksOf(a.hooks, e) == [] <==> HooksOf(b.hooks, e) == [] {
      SameLength(HooksOf(a.hooks, e), HooksOf(b.hooks, e));
    }
  }

  lemma {:induction false} SameHookRows(hash: Hasher, a: Catalog, b: Catalog, g: Graph, h: Graph)
    requires HooksSnapshot(hash, a, g) && HooksSnapshot(hash, b, h) && SameRegistrations(a, b)
    ensures forall e :: e in Hooked(a) && e in Hooked(b) ==> HookRow(hash, g, e) == HookRow(hash, h, e)
  {
    forall e | e in Hooked(a) && e in Hooked(b) ensures HookRow(hash, g, e) == HookRow(hash, h, e) {
      HookOrderIrrelevant(HookDigest(hash), HooksOf(a.hooks, e), HooksOf(b.hooks, e));
    }
  }

  // ---- GraphBuilder.build ----

  lemma {:induction false} RowOf(nodes: Nodes, s: seq<NodeEntry>, id: NodeId) returns (i: nat)
    requires Lists(NodeLess, NodeKey, s, nodes) && id in nodes
    ensures i < |s| && s[i] == nodes[id] && s[i].id == id
  {
    assert NodeKey(nodes[id]) == id && nodes[id] in s;
    i :| 0 <= i < |s| && s[i] == nodes[id];
  }

  lemma {:induction false} ListedAt(nodes: Nodes, s: seq<NodeEntry>, i: nat)
    requires Lists(NodeLess, NodeKey, s, nodes) && i < |s|
    ensures s[i].id in nodes && nodes[s[i].id] == s[i]
  {
    assert s[i] in s && NodeKey(s[i]) in nodes;
  }

  datatype Collected = Collected(edges: set<EdgeId>, digests: map<EdgeId, string>,
      hooks: map<EdgeId, seq<string>>, executable: set<EdgeId>)

  /** What the builder has gathered once it has seen `chosen`. */
  ghost function CollectedFrom(hash: Hasher, c: Catalog, chosen: set<EdgeId>): Collected {
    Collected(
      chosen,
      map e | e in chosen && e in c.edges :: EdgeDigest(hash, c.edges[e]),
      map e | e in chosen && e in Hooked(c) :: SortHooks(HookDigest(hash), HooksOf(c.hooks, e)),
      set e | e in chosen && e in c.edges && Executable(c.edges[e]))
  }

  /** One turn of the builder's loop. */
  function Collect(hash: Hasher, hooks: Hooks, acc: Collected, entry: EdgeEntry): Collected {
    var own := HooksOf(hooks, entry.id);
    Collected(
      acc.edges + {entry.id},
      acc.digests[entry.id := EdgeDigest(hash, entry)],
      if own == [] then acc.hooks else acc.hooks[entry.id := SortHooks(HookDigest(hash), own)],
      if Executable(entry) then acc.executable + {entry.id} else acc.executable)
  }

  lemma {:induction false} CollectOne(hash: Hasher, c: Catalog, chosen: set<EdgeId>, e: EdgeId)
    requires e in c.edges && c.edges[e].id == e
    ensures Collect(hash, c.hooks, CollectedFrom(hash, c, chosen), c.edges[e]) == CollectedFrom(hash, c, chosen + {e})
  {
    CollectDigest(hash, c, chosen, e);
    CollectHooks(hash, c, chosen, e);
    var before, after := CollectedFrom(hash, c, chosen), CollectedFrom(hash, c, chosen + {e});
    assert after.executable == if Executable(c.edges[e]) then before.executable + {e} else before.executable;
  }

  lemma {:induction false} CollectDigest(hash: Hasher, c: Catalog, chosen: set<EdgeId>, e: EdgeId)
    requires e in c.edges
    ensures CollectedFrom(hash, c, chosen + {e}).digests
              == CollectedFrom(hash, c, chosen).digests[e := EdgeDigest(hash, c.edges[e])]
  {
  }

  lemma {:induction false} CollectHooks(hash: Hasher, c: Catalog, chosen: set<EdgeId>, e: EdgeId)
    requires e in c.edges
    ensures var before, after := CollectedFrom(hash, c, chosen).hooks, CollectedFrom(hash, c, chosen + {e}).hooks;
            after == if HooksOf(c.hooks, e) == [] then before
                     else before[e := SortHooks(HookDigest(hash), HooksOf(c.hooks, e))]
  {
    var before, after := CollectedFrom(hash, c, chosen).hooks, CollectedFrom(hash, c, chosen + {e}).hooks;
    assert e in Hooked(c) <==> HooksOf(c.hooks, e) != [];
    if HooksOf(c.hooks, e) == [] {
      assert after == before;
    } else {
      assert after == before[e := SortHooks(HookDigest(hash), HooksOf(c.hooks, e))];
    }
  }

  function EdgeIds(s: seq<EdgeEntry>): set<EdgeId> {
    set e | e in s :: e.id
  }

  /** The edges whose kind is no longer outstanding. */
  ghost function Seen(edges: Edges, left: set<string>): set<EdgeId> {
    set e | e in edges && e.source.kind !in left
  }

  /** Gather the edges of one kind, in list order. */
  method CollectKind(registry: R.Registry, hash: Hasher, kind: string, acc0: Collected, ghost chosen: set<EdgeId>)
    returns (acc: Collected)
    requires registry.Valid() && acc0 == CollectedFrom(hash, Contents(registry), chosen)
    ensures acc == CollectedFrom(hash, Contents(registry), chosen + EdgesOfKind(registry.edges, kind).Keys)
  {
    var paths := Collections.Bucket(registry.migrations, kind);
    ListedEdges(paths, EdgesOfKind(registry.edges, kind));
    acc := acc0;
    assert chosen + EdgeIds(paths[..0]) == chosen;
    for i := 0 to |paths|
      invariant acc == CollectedFrom(hash, Contents(registry), chosen + EdgeIds(paths[..i]))
    {
      assert chosen + EdgeIds(paths[..i + 1]) == chosen + EdgeIds(paths[..i]) + {paths[i].id};
      assert paths[i] in paths;
      CollectOne(hash, Contents(registry), chosen + EdgeIds(paths[..i]), paths[i].id);
      acc := Collect(hash, registry.hooks, acc, paths[i]);
    }
    assert paths[..|paths|] == paths;
  }

  lemma {:induction false} ListedEdges(s: seq<EdgeEntry>, edges: Edges)
    requires Lists(EdgeLess, EdgeKey, s, edges)
    ensures EdgeIds(s) == edges.Keys && forall e :: e in s ==> e.id in edges && edges[e.id] == e
  {
    forall e | e in s ensures e.id in edges && edges[e.id] == e {
      assert EdgeKey(e) in edges;
    }
    forall id | id in edges ensures id in EdgeIds(s) {
      assert EdgeKey(edges[id]) == id && edges[id] in s;
    }
  }

  /** Gather the edges of every kind, the kinds in any order. */
  method CollectAll(registry: R.Registry, hash: Hasher) returns (acc: Collected)
    requires registry.Valid()
    ensures acc == CollectedFrom(hash, Contents(registry), registry.edges.Keys)
  {
    var left := (set kind | kind in registry.byKinds && registry.byKinds[kind] != []) + registry.migrations.Keys;
    acc := Collected({}, map[], map[], {});
    KindsCoverEdges(registry.edges, registry.migrations, left);
    assert Seen(registry.edges, left) == {};
    assert acc == CollectedFrom(hash, Contents(registry), {});
    while left != {}
      invariant acc == CollectedFrom(hash, Contents(registry), Seen(registry.edges, left))
      decreases left
    {
      var kind :| kind in left;
      assert Seen(registry.edges, left - {kind}) == Seen(registry.edges, left) + EdgesOfKind(registry.edges, kind).Keys;
      acc := CollectKind(registry, hash, kind, acc, Seen(registry.edges, left));
      left := left - {kind};
    }
    assert Seen(registry.edges, {}) == registry.edges.Keys;
  }

  lemma {:induction false} KindsCoverEdges(edges: Edges, migrations: map<string, seq<EdgeEntry>>, kinds: set<string>)
    requires forall kind :: Lists(EdgeLess, EdgeKey, Collections.Bucket(migrations, kind), EdgesOfKind(edges, kind))
    requires migrations.Keys <= kinds
    ensures forall e :: e in edges ==> e.source.kind in kinds
  {
    forall e | e in edges ensures e.source.kind in kinds {
      var kind := e.source.kind;
      ListedEdges(Collections.Bucket(migrations, kind), EdgesOfKind(edges, kind));
      assert e in EdgesOfKind(edges, kind);
      assert e in EdgeIds(Collections.Bucket(migrations, kind));
    }
  }

  /** The namespaces of the stored nodes and edges. */
  function Spaces(nodes: seq<NodeEntry>, edges: set<EdgeId>): set<string> {
    (set n | n in nodes :: n.id.space) + (set e | e in edges :: e.source.space)
  }

  ghost predicate UsesSpace(c: Catalog, x: string) {
    (exists id :: id in c.nodes && id.space == x) || exists e :: e in c.edges && e.source.space == x
  }

  ghost predicate OneSpace(c: Catalog) {
    forall x, y :: UsesSpace(c, x) && UsesSpace(c, y) ==> x == y
  }

  lemma {:induction false} SpacesExact(c: Catalog, nodes: seq<NodeEntry>, x: string)
    requires Lists(NodeLess, NodeKey, nodes, c.nodes)
    ensures x in Spaces(nodes, c.edges.Keys) <==> UsesSpace(c, x)
  {
    if id :| id in c.nodes && id.space == x {
      var i := RowOf(c.nodes, nodes, id);
      assert nodes[i] in nodes;
    }
    if n :| n in nodes && n.id.space == x {
      assert NodeKey(n) in c.nodes;
    }
  }

  lemma {:induction false} AtMostOne(s: set<string>)
    ensures |s| <= 1 <==> forall x, y :: x in s && y in s ==> x == y
  {
    if |s| <= 1 {
      forall x, y | x in s && y in s ensures x == y {
        assert |s - {x}| == |s| - 1;
        assert y in s - {x} || y == x;
      }
    } else {
      var x :| x in s;
      assert |s - {x}| == |s| - 1;
      var y :| y in s - {x};
    }
  }

  lemma {:induction false} OneSpaceExact(c: Catalog, nodes: seq<NodeEntry>)
    requires Lists(NodeLess, NodeKey, nodes, c.nodes)
    ensures |Spaces(nodes, c.edges.Keys)| <= 1 <==> OneSpace(c)
  {
    var spaces := Spaces(nodes, c.edges.Keys);
    AtMostOne(spaces);
    forall x ensures x in spaces <==> UsesSpace(c, x) {
      SpacesExact(c, nodes, x);
    }
  }

  method SortEdges(ids: set<EdgeId>) returns (s: seq<EdgeId>)
    ensures Sorted(EdgeLess, s) && forall e :: e in s <==> e in ids
  {
    EdgeOrder();
    s := SortSet(EdgeLess, ids);
  }

  method DigestNodes(hash: Hasher, nodes: seq<NodeEntry>, ghost contents: Nodes) returns (digests: map<NodeId, string>)
    requires Lists(NodeLess, NodeKey, nodes, contents)
    ensures digests == map id | id in contents :: NodeDigest(hash, contents[id])
  {
    EntitiesAreNodes(contents, nodes);
    var entries := ById(nodes);
    digests := map id | id in entries :: NodeDigest(hash, entries[id]);
  }

  /** Assemble the graph from what was gathered. */
  method Assemble(space: string, nodes: seq<NodeEntry>, hash: Hasher, acc: Collected,
          models: map<ModelRef, NodeEntry>, digests: map<string, EdgeId>, ghost c: Catalog)
    returns (g: Graph)
    requires Lists(NodeLess, NodeKey, nodes, c.nodes) && acc == CollectedFrom(hash, c, c.edges.Keys)
    ensures IsSnapshot(hash, c, g) && g.space == space && g.modelsByRef == models && g.digests == digests
  {
    UniqueIds(c.nodes, nodes);
    var edges := SortEdges(acc.edges);
    var backend := Build(nodes, edges, acc.executable);
    BackendLists(c.nodes, nodes, backend.nodes);
    var hookIds := SortEdges(acc.hooks.Keys);
    var nodeDigests := DigestNodes(hash, nodes, c.nodes);
    g := Graph(space, backend, nodeDigests, acc.digests, hookIds, acc.hooks, models, digests);
  }

  lemma {:induction false} UniqueIds(contents: Nodes, nodes: seq<NodeEntry>)
    requires Lists(NodeLess, NodeKey, nodes, contents)
    ensures forall m, n :: m in nodes && n in nodes && m.id == n.id ==> m == n
  {
    assert forall n :: n in nodes ==> NodeKey(n) in contents && contents[NodeKey(n)] == n;
  }

  lemma {:induction false} BackendLists(contents: Nodes, nodes: seq<NodeEntry>, sorted: seq<NodeEntry>)
    requires Lists(NodeLess, NodeKey, nodes, contents) && Sorted(EntryLess, sorted)
    requires forall n :: n in sorted <==> n in nodes
    ensures Lists(NodeLess, NodeKey, sorted, contents)
  {
    forall i, j | 0 <= i < j < |sorted| ensures NodeLess(NodeKey(sorted[i]), NodeKey(sorted[j])) {
      assert EntryLess(sorted[i], sorted[j]);
    }
  }

  /** The graph and revision a registry compiles into. */
  ghost predicate IsCompiled(registry: R.Registry, hash: Hasher, result: (Graph, Revision))
    reads registry
  {
    var (g, revision) := result;
    && OneSpace(Contents(registry)) && IsSnapshot(hash, Contents(registry), g) && g.space == registry.space
    && g.modelsByRef == registry.byModels && g.digests == registry.digestIndex && revision == RevisionOf(hash, g)
  }

  /**
   `GraphBuilder.build`: a registry of one namespace compiles into its snapshot, whose revision
   must match any expected one.
   */
  method Compile(registry: R.Registry, hash: Hasher, expected: Option<Revision>)
    returns (r: Result<(Graph, Revision), SnapshotError>)
    requires registry.Valid()
    ensures r == Err(MixedNamespaces) <==> !OneSpace(Contents(registry))
    ensures r.Ok? ==> IsCompiled(registry, hash, r.value)
    ensures OneSpace(Contents(registry)) && expected.None? ==> r.Ok?
    ensures r.Ok? && expected.Some? ==> r.value.1 == expected.value
    ensures r == Err(RevisionMismatch) ==>
              expected.Some? && exists result :: IsCompiled(registry, hash, result) && result.1 != expected.value
  {
    var acc := CollectAll(registry, hash);
    OneSpaceExact(Contents(registry), registry.byVersions);
    if |Spaces(registry.byVersions, acc.edges)| > 1 { return Err(MixedNamespaces); }
    var g := Assemble(registry.space, registry.byVersions, hash, acc, registry.byModels, registry.digestIndex,
        Contents(registry));
    var revision := RevisionOf(hash, g);
    assert IsCompiled(registry, hash, (g, revision));
    if expected.Some? && expected.value != revision { return Err(RevisionMismatch); }
    return Ok((g, revision));
  }

  /** Registries with equal registrations compile into equal indexes, digests and revisions. */
  lemma {:induction false} CompiledAgree(hash: Hasher, x: R.Registry, y: R.Registry, p: (Graph, Revision),
          q: (Graph, Revision))
    requires x.Valid() && y.Valid() && IsCompiled(x, hash, p) && IsCompiled(y, hash, q)
    requires x.Digests() && y.Digests() && x.indexDigests == y.indexDigests && x.digestOf == y.digestOf
    requires x.space == y.space && SameRegistrations(Contents(x), Contents(y))
    ensures p.1 == q.1 && p.0.backend == q.0.backend && p.0.hookIds == q.0.hookIds
    ensures p.0.nodeDigests == q.0.nodeDigests && p.0.edgeDigests == q.0.edgeDigests && p.0.digests == q.0.digests
  {
    SnapshotsAgree(hash, Contents(x), Contents(y), p.0, q.0);
    DigestsUnique(x.indexDigests, x.digestOf, x.edges, x.digestIndex, y.digestIndex);
  }
}
