/**
 A small registry: two models and the migration between them, the references an edge can make
 it lose, and two revisions that differ.
 */
module RegistryExamples {
  import opened Wrappers
  import opened Collections
  import opened Sorting
  import opened Identity
  import opened RegistryIndex
  import opened Health
  import opened RegistrySpec
  import opened Engine
  import opened Snapshot
  import opened Revisions
  import opened Examples
  import R = Registry

  // ---- a registry ----

  function MigrationSpec(): RegistrySpec.Spec {
    RegistrySpec.Spec(First.id, Second.id, "default", (a: NodeEntry, b: NodeEntry) => "content", false,
        (a: NodeEntry, id: NodeId) => Model(id, ModelRef("p", "e"), {}, {}))
  }

  const BothModels: Nodes := map[First.id := First, Second.id := Second]

  const StoredMigration: EdgeEntry := EdgeEntry(Edge, First, Second, Some("content"))

  lemma {:induction false} MigrationStores(digestOf: EdgeEntry -> string)
    ensures SpecNodes(BothModels, MigrationSpec()) == BothModels && Reflects(MigrationSpec().reflect)
    ensures SpecOutcome(digestOf, BothModels, BothModels, map[], MigrationSpec()) == Ok(StoredMigration)
    ensures StaysClear(true, digestOf, map[], Ok(StoredMigration))
  {
    NeighboursStored();
    assert SpecId(MigrationSpec()) == Edge && ModelAt(BothModels, First.id) && ModelAt(BothModels, Second.id);
    assert ResolvedOutcome(digestOf, BothModels, map[], MigrationSpec()) == Ok(StoredMigration);
  }

  /** A registry with a digest index stores both models and the migration between them. */
  method BuildRegistry() returns (registry: R.Registry)
    ensures fresh(registry) && registry.Valid() && registry.Digests() && registry.indexDigests
    ensures registry.nodes == BothModels && registry.edges == map[Edge := StoredMigration]
  {
    registry := new R.Registry("n", true, (e: EdgeEntry) => "digest");
    StoreBoth(registry);
    MigrationStores(registry.digestOf);
    var r := registry.StoreMigration(MigrationSpec());
  }

  method StoreNew(registry: R.Registry, entry: NodeEntry)
    requires registry.Valid() && registry.Digests() && entry.id !in registry.nodes
    modifies registry
    ensures registry.Valid() && registry.Digests()
    ensures registry.nodes == old(registry.nodes)[entry.id := entry]
    ensures registry.edges == old(registry.edges) && registry.hooks == old(registry.hooks)
  {
    var r := registry.Store(entry);
  }

  method StoreBoth(registry: R.Registry)
    requires registry.Valid() && registry.Digests() && registry.nodes == map[] && registry.edges == map[]
    modifies registry
    ensures registry.Valid() && registry.Digests() && registry.nodes == BothModels && registry.edges == map[]
  {
    StoreNew(registry, First);
    StoreNew(registry, Second);
    assert registry.nodes == BothModels;
  }

  lemma {:induction false} NeighboursStored()
    ensures Neighbours(BothModels, First.id, Second.id)
  {
    forall c | c in BothModels ensures !Between(First.id, c, Second.id) {
      TextTotal("n", "n");
      TextTotal("k", "k");
    }
  }

  // ---- references lost to a bare endpoint ----

  const Referring: NodeEntry := Model(First.id, ModelRef("p", "e"), {"f"}, {Second.id})

  const BareEdge: EdgeEntry := EdgeEntry(Edge, KeyOnly(First.id), KeyOnly(Second.id), None)

  const ReferringModels: Nodes := map[First.id := Referring, Second.id := Second]

  /**
   A key-only edge is stored over a model that has references: the call succeeds and the node
   stays, but the registry no longer knows the references it has.
   */
  method LoseReferences() returns (registry: R.Registry)
    ensures fresh(registry) && registry.Indexed() && registry.Digests() && !registry.HealthExact()
    ensures registry.nodes == ReferringModels && registry.edges == map[Edge := BareEdge]
  {
    registry := new R.Registry("n", false, (e: EdgeEntry) => "digest");
    StoreReferring(registry);
    StoreBare(registry);
  }

  method StoreReferring(registry: R.Registry)
    requires registry.Valid() && registry.Digests() && registry.nodes == map[] && registry.edges == map[]
    modifies registry
    ensures registry.Valid() && registry.Digests() && registry.nodes == ReferringModels && registry.edges == map[]
  {
    StoreNew(registry, Second);
    StoreNew(registry, Referring);
    assert registry.nodes == ReferringModels;
  }

  method StoreBare(registry: R.Registry)
    requires registry.Valid() && registry.Digests() && !registry.indexDigests
    requires registry.nodes == ReferringModels && registry.edges == map[]
    modifies registry
    ensures registry.Indexed() && registry.Digests() && !registry.HealthExact()
    ensures registry.nodes == ReferringModels && registry.edges == map[Edge := BareEdge]
  {
    TrackedExact(registry.space, registry.nodes, registry.tracked, registry.issues);
    HarmfulEndpoint(registry.nodes, registry.digestOf);
    var r := registry.StoreEdge(BareEdge);
    TrackedNotExact(registry.space, registry.nodes, registry.tracked, registry.issues);
  }

  lemma {:induction false} TrackedExact(space: string, nodes: Nodes, tracked: Nodes, issues: map<NodeId, set<Issue>>)
    requires ExactHealth(space, nodes, tracked, issues)
    ensures tracked == WithReferences(nodes)
  {
  }

  lemma {:induction false} TrackedNotExact(space: string, nodes: Nodes, tracked: Nodes, issues: map<NodeId, set<Issue>>)
    requires tracked != WithReferences(nodes)
    ensures !ExactHealth(space, nodes, tracked, issues)
  {
  }

  lemma {:induction false} HarmfulEndpoint(nodes: Nodes, digestOf: EdgeEntry -> string)
    requires nodes == ReferringModels
    ensures Keyed(nodes) && Overlay(WithReferences(nodes), Endpoints(BareEdge)) != WithReferences(nodes)
    ensures StoredEdge(digestOf, nodes, map[], BareEdge) == Ok(BareEdge) && Installs(map[], BareEdge)
    ensures StaysClear(false, digestOf, map[], Ok(BareEdge))
  {
    assert Endpoints(BareEdge)[First.id] == KeyOnly(First.id);
    assert Second.id in References(Referring);
    HarmfulTracks(nodes, Endpoints(BareEdge), First.id);
  }

  // ---- two revisions ----

  /** A hash that is far from injective but tells these payloads apart. */
  function ToyDigest(p: Snapshot.Payload): string {
    match p
    case ModelContent(_, _, fields, _) => if "f" in fields then "f" else "g"
    case GraphContent(_, nodes, _, _) => if nodes == [("f", "f")] then "F" else "G"
    case _ => ""
  }

  const Toy: Hasher := Hasher(ToyDigest, Show)

  function WithField(field: string): NodeEntry {
    Model(First.id, ModelRef("p", "e"), {field}, {})
  }

  function OneModel(field: string): Catalog {
    Catalog(map[First.id := WithField(field)], map[], map[])
  }

  lemma {:induction false} OneModelRows(field: string, g: Graph)
    requires IsSnapshot(Toy, OneModel(field), g)
    ensures ContentOf(Toy, g).nodes == [(NodeDigest(Toy, WithField(field)), NodeDigest(Toy, WithField(field)))]
  {
    var nodes := g.backend.nodes;
    forall i | 0 <= i < |nodes| ensures nodes[i] == WithField(field) {
      ListedAt(OneModel(field).nodes, nodes, i);
    }
    var k := RowOf(OneModel(field).nodes, nodes, First.id);
    assert |nodes| == 1 by {
      if |nodes| > 1 {
        assert NodeLess(nodes[0].id, nodes[1].id);
        TextTotal("n", "n");
        TextTotal("k", "k");
      }
    }
    NodeRowAt(Toy, OneModel(field), g, 0);
  }

  lemma {:induction false} ToyTells()
    ensures NodeDigest(Toy, WithField("f")) == "f" && NodeDigest(Toy, WithField("g")) == "g" && "f" != "g" && "F" != "G"
  {
    assert "f"[0] != "g"[0] && "F"[0] != "G"[0];
    assert "f" in {"f"} && "f" !in {"g"};
  }

  lemma {:induction false} ToyTellsNodes(m: NodeEntry, n: NodeEntry)
    requires Holds(OneModel("f"), m) && Holds(OneModel("g"), n)
    ensures Tells(Toy, NodePayload(Show, m), NodePayload(Show, n))
  {
    ToyTells();
    assert m == WithField("f") && n == WithField("g");
  }

  lemma {:induction false} ToySeparates(g: Graph, h: Graph)
    requires IsSnapshot(Toy, OneModel("f"), g) && IsSnapshot(Toy, OneModel("g"), h)
    ensures Separates(Toy, OneModel("f"), OneModel("g"), g, h)
  {
    forall m, n | Holds(OneModel("f"), m) && Holds(OneModel("g"), n)
      ensures Tells(Toy, NodePayload(Show, m), NodePayload(Show, n))
    {
      ToyTellsNodes(m, n);
    }
    ToyTells();
    OneModelRows("f", g);
    OneModelRows("g", h);
    assert ContentOf(Toy, g).nodes == [("f", "f")] && ContentOf(Toy, h).nodes[0] == ("g", "g");
    assert Tells(Toy, ContentOf(Toy, g), ContentOf(Toy, h));
  }

  lemma {:induction false} OneModelSpace(field: string)
    ensures OneSpace(OneModel(field))
  {
  }

  lemma {:induction false} FieldsDiffer()
    ensures !SameContent(Show, OneModel("f"), OneModel("g"))
  {
    ToyTells();
    var id := First.id;
    assert "f" in OneModel("f").nodes[id].fields && "f" !in OneModel("g").nodes[id].fields;
    assert !SameModel(Show, OneModel("f").nodes[id], OneModel("g").nodes[id]);
  }

  lemma {:induction false} VersionsShown()
    ensures VersionsTold(Show, OneModel("f"), OneModel("g"))
  {
  }

  /** Registries whose models differ in a field compile to different revisions. */
  lemma {:induction false} FieldsShowInRevision(x: R.Registry, y: R.Registry, p: (Graph, Revision),
          q: (Graph, Revision))
    requires x.Valid() && y.Valid() && IsCompiled(x, Toy, p) && IsCompiled(y, Toy, q) && x.space == y.space
    requires Contents(x) == OneModel("f") && Contents(y) == OneModel("g")
    ensures p.1 != q.1
  {
    ToySeparates(p.0, q.0);
    VersionsShown();
    FieldsDiffer();
    CompiledRevisions(Toy, x, y, p, q);
  }

  method CompareRevisions()
    returns (a: Result<(Graph, Revision), SnapshotError>, b: Result<(Graph, Revision), SnapshotError>)
    ensures a.Ok? && b.Ok? && a.value.1 != b.value.1
  {
    var x, y;
    x, a := CompileModel("f");
    y, b := CompileModel("g");
    FieldsShowInRevision(x, y, a.value, b.value);
  }

  method CompileModel(field: string) returns (registry: R.Registry, r: Result<(Graph, Revision), SnapshotError>)
    ensures fresh(registry) && registry.Valid() && Contents(registry) == OneModel(field) && registry.space == "n"
    ensures r.Ok? && IsCompiled(registry, Toy, r.value)
  {
    registry := new R.Registry("n", false, (e: EdgeEntry) => "digest");
    StoreNew(registry, WithField(field));
    assert Contents(registry) == OneModel(field);
    OneModelSpace(field);
    r := Compile(registry, Toy, None);
  }
}
