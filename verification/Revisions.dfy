/**
 What a revision identifies.  Snapshots of the same content have the same revision.  With a
 hash that tells their payloads apart, snapshots with the same revision have the same
 content, where a model's references count by their texts; when those texts determine the
 references is stated exactly.
 */
module Revisions {
  import opened Wrappers
  import opened Collections
  import opened Sorting
  import opened SortedLists
  import opened HookSort
  import opened Identity
  import opened Indexed
  import opened RegistryIndex
  import opened RegistrySpec
  import opened Engine
  import opened Snapshot
  import R = Registry

  // ---- the same content ----

  /** Everything about a node but its model's provider, references by their texts. */
  predicate SameModel(show: Version -> string, m: NodeEntry, n: NodeEntry) {
    && m.id == n.id && (m.Model? <==> n.Model?)
    && (m.Model? ==>
          && m.ref.entity == n.ref.entity && m.fields == n.fields
          && TextCounts(show, m.references) == TextCounts(show, n.references))
  }

  predicate SameEdge(show: Version -> string, e: EdgeEntry, f: EdgeEntry) {
    && e.id == f.id && e.migration == f.migration
    && (Executable(e) ==> SameModel(show, e.source, f.source) && SameModel(show, e.target, f.target))
  }

  ghost predicate SameNodes(show: Version -> string, a: Nodes, b: Nodes) {
    a.Keys == b.Keys && forall id :: id in a ==> SameModel(show, a[id], b[id])
  }

  ghost predicate SameEdges(show: Version -> string, a: Edges, b: Edges) {
    a.Keys == b.Keys && forall e :: e in a ==> SameEdge(show, a[e], b[e])
  }

  ghost predicate SameHooks(a: Catalog, b: Catalog) {
    forall e :: e in a.edges && e in b.edges ==> multiset(HooksOf(a.hooks, e)) == multiset(HooksOf(b.hooks, e))
  }

  /**
   The same content, up to model providers, the endpoint objects of key-only edges, and
   references with equal texts.
   */
  ghost predicate SameContent(show: Version -> string, a: Catalog, b: Catalog) {
    SameNodes(show, a.nodes, b.nodes) && SameEdges(show, a.edges, b.edges) && SameHooks(a, b)
  }

  function NodeRows(hash: Hasher, g: Graph): seq<(string, string)> {
    ContentOf(hash, g).nodes
  }

  function EdgeRows(hash: Hasher, g: Graph): seq<(string, string, bool)> {
    ContentOf(hash, g).edges
  }

  function HookRows(hash: Hasher, g: Graph): seq<(string, seq<string>)> {
    ContentOf(hash, g).hooks
  }

  lemma {:induction false} NodeRowAt(hash: Hasher, c: Catalog, g: Graph, i: nat)
    requires NodesSnapshot(hash, c, g) && i < |g.backend.nodes|
    ensures |NodeRows(hash, g)| == |g.backend.nodes|
    ensures NodeRows(hash, g)[i] == (NodeDigest(hash, g.backend.nodes[i]), NodeDigest(hash, g.backend.nodes[i]))
  {
    ListedAt(c.nodes, g.backend.nodes, i);
  }

  lemma {:induction false} EdgeRowAt(hash: Hasher, c: Catalog, g: Graph, i: nat)
    requires EdgesSnapshot(hash, c, g) && i < |g.backend.edges|
    ensures var e := g.backend.edges[i];
            && |EdgeRows(hash, g)| == |g.backend.edges| && e in c.edges
            && EdgeRows(hash, g)[i]
                 == (hash.digest(EdgeName(hash.show, e)), EdgeDigest(hash, c.edges[e]), Executable(c.edges[e]))
  {
    assert g.backend.edges[i] in g.backend.edges;
  }

  lemma {:induction false} HookRowAt(hash: Hasher, c: Catalog, g: Graph, i: nat)
    requires HooksSnapshot(hash, c, g) && i < |g.hookIds|
    ensures var e := g.hookIds[i];
            && |HookRows(hash, g)| == |g.hookIds| && e in Hooked(c)
            && HookRows(hash, g)[i]
                 == (hash.digest(EdgeName(hash.show, e)),
                     Texts(HookDigest(hash), SortHooks(HookDigest(hash), HooksOf(c.hooks, e))))
  {
    assert g.hookIds[i] in g.hookIds;
  }

  // ---- the same content has the same revision ----

  ghost predicate SameIds(s: seq<NodeEntry>, t: seq<NodeEntry>) {
    |s| == |t| && forall i :: 0 <= i < |s| ==> s[i].id == t[i].id
  }

  lemma {:induction false} SameKeysSameIds(a: Nodes, b: Nodes, s: seq<NodeEntry>, t: seq<NodeEntry>)
    requires Lists(NodeLess, NodeKey, s, a) && Lists(NodeLess, NodeKey, t, b) && a.Keys == b.Keys
    ensures SameIds(s, t)
  {
    IdsSorted(a, s);
    IdsSorted(b, t);
    NodeOrder();
    SortedUnique(NodeLess, IdsOf(s), IdsOf(t));
    forall i | 0 <= i < |s| ensures s[i].id == t[i].id {
      assert IdsOf(s)[i] == IdsOf(t)[i];
    }
  }

  lemma {:induction false} IdsSorted(a: Nodes, s: seq<NodeEntry>)
    requires Lists(NodeLess, NodeKey, s, a)
    ensures Sorted(NodeLess, IdsOf(s)) && forall id :: id in IdsOf(s) <==> id in a
  {
    forall i, j | 0 <= i < j < |s| ensures NodeLess(IdsOf(s)[i], IdsOf(s)[j]) {
      assert NodeLess(NodeKey(s[i]), NodeKey(s[j]));
    }
    forall id ensures id in IdsOf(s) <==> id in a {
      if id in a {
        var i := RowOf(a, s, id);
        assert IdsOf(s)[i] == id;
      }
      if id in IdsOf(s) {
        var i :| 0 <= i < |s| && IdsOf(s)[i] == id;
        ListedAt(a, s, i);
      }
    }
  }

  lemma {:induction false} SameModelSameDigest(hash: Hasher, m: NodeEntry, n: NodeEntry)
    requires SameModel(hash.show, m, n)
    ensures NodePayload(hash.show, m) == NodePayload(hash.show, n) && NodeDigest(hash, m) == NodeDigest(hash, n)
  {
  }

  lemma {:induction false} SameEdgeSameDigest(hash: Hasher, e: EdgeEntry, f: EdgeEntry)
    requires SameEdge(hash.show, e, f)
    ensures EdgeDigest(hash, e) == EdgeDigest(hash, f)
  {
    if Executable(e) {
      SameModelSameDigest(hash, e.source, f.source);
      SameModelSameDigest(hash, e.target, f.target);
    }
  }

  lemma {:induction false} SameNodesSameRows(hash: Hasher, a: Catalog, b: Catalog, g: Graph, h: Graph)
    requires NodesSnapshot(hash, a, g) && NodesSnapshot(hash, b, h) && SameNodes(hash.show, a.nodes, b.nodes)
    ensures NodeRows(hash, g) == NodeRows(hash, h) && SameIds(g.backend.nodes, h.backend.nodes)
  {
    SameKeysSameIds(a.nodes, b.nodes, g.backend.nodes, h.backend.nodes);
    forall i | 0 <= i < |g.backend.nodes| ensures NodeRows(hash, g)[i] == NodeRows(hash, h)[i] {
      NodeRowAt(hash, a, g, i);
      NodeRowAt(hash, b, h, i);
      ListedAt(a.nodes, g.backend.nodes, i);
      ListedAt(b.nodes, h.backend.nodes, i);
      SameModelSameDigest(hash, g.backend.nodes[i], h.backend.nodes[i]);
    }
  }

  lemma {:induction false} SameEdgesSameRows(hash: Hasher, a: Catalog, b: Catalog, g: Graph, h: Graph)
    requires EdgesSnapshot(hash, a, g) && EdgesSnapshot(hash, b, h) && SameEdges(hash.show, a.edges, b.edges)
    ensures EdgeRows(hash, g) == EdgeRows(hash, h)
  {
    forall e ensures e in g.backend.edges <==> e in h.backend.edges {
      assert e in a.edges.Keys <==> e in b.edges.Keys;
    }
    SameEdgeList(g.backend.edges, h.backend.edges);
    forall i | 0 <= i < |g.backend.edges| ensures EdgeRows(hash, g)[i] == EdgeRows(hash, h)[i] {
      EdgeRowAt(hash, a, g, i);
      EdgeRowAt(hash, b, h, i);
      SameEdgeSameDigest(hash, a.edges[g.backend.edges[i]], b.edges[g.backend.edges[i]]);
    }
  }

  lemma {:induction false} SameHooksSameRows(hash: Hasher, a: Catalog, b: Catalog, g: Graph, h: Graph)
    requires HooksSnapshot(hash, a, g) && HooksSnapshot(hash, b, h) && SameHooks(a, b) && a.edges.Keys == b.edges.Keys
    ensures HookRows(hash, g) == HookRows(hash, h)
  {
    forall e ensures e in g.hookIds <==> e in h.hookIds {
      assert e in a.edges.Keys <==> e in b.edges.Keys;
      if e in a.edges && e in b.edges {
        SameLength(HooksOf(a.hooks, e), HooksOf(b.hooks, e));
      }
    }
    SameEdgeList(g.hookIds, h.hookIds);
    forall i | 0 <= i < |g.hookIds| ensures HookRows(hash, g)[i] == HookRows(hash, h)[i] {
      HookRowAt(hash, a, g, i);
      HookRowAt(hash, b, h, i);
      HookOrderIrrelevant(HookDigest(hash), HooksOf(a.hooks, g.hookIds[i]), HooksOf(b.hooks, g.hookIds[i]));
    }
  }

  lemma {:induction false} SameIdsSameGroups(s: seq<NodeEntry>, t: seq<NodeEntry>, kind: string)
    requires SameIds(s, t)
    ensures SameIds(Filter(s, WithKey(KindOf, kind)), Filter(t, WithKey(KindOf, kind)))
  {
    if s != [] {
      assert s[0].id == t[0].id;
      assert SameIds(s[1..], t[1..]);
      SameIdsSameGroups(s[1..], t[1..], kind);
      var p := WithKey(KindOf, kind);
      assert KindOf(s[0]) == s[0].id.kind && KindOf(t[0]) == t[0].id.kind;
      assert p(s[0]) == p(t[0]);
    }
  }

  lemma {:induction false} SameIdsSameBucket(s: seq<NodeEntry>, t: seq<NodeEntry>, a: map<string, seq<NodeEntry>>,
          b: map<string, seq<NodeEntry>>, kind: string)
    requires Groups(s, KindOf, a) && Groups(t, KindOf, b) && SameIds(s, t)
    ensures kind in a <==> kind in b
    ensures SameIds(Bucket(a, kind), Bucket(b, kind))
  {
    SameIdsSameGroups(s, t, kind);
    assert Bucket(a, kind) == Filter(s, WithKey(KindOf, kind)) && Bucket(b, kind) == Filter(t, WithKey(KindOf, kind));
  }

  lemma {:induction false} SameIdsSameVersions(show: Version -> string, g: Backend, h: Backend)
    requires Consistent(g) && Consistent(h) && SameIds(g.nodes, h.nodes)
    ensures VersionVector(show, g.nodesByKind) == VersionVector(show, h.nodesByKind)
  {
    var v, w := VersionVector(show, g.nodesByKind), VersionVector(show, h.nodesByKind);
    forall kind ensures SameAt(v, w, kind) {
      SameIdsSameBucket(g.nodes, h.nodes, g.nodesByKind, h.nodesByKind, kind);
      SameIdsSameTexts(show, Bucket(g.nodesByKind, kind), Bucket(h.nodesByKind, kind));
      VectorAt(show, g.nodesByKind, kind);
      VectorAt(show, h.nodesByKind, kind);
    }
    SameEverywhere(v, w);
  }

  lemma {:induction false} VectorAt(show: Version -> string, byKind: map<string, seq<NodeEntry>>, kind: string)
    ensures kind in VersionVector(show, byKind) <==> kind in byKind
    ensures kind in byKind ==> VersionVector(show, byKind)[kind] == VersionTexts(show, Bucket(byKind, kind))
  {
  }

  lemma {:induction false} SameIdsSameTexts(show: Version -> string, s: seq<NodeEntry>, t: seq<NodeEntry>)
    requires SameIds(s, t)
    ensures VersionTexts(show, s) == VersionTexts(show, t)
  {
  }

  lemma {:induction false} SameEverywhere<K(!new), V>(a: map<K, V>, b: map<K, V>)
    requires forall k :: SameAt(a, b, k)
    ensures a == b
  {
    forall k ensures (k in a <==> k in b) && (k in a ==> a[k] == b[k]) {
      assert SameAt(a, b, k);
    }
  }

  /** Snapshots of the same content have the same revision, whatever the hash. */
  lemma {:induction false} SameContentSameRevision(hash: Hasher, a: Catalog, b: Catalog, g: Graph, h: Graph)
    requires IsSnapshot(hash, a, g) && IsSnapshot(hash, b, h) && g.space == h.space && SameContent(hash.show, a, b)
    ensures RevisionOf(hash, g) == RevisionOf(hash, h)
  {
    SameNodesSameRows(hash, a, b, g, h);
    SameEdgesSameRows(hash, a, b, g, h);
    SameHooksSameRows(hash, a, b, g, h);
    SameIdsSameVersions(hash.show, g.backend, h.backend);
    assert ContentOf(hash, g) == ContentOf(hash, h);
  }

  // ---- the same revision has the same content ----

  /** The hash tells the two payloads apart. */
  ghost predicate Tells(hash: Hasher, p: Payload, q: Payload) {
    hash.digest(p) == hash.digest(q) ==> p == q
  }

  /** A stored node, or an endpoint of a stored edge. */
  ghost predicate Holds(c: Catalog, n: NodeEntry) {
    (n.id in c.nodes && c.nodes[n.id] == n) ||
    exists e :: e in c.edges && (c.edges[e].source == n || c.edges[e].target == n)
  }

  ghost predicate HasHook(c: Catalog, hook: string) {
    exists e :: e in c.edges && hook in HooksOf(c.hooks, e)
  }

  /** The hash tells the payloads of one catalog's snapshot from those of the other's. */
  ghost predicate Separates(hash: Hasher, a: Catalog, b: Catalog, g: Graph, h: Graph) {
    && (forall m, n :: Holds(a, m) && Holds(b, n) ==> Tells(hash, NodePayload(hash.show, m), NodePayload(hash.show, n)))
    && (forall e, f :: e in a.edges && f in b.edges ==> Tells(hash, EdgeName(hash.show, e), EdgeName(hash.show, f)))
    && (forall e, f :: e in a.edges && f in b.edges ==>
          Tells(hash, EdgePayload(hash, a.edges[e]), EdgePayload(hash, b.edges[f])))
    && (forall x, y :: HasHook(a, x) && HasHook(b, y) ==> Tells(hash, HookContent(x), HookContent(y)))
    && Tells(hash, ContentOf(hash, g), ContentOf(hash, h))
  }

  /** An identity the catalog uses. */
  ghost predicate Uses(c: Catalog, id: NodeId) {
    id in c.nodes || exists e :: e in c.edges && Touches(e, id)
  }

  /** Versions the two catalogs use are written differently. */
  ghost predicate VersionsTold(show: Version -> string, a: Catalog, b: Catalog) {
    forall m, n :: Uses(a, m) && Uses(b, n) && show(m.version) == show(n.version) ==> m.version == n.version
  }

  /** An edge's identity is that of its endpoint objects. */
  ghost predicate EndpointsMatch(c: Catalog) {
    forall e :: e in c.edges ==>
      c.edges[e].id == e && c.edges[e].source.id == e.source && c.edges[e].target.id == e.target
  }

  /** A valid registry's edges do. */
  lemma {:induction false} ValidEndpointsMatch(registry: R.Registry)
    requires registry.Valid()
    ensures EndpointsMatch(Contents(registry))
  {
    forall e | e in registry.edges
      ensures registry.edges[e].id == e && registry.edges[e].source.id == e.source
      ensures registry.edges[e].target.id == e.target
    {
      assert Grounded(registry.nodes, registry.edges[e]);
    }
  }

  // nodes: the version vector gives kinds and versions, the row gives the namespace

  /** The identity with its namespace left out. */
  function Unspaced(id: NodeId): NodeId {
    id.(space := "")
  }

  function UnspacedIds(s: seq<NodeEntry>): (r: seq<NodeId>)
    ensures |r| == |s| && forall i :: 0 <= i < |s| ==> r[i] == Unspaced(s[i].id)
  {
    seq(|s|, i requires 0 <= i < |s| => Unspaced(s[i].id))
  }

  ghost predicate InOneSpace(s: seq<NodeEntry>) {
    forall i, j :: 0 <= i < |s| && 0 <= j < |s| ==> s[i].id.space == s[j].id.space
  }

  lemma {:induction false} UnspacedSorted(s: seq<NodeEntry>)
    requires Sorted(EntryLess, s) && InOneSpace(s)
    ensures Sorted(NodeLess, UnspacedIds(s))
  {
    forall i, j | 0 <= i < j < |s| ensures NodeLess(UnspacedIds(s)[i], UnspacedIds(s)[j]) {
      assert EntryLess(s[i], s[j]) && s[i].id.space == s[j].id.space;
      TextTotal(s[i].id.space, s[j].id.space);
    }
  }

  ghost predicate VersionTold(show: Version -> string, s: seq<NodeEntry>, t: seq<NodeEntry>) {
    forall m, n :: m in s && n in t && show(m.id.version) == show(n.id.version) ==> m.id.version == n.id.version
  }

  lemma {:induction false} VectorCovers(show: Version -> string, g: Backend, h: Backend, i: nat)
    requires Consistent(g) && Consistent(h) && VersionVector(show, g.nodesByKind) == VersionVector(show, h.nodesByKind)
    requires VersionTold(show, g.nodes, h.nodes) && i < |g.nodes|
    ensures Unspaced(g.nodes[i].id) in UnspacedIds(h.nodes)
  {
    var n := g.nodes[i];
    var kind := n.id.kind;
    BucketMembers(g, n);
    VectorAt(show, g.nodesByKind, kind);
    VectorAt(show, h.nodesByKind, kind);
    var s, t := Bucket(g.nodesByKind, kind), Bucket(h.nodesByKind, kind);
    assert n in s;
    var k :| 0 <= k < |s| && s[k] == n;
    assert VersionTexts(show, s)[k] == show(n.id.version);
    assert VersionTexts(show, t)[k] == show(t[k].id.version);
    assert t[k] in t;
    BucketMembers(h, t[k]);
    KindOfBucket(h, kind, t[k]);
    var j :| 0 <= j < |h.nodes| && h.nodes[j] == t[k];
    assert UnspacedIds(h.nodes)[j] == Unspaced(n.id);
  }

  lemma {:induction false} BucketMembers(b: Backend, n: NodeEntry)
    requires Consistent(b)
    ensures n in b.nodes ==> n.id.kind in b.nodesByKind && n in Bucket(b.nodesByKind, n.id.kind)
  {
    assert Bucket(b.nodesByKind, n.id.kind) == Filter(b.nodes, WithKey(KindOf, n.id.kind));
    assert KindOf(n) == n.id.kind && WithKey(KindOf, n.id.kind)(n);
  }

  lemma {:induction false} KindOfBucket(b: Backend, kind: string, n: NodeEntry)
    requires Consistent(b) && n in Bucket(b.nodesByKind, kind)
    ensures n in b.nodes && n.id.kind == kind
  {
    assert Bucket(b.nodesByKind, kind) == Filter(b.nodes, WithKey(KindOf, kind));
    assert WithKey(KindOf, kind)(n) && KindOf(n) == n.id.kind;
  }

  /** Equal version vectors put nodes of equal kind and version at equal positions. */
  lemma {:induction false} SameVectorSameOrder(show: Version -> string, g: Backend, h: Backend)
    requires Consistent(g) && Consistent(h) && VersionVector(show, g.nodesByKind) == VersionVector(show, h.nodesByKind)
    requires VersionTold(show, g.nodes, h.nodes) && VersionTold(show, h.nodes, g.nodes)
    requires InOneSpace(g.nodes) && InOneSpace(h.nodes)
    ensures UnspacedIds(g.nodes) == UnspacedIds(h.nodes)
  {
    UnspacedSorted(g.nodes);
    UnspacedSorted(h.nodes);
    forall id ensures id in UnspacedIds(g.nodes) <==> id in UnspacedIds(h.nodes) {
      if id in UnspacedIds(g.nodes) {
        var i :| 0 <= i < |g.nodes| && UnspacedIds(g.nodes)[i] == id;
        VectorCovers(show, g, h, i);
      }
      if id in UnspacedIds(h.nodes) {
        var i :| 0 <= i < |h.nodes| && UnspacedIds(h.nodes)[i] == id;
        VectorCovers(show, h, g, i);
      }
    }
    NodeOrder();
    SortedUnique(NodeLess, UnspacedIds(g.nodes), UnspacedIds(h.nodes));
  }

  /** Equal payloads of nodes of equal kind and version come from the same identity. */
  lemma {:induction false} SamePayloadSameModel(show: Version -> string, m: NodeEntry, n: NodeEntry)
    requires NodePayload(show, m) == NodePayload(show, n) && Unspaced(m.id) == Unspaced(n.id)
    ensures SameModel(show, m, n)
  {
    if m.Model? {
      SameSpace(m.id.space, n.id.space, ":" + m.id.kind + "@" + show(m.id.version));
      assert NodeText(show, m.id) == m.id.space + (":" + m.id.kind + "@" + show(m.id.version));
      assert NodeText(show, n.id) == n.id.space + (":" + n.id.kind + "@" + show(n.id.version));
    }
  }

  lemma {:induction false} SameSpace(a: string, b: string, rest: string)
    ensures a + rest == b + rest ==> a == b
  {
    if a + rest == b + rest {
      assert |a| == |b|;
      assert (a + rest)[..|a|] == a && (b + rest)[..|b|] == b;
    }
  }

  /** Equal rows and version vectors list the same nodes. */
  lemma {:induction false} SameRowsSameNodes(hash: Hasher, a: Catalog, b: Catalog, g: Graph, h: Graph)
    requires NodesSnapshot(hash, a, g) && NodesSnapshot(hash, b, h) && NodeRows(hash, g) == NodeRows(hash, h)
    requires UnspacedIds(g.backend.nodes) == UnspacedIds(h.backend.nodes)
    requires forall m, n :: Holds(a, m) && Holds(b, n) ==>
              Tells(hash, NodePayload(hash.show, m), NodePayload(hash.show, n))
    ensures SameNodes(hash.show, a.nodes, b.nodes)
  {
    var s, t := g.backend.nodes, h.backend.nodes;
    assert |UnspacedIds(s)| == |UnspacedIds(t)|;
    forall i | 0 <= i < |s| ensures SameModel(hash.show, s[i], t[i]) {
      SameRowSameModel(hash, a, b, g, h, i);
    }
    forall id | id in a.nodes ensures id in b.nodes && SameModel(hash.show, a.nodes[id], b.nodes[id]) {
      var i := RowOf(a.nodes, s, id);
      ListedAt(b.nodes, t, i);
    }
    forall id | id in b.nodes ensures id in a.nodes {
      var i := RowOf(b.nodes, t, id);
      ListedAt(a.nodes, s, i);
    }
  }

  lemma {:induction false} SameRowSameModel(hash: Hasher, a: Catalog, b: Catalog, g: Graph, h: Graph, i: nat)
    requires NodesSnapshot(hash, a, g) && NodesSnapshot(hash, b, h) && NodeRows(hash, g) == NodeRows(hash, h)
    requires UnspacedIds(g.backend.nodes) == UnspacedIds(h.backend.nodes)
    requires i < |g.backend.nodes| && i < |h.backend.nodes|
    requires forall m, n :: Holds(a, m) && Holds(b, n) ==>
              Tells(hash, NodePayload(hash.show, m), NodePayload(hash.show, n))
    ensures SameModel(hash.show, g.backend.nodes[i], h.backend.nodes[i])
  {
    var m, n := g.backend.nodes[i], h.backend.nodes[i];
    NodeRowAt(hash, a, g, i);
    NodeRowAt(hash, b, h, i);
    ListedAt(a.nodes, g.backend.nodes, i);
    ListedAt(b.nodes, h.backend.nodes, i);
    assert Holds(a, m) && Holds(b, n);
    assert Tells(hash, NodePayload(hash.show, m), NodePayload(hash.show, n));
    assert UnspacedIds(g.backend.nodes)[i] == UnspacedIds(h.backend.nodes)[i];
    SamePayloadSameModel(hash.show, m, n);
  }

  // edges: the identity row gives the identity

  lemma {:induction false} SameNameSameEdge(show: Version -> string, a: Catalog, b: Catalog, e: EdgeId, f: EdgeId)
    requires e in a.edges && f in b.edges && VersionsTold(show, a, b) && EdgeName(show, e) == EdgeName(show, f)
    ensures e == f
  {
    assert Touches(e, e.source) && Touches(e, e.target) && Touches(f, f.source) && Touches(f, f.target);
    assert Uses(a, e.source) && Uses(a, e.target) && Uses(b, f.source) && Uses(b, f.target);
  }

  lemma {:induction false} SameEdgePayload(hash: Hasher, e: EdgeEntry, f: EdgeEntry)
    requires e.id == f.id && e.source.id == f.source.id && e.target.id == f.target.id
    requires EdgePayload(hash, e) == EdgePayload(hash, f)
    requires Tells(hash, NodePayload(hash.show, e.source), NodePayload(hash.show, f.source))
    requires Tells(hash, NodePayload(hash.show, e.target), NodePayload(hash.show, f.target))
    ensures SameEdge(hash.show, e, f)
  {
    if Executable(e) {
      SamePayloadSameModel(hash.show, e.source, f.source);
      SamePayloadSameModel(hash.show, e.target, f.target);
    }
  }

  lemma {:induction false} SameEdgeRow(hash: Hasher, a: Catalog, b: Catalog, g: Graph, h: Graph, i: nat)
    requires EdgesSnapshot(hash, a, g) && EdgesSnapshot(hash, b, h) && EndpointsMatch(a) && EndpointsMatch(b)
    requires Separates(hash, a, b, g, h) && VersionsTold(hash.show, a, b)
    requires EdgeRows(hash, g) == EdgeRows(hash, h) && i < |g.backend.edges| && i < |h.backend.edges|
    ensures var e := g.backend.edges[i];
            e == h.backend.edges[i] && e in a.edges && e in b.edges && SameEdge(hash.show, a.edges[e], b.edges[e])
  {
    var e, f := g.backend.edges[i], h.backend.edges[i];
    EdgeRowAt(hash, a, g, i);
    EdgeRowAt(hash, b, h, i);
    assert Tells(hash, EdgeName(hash.show, e), EdgeName(hash.show, f));
    SameNameSameEdge(hash.show, a, b, e, f);
    var x, y := a.edges[e], b.edges[e];
    assert Tells(hash, EdgePayload(hash, x), EdgePayload(hash, y));
    assert Holds(a, x.source) && Holds(a, x.target) && Holds(b, y.source) && Holds(b, y.target);
    SameEdgePayload(hash, x, y);
  }

  lemma {:induction false} SameRowsSameEdges(hash: Hasher, a: Catalog, b: Catalog, g: Graph, h: Graph)
    requires EdgesSnapshot(hash, a, g) && EdgesSnapshot(hash, b, h) && EndpointsMatch(a) && EndpointsMatch(b)
    requires Separates(hash, a, b, g, h) && VersionsTold(hash.show, a, b) && EdgeRows(hash, g) == EdgeRows(hash, h)
    ensures SameEdges(hash.show, a.edges, b.edges)
  {
    assert |EdgeRows(hash, g)| == |g.backend.edges| && |EdgeRows(hash, h)| == |h.backend.edges|;
    forall i | 0 <= i < |g.backend.edges|
      ensures SameEdgeAt(hash.show, a.edges, b.edges, g.backend.edges, h.backend.edges, i)
    {
      SameEdgeRow(hash, a, b, g, h, i);
    }
    EdgesFromRows(hash.show, a.edges, b.edges, g.backend.edges, h.backend.edges);
  }

  ghost predicate SameEdgeAt(show: Version -> string, a: Edges, b: Edges, s: seq<EdgeId>, t: seq<EdgeId>, i: nat)
    requires i < |s| && i < |t|
  {
    s[i] == t[i] && s[i] in a && s[i] in b && SameEdge(show, a[s[i]], b[s[i]])
  }

  lemma {:induction false} EdgesFromRows(show: Version -> string, a: Edges, b: Edges, s: seq<EdgeId>, t: seq<EdgeId>)
    requires (forall e :: e in s <==> e in a) && (forall e :: e in t <==> e in b)
    requires |s| == |t| && forall i :: 0 <= i < |s| ==> SameEdgeAt(show, a, b, s, t, i)
    ensures SameEdges(show, a, b)
  {
    assert s == t by {
      assert forall i :: 0 <= i < |s| ==> SameEdgeAt(show, a, b, s, t, i) ==> s[i] == t[i];
    }
    forall e | e in a ensures e in b && SameEdge(show, a[e], b[e]) {
      var i :| 0 <= i < |s| && s[i] == e;
      assert SameEdgeAt(show, a, b, s, t, i);
    }
  }

  // hooks

  lemma {:induction false} SameHookRow(hash: Hasher, a: Catalog, b: Catalog, g: Graph, h: Graph, i: nat)
    requires HooksSnapshot(hash, a, g) && HooksSnapshot(hash, b, h)
    requires Separates(hash, a, b, g, h) && VersionsTold(hash.show, a, b)
    requires i < |g.hookIds| && i < |h.hookIds| && HookRows(hash, g) == HookRows(hash, h)
    ensures g.hookIds[i] == h.hookIds[i]
    ensures multiset(HooksOf(a.hooks, g.hookIds[i])) == multiset(HooksOf(b.hooks, g.hookIds[i]))
  {
    HookRowAt(hash, a, g, i);
    HookRowAt(hash, b, h, i);
    var e, f := g.hookIds[i], h.hookIds[i];
    assert Tells(hash, EdgeName(hash.show, e), EdgeName(hash.show, f));
    SameNameSameEdge(hash.show, a, b, e, f);
    HooksTold(hash, a, b, g, h, e);
    HookOrderIrrelevant(HookDigest(hash), HooksOf(a.hooks, e), HooksOf(b.hooks, e));
  }

  lemma {:induction false} HooksTold(hash: Hasher, a: Catalog, b: Catalog, g: Graph, h: Graph, e: EdgeId)
    requires Separates(hash, a, b, g, h) && e in a.edges && e in b.edges
    ensures TellsApart(HookDigest(hash), HooksOf(a.hooks, e), HooksOf(b.hooks, e))
  {
    forall x, y | x in HooksOf(a.hooks, e) && y in HooksOf(b.hooks, e) && HookDigest(hash)(x) == HookDigest(hash)(y)
      ensures x == y
    {
      assert HasHook(a, x) && HasHook(b, y);
      assert Tells(hash, HookContent(x), HookContent(y));
    }
  }

  lemma {:induction false} SameRowsSameHooks(hash: Hasher, a: Catalog, b: Catalog, g: Graph, h: Graph)
    requires HooksSnapshot(hash, a, g) && HooksSnapshot(hash, b, h)
    requires Separates(hash, a, b, g, h) && VersionsTold(hash.show, a, b)
    requires HookRows(hash, g) == HookRows(hash, h)
    ensures SameHooks(a, b)
  {
    assert |HookRows(hash, g)| == |g.hookIds| && |HookRows(hash, h)| == |h.hookIds|;
    forall e | e in a.edges && e in b.edges ensures multiset(HooksOf(a.hooks, e)) == multiset(HooksOf(b.hooks, e)) {
      if e in Hooked(a) {
        var i :| 0 <= i < |g.hookIds| && g.hookIds[i] == e;
        SameHookRow(hash, a, b, g, h, i);
      } else if e in Hooked(b) {
        var i :| 0 <= i < |h.hookIds| && h.hookIds[i] == e;
        SameHookRow(hash, a, b, g, h, i);
      }
    }
  }

  // ---- the theorem ----

  lemma {:induction false} OneSpaceListed(c: Catalog, s: seq<NodeEntry>)
    requires OneSpace(c) && Lists(NodeLess, NodeKey, s, c.nodes)
    ensures InOneSpace(s)
  {
    forall i, j | 0 <= i < |s| && 0 <= j < |s| ensures s[i].id.space == s[j].id.space {
      ListedAt(c.nodes, s, i);
      ListedAt(c.nodes, s, j);
      assert UsesSpace(c, s[i].id.space) && UsesSpace(c, s[j].id.space);
    }
  }

  lemma {:induction false} ListedTold(show: Version -> string, a: Catalog, b: Catalog, s: seq<NodeEntry>,
          t: seq<NodeEntry>)
    requires VersionsTold(show, a, b) && Lists(NodeLess, NodeKey, s, a.nodes) && Lists(NodeLess, NodeKey, t, b.nodes)
    ensures VersionTold(show, s, t) && VersionTold(show, t, s)
  {
    forall m, n | m in s && n in t && show(m.id.version) == show(n.id.version) ensures m.id.version == n.id.version {
      assert NodeKey(m) in a.nodes && NodeKey(n) in b.nodes;
      assert Uses(a, m.id) && Uses(b, n.id);
    }
  }

  /**
   Snapshots with the same revision are of the same content, if the hash and the version texts
   tell apart what they hold.
   */
  lemma {:induction false} SameRevisionSameContent(hash: Hasher, a: Catalog, b: Catalog, g: Graph, h: Graph)
    requires IsSnapshot(hash, a, g) && OneSpace(a) && EndpointsMatch(a)
    requires IsSnapshot(hash, b, h) && OneSpace(b) && EndpointsMatch(b)
    requires Separates(hash, a, b, g, h) && VersionsTold(hash.show, a, b)
    requires RevisionOf(hash, g) == RevisionOf(hash, h)
    ensures SameContent(hash.show, a, b)
  {
    assert Tells(hash, ContentOf(hash, g), ContentOf(hash, h));
    OneSpaceListed(a, g.backend.nodes);
    OneSpaceListed(b, h.backend.nodes);
    ListedTold(hash.show, a, b, g.backend.nodes, h.backend.nodes);
    SameVectorSameOrder(hash.show, g.backend, h.backend);
    SameRowsSameNodes(hash, a, b, g, h);
    SameRowsSameEdges(hash, a, b, g, h);
    SameRowsSameHooks(hash, a, b, g, h);
  }

  /**
   Two snapshots of single-namespace catalogs have equal revisions if and only if their
   content is the same, given a hash that tells their payloads apart and version texts that
   tell their versions apart.
   */
  lemma {:induction false} RevisionIdentifiesContent(hash: Hasher, a: Catalog, b: Catalog, g: Graph, h: Graph)
    requires IsSnapshot(hash, a, g) && OneSpace(a) && EndpointsMatch(a)
    requires IsSnapshot(hash, b, h) && OneSpace(b) && EndpointsMatch(b)
    requires g.space == h.space && Separates(hash, a, b, g, h) && VersionsTold(hash.show, a, b)
    ensures RevisionOf(hash, g) == RevisionOf(hash, h) <==> SameContent(hash.show, a, b)
  {
    if SameContent(hash.show, a, b) {
      SameContentSameRevision(hash, a, b, g, h);
    }
    if RevisionOf(hash, g) == RevisionOf(hash, h) {
      SameRevisionSameContent(hash, a, b, g, h);
    }
  }

  /** For two registries: what they compile into has one revision if and only if they have one content. */
  lemma {:induction false} CompiledRevisions(hash: Hasher, x: R.Registry, y: R.Registry, p: (Graph, Revision),
          q: (Graph, Revision))
    requires x.Valid() && y.Valid() && IsCompiled(x, hash, p) && IsCompiled(y, hash, q) && x.space == y.space
    requires Separates(hash, Contents(x), Contents(y), p.0, q.0) && VersionsTold(hash.show, Contents(x), Contents(y))
    ensures p.1 == q.1 <==> SameContent(hash.show, Contents(x), Contents(y))
  {
    ValidEndpointsMatch(x);
    ValidEndpointsMatch(y);
    RevisionIdentifiesContent(hash, Contents(x), Contents(y), p.0, q.0);
  }

  // ---- references ----

  /** Different references have different texts. */
  ghost predicate TextsApart(show: Version -> string, refs: set<NodeId>) {
    forall m, n :: m in refs && n in refs && NodeText(show, m) == NodeText(show, n) ==> m == n
  }

  /** The hashed texts determine which references a model has if and only if no two references in play share a text. */
  lemma {:induction false} TextsDetermineReferences(show: Version -> string, pool: set<NodeId>)
    ensures (forall s, t :: s <= pool && t <= pool && TextCounts(show, s) == TextCounts(show, t) ==> s == t) <==>
              TextsApart(show, pool)
  {
    if TextsApart(show, pool) {
      forall s, t | s <= pool && t <= pool && TextCounts(show, s) == TextCounts(show, t) ensures s == t {
        TextsCover(show, pool, s, t);
        TextsCover(show, pool, t, s);
      }
    } else {
      var m, n :| m in pool && n in pool && NodeText(show, m) == NodeText(show, n) && m != n;
      SingleCounts(show, m);
      SingleCounts(show, n);
      assert {m} <= pool && {n} <= pool && {m} != {n};
    }
  }

  lemma {:induction false} TextsCover(show: Version -> string, pool: set<NodeId>, s: set<NodeId>, t: set<NodeId>)
    requires TextsApart(show, pool) && s <= pool && t <= pool && TextCounts(show, s) == TextCounts(show, t)
    ensures s <= t
  {
    forall r | r in s ensures r in t {
      assert NodeText(show, r) in TextCounts(show, s);
      assert NodeText(show, r) in TextCounts(show, t);
      var q :| q in t && NodeText(show, q) == NodeText(show, r);
    }
  }

  lemma {:induction false} SingleCounts(show: Version -> string, m: NodeId)
    ensures TextCounts(show, {m}) == map[NodeText(show, m) := 1]
  {
    assert WithText(show, {m}, NodeText(show, m)) == {m};
  }

  /** Enough for that: plain version texts, and one namespace or namespaces without a colon. */
  lemma {:induction false} PlainReferencesApart(show: Version -> string, refs: set<NodeId>)
    requires forall m, n :: m in refs && n in refs ==> PlainVersions(show, m, n)
    requires forall m, n :: m in refs && n in refs ==> m.space == n.space || (':' !in m.space && ':' !in n.space)
    ensures TextsApart(show, refs)
  {
    forall m, n | m in refs && n in refs && NodeText(show, m) == NodeText(show, n) ensures m == n {
      NodeTextInjective(show, m, n);
    }
  }

  // ---- a revision that misses a difference ----

  function Referring(reference: NodeId): Catalog {
    var id := NodeId("n", "k", 1.0);
    Catalog(map[id := Model(id, ModelRef("p", "e"), {"f"}, {reference})], map[], map[])
  }

  /**
   References `a:b:c@v` into namespaces `a:b` and `a`: different references, the same content and
   the same revision.
   */
  lemma {:induction false} RevisionMissesReferences(hash: Hasher, g: Graph, h: Graph)
    requires IsSnapshot(hash, Referring(NodeId("a:b", "c", 1.0)), g)
    requires IsSnapshot(hash, Referring(NodeId("a", "b:c", 1.0)), h)
    requires g.space == h.space
    ensures Referring(NodeId("a:b", "c", 1.0)).nodes != Referring(NodeId("a", "b:c", 1.0)).nodes
    ensures RevisionOf(hash, g) == RevisionOf(hash, h)
  {
    var m, n := NodeId("a:b", "c", 1.0), NodeId("a", "b:c", 1.0);
    assert "a:b" + ":" + "c" == "a" + ":" + "b:c";
    assert NodeText(hash.show, m) == NodeText(hash.show, n);
    assert |"a:b"| != |"a"| && m != n;
    ReferringDiffers(m, n);
    ReferringSame(hash.show, m, n);
    SameContentSameRevision(hash, Referring(m), Referring(n), g, h);
  }

  lemma {:induction false} ReferringDiffers(m: NodeId, n: NodeId)
    requires m != n
    ensures Referring(m).nodes != Referring(n).nodes
  {
    var id := NodeId("n", "k", 1.0);
    assert m in Referring(m).nodes[id].references && m !in Referring(n).nodes[id].references;
  }

  lemma {:induction false} ReferringSame(show: Version -> string, m: NodeId, n: NodeId)
    requires NodeText(show, m) == NodeText(show, n)
    ensures SameContent(show, Referring(m), Referring(n))
  {
    SingleCounts(show, m);
    SingleCounts(show, n);
  }
}
