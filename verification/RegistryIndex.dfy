/** The registry's node and edge indexes as predicates over their abstract contents, and how updates keep them. */
module RegistryIndex {
  import opened Wrappers
  import opened Collections
  import opened Sorting
  import opened SortedLists
  import opened Identity
  import opened Health

  /**
   A stored edge: key-only, or executable with its migration content. The endpoints are objects,
   not just identities.
   */
  datatype EdgeEntry = EdgeEntry(id: EdgeId, source: NodeEntry, target: NodeEntry, migration: Option<string>)

  predicate Executable(e: EdgeEntry) {
    e.migration.Some?
  }

  type Nodes = map<NodeId, NodeEntry>

  type Edges = map<EdgeId, EdgeEntry>

  function NodeKey(n: NodeEntry): NodeId { n.id }

  function EdgeKey(e: EdgeEntry): EdgeId { e.id }

  // ---- nodes ----

  function OfKind(nodes: Nodes, kind: string): Nodes {
    map id | id in nodes && id.kind == kind :: nodes[id]
  }

  /** `_by_versions` lists the nodes in order, and each `_by_kinds[k]` those of kind `k`. */
  ghost predicate NodesIndexed(nodes: Nodes, byVersions: seq<NodeEntry>, byKinds: map<string, seq<NodeEntry>>) {
    Lists(NodeLess, NodeKey, byVersions, nodes) && KindsIndexed(nodes, byKinds)
  }

  ghost predicate KindsIndexed(nodes: Nodes, byKinds: map<string, seq<NodeEntry>>) {
    forall kind :: Lists(NodeLess, NodeKey, Collections.Bucket(byKinds, kind), OfKind(nodes, kind))
  }

  function FindNode(s: seq<NodeEntry>, id: NodeId): Option<NodeEntry> {
    Find(NodeLess, NodeKey, s, id)
  }

  function InsertNode(s: seq<NodeEntry>, n: NodeEntry): seq<NodeEntry> {
    Insert(NodeLess, NodeKey, s, n)
  }

  function DeleteNode(s: seq<NodeEntry>, id: NodeId): seq<NodeEntry> {
    Delete(NodeLess, NodeKey, s, id)
  }

  lemma {:induction false} FindNodeExact(nodes: Nodes, s: seq<NodeEntry>, id: NodeId)
    requires Lists(NodeLess, NodeKey, s, nodes)
    ensures FindNode(s, id) == if id in nodes then Some(nodes[id]) else None
  {
    NodeOrder();
    FindLists(NodeLess, NodeKey, s, nodes, id);
  }

  lemma {:induction false} InsertNodeLists(s: seq<NodeEntry>, nodes: Nodes, n: NodeEntry)
    requires Lists(NodeLess, NodeKey, s, nodes) && n.id !in nodes
    ensures Lists(NodeLess, NodeKey, InsertNode(s, n), nodes[n.id := n])
  {
    NodeOrder();
    InsertLists(NodeLess, NodeKey, s, nodes, n);
  }

  lemma {:induction false} DeleteNodeLists(s: seq<NodeEntry>, nodes: Nodes, id: NodeId)
    requires Lists(NodeLess, NodeKey, s, nodes)
    ensures Lists(NodeLess, NodeKey, DeleteNode(s, id), nodes - {id})
  {
    NodeOrder();
    DeleteLists(NodeLess, NodeKey, s, nodes, id);
  }

  lemma {:induction false} OfKindInsert(nodes: Nodes, n: NodeEntry, kind: string)
    ensures OfKind(nodes[n.id := n], kind) ==
              if kind == n.id.kind then OfKind(nodes, kind)[n.id := n] else OfKind(nodes, kind)
  {
  }

  lemma {:induction false} OfKindDelete(nodes: Nodes, id: NodeId, kind: string)
    ensures OfKind(nodes - {id}, kind) == if kind == id.kind then OfKind(nodes, kind) - {id} else OfKind(nodes, kind)
  {
  }

  lemma {:induction false} KindsInsert(nodes: Nodes, byKinds: map<string, seq<NodeEntry>>, n: NodeEntry)
    requires KindsIndexed(nodes, byKinds) && n.id !in nodes
    ensures KindsIndexed(nodes[n.id := n], byKinds[n.id.kind := InsertNode(Collections.Bucket(byKinds, n.id.kind), n)])
  {
    var after := byKinds[n.id.kind := InsertNode(Collections.Bucket(byKinds, n.id.kind), n)];
    forall kind ensures Lists(NodeLess, NodeKey, Collections.Bucket(after, kind), OfKind(nodes[n.id := n], kind)) {
      OfKindInsert(nodes, n, kind);
      if kind == n.id.kind {
        InsertNodeLists(Collections.Bucket(byKinds, kind), OfKind(nodes, kind), n);
      } else {
        assert Collections.Bucket(after, kind) == Collections.Bucket(byKinds, kind);
      }
    }
  }

  lemma {:induction false} KindsDelete(nodes: Nodes, byKinds: map<string, seq<NodeEntry>>, id: NodeId)
    requires KindsIndexed(nodes, byKinds)
    ensures KindsIndexed(nodes - {id}, byKinds[id.kind := DeleteNode(Collections.Bucket(byKinds, id.kind), id)])
  {
    var after := byKinds[id.kind := DeleteNode(Collections.Bucket(byKinds, id.kind), id)];
    forall kind ensures Lists(NodeLess, NodeKey, Collections.Bucket(after, kind), OfKind(nodes - {id}, kind)) {
      OfKindDelete(nodes, id, kind);
      if kind == id.kind {
        DeleteNodeLists(Collections.Bucket(byKinds, kind), OfKind(nodes, kind), id);
      } else {
        assert Collections.Bucket(after, kind) == Collections.Bucket(byKinds, kind);
      }
    }
  }

  lemma {:induction false} NodesInsert(nodes: Nodes, byVersions: seq<NodeEntry>, byKinds: map<string, seq<NodeEntry>>,
          n: NodeEntry)
    requires NodesIndexed(nodes, byVersions, byKinds) && n.id !in nodes
    ensures NodesIndexed(nodes[n.id := n], InsertNode(byVersions, n),
                         byKinds[n.id.kind := InsertNode(Collections.Bucket(byKinds, n.id.kind), n)])
  {
    InsertNodeLists(byVersions, nodes, n);
    KindsInsert(nodes, byKinds, n);
  }

  lemma {:induction false} NodesDelete(nodes: Nodes, byVersions: seq<NodeEntry>, byKinds: map<string, seq<NodeEntry>>,
          id: NodeId)
    requires NodesIndexed(nodes, byVersions, byKinds)
    ensures NodesIndexed(nodes - {id}, DeleteNode(byVersions, id),
                         byKinds[id.kind := DeleteNode(Collections.Bucket(byKinds, id.kind), id)])
  {
    DeleteNodeLists(byVersions, nodes, id);
    KindsDelete(nodes, byKinds, id);
  }

  function IsKind(kind: string): NodeEntry -> bool {
    (n: NodeEntry) => n.id.kind == kind
  }

  /** Each per-kind list is exactly the kind's subsequence of the version list. */
  lemma {:induction false} KindListIsSubsequence(nodes: Nodes, byVersions: seq<NodeEntry>,
          byKinds: map<string, seq<NodeEntry>>, kind: string)
    requires NodesIndexed(nodes, byVersions, byKinds)
    ensures Collections.Bucket(byKinds, kind) == Filter(byVersions, IsKind(kind))
  {
    NodeOrder();
    FilterLists(NodeLess, NodeKey, byVersions, nodes, IsKind(kind), OfKind(nodes, kind));
    ListsUnique(NodeLess, NodeKey, Collections.Bucket(byKinds, kind), Filter(byVersions, IsKind(kind)),
        OfKind(nodes, kind));
  }

  // ---- edges ----

  function EdgesOfKind(edges: Edges, kind: string): Edges {
    map id | id in edges && id.source.kind == kind :: edges[id]
  }

  predicate Touches(id: EdgeId, n: NodeId) {
    id.source == n || id.target == n
  }

  function EdgesTouching(edges: Edges, n: NodeId): Edges {
    map id | id in edges && Touches(id, n) :: edges[id]
  }

  function TouchBucket(touching: map<NodeId, Edges>, n: NodeId): Edges {
    if n in touching then touching[n] else map[]
  }

  /**
   Each kind's edge list is sorted and exact; each endpoint's bucket holds exactly the edges
   touching it, and none is empty.
   */
  ghost predicate EdgesIndexed(edges: Edges, migrations: map<string, seq<EdgeEntry>>, touching: map<NodeId, Edges>) {
    && (forall kind :: Lists(EdgeLess, EdgeKey, Collections.Bucket(migrations, kind), EdgesOfKind(edges, kind)))
    && (forall n :: TouchBucket(touching, n) == EdgesTouching(edges, n))
    && (forall n :: n in touching ==> touching[n] != map[])
    && EdgesKeyed(edges)
  }

  ghost predicate EdgesKeyed(edges: Edges) {
    forall id :: id in edges ==> edges[id].id == id
  }

  function FindEdgeEntry(s: seq<EdgeEntry>, id: EdgeId): Option<EdgeEntry> {
    Find(EdgeLess, EdgeKey, s, id)
  }

  function InsertEdge(s: seq<EdgeEntry>, e: EdgeEntry): seq<EdgeEntry> {
    Insert(EdgeLess, EdgeKey, s, e)
  }

  function DeleteEdge(s: seq<EdgeEntry>, id: EdgeId): seq<EdgeEntry> {
    Delete(EdgeLess, EdgeKey, s, id)
  }

  lemma {:induction false} EdgeListLength(s: seq<EdgeEntry>, edges: Edges)
    requires Lists(EdgeLess, EdgeKey, s, edges)
    ensures |s| == |edges|
  {
    EdgeOrder();
    ListsLength(EdgeLess, EdgeKey, s, edges);
  }

  lemma {:induction false} FindEdgeExact(edges: Edges, migrations: map<string, seq<EdgeEntry>>,
          touching: map<NodeId, Edges>, id: EdgeId)
    requires EdgesIndexed(edges, migrations, touching)
    ensures FindEdgeEntry(Collections.Bucket(migrations, id.source.kind), id) ==
              if id in edges then Some(edges[id]) else None
  {
    EdgeOrder();
    FindLists(EdgeLess, EdgeKey, Collections.Bucket(migrations, id.source.kind), EdgesOfKind(edges, id.source.kind),
        id);
  }

  /** `bucket.discard(edge)` at one endpoint, deleting an emptied bucket. */
  function Untouch(touching: map<NodeId, Edges>, n: NodeId, id: EdgeId): (after: map<NodeId, Edges>)
    ensures TouchBucket(after, n) == TouchBucket(touching, n) - {id}
    ensures forall m :: m != n ==> TouchBucket(after, m) == TouchBucket(touching, m)
    ensures (forall m :: m in touching ==> touching[m] != map[]) ==> forall m :: m in after ==> after[m] != map[]
  {
    if n !in touching then touching else
      var bucket := touching[n] - {id};
      if bucket == map[] then touching - {n} else touching[n := bucket]
  }

  function Touch(touching: map<NodeId, Edges>, n: NodeId, e: EdgeEntry): (after: map<NodeId, Edges>)
    ensures e.id !in TouchBucket(touching, n) ==> TouchBucket(after, n) == TouchBucket(touching, n)[e.id := e]
    ensures e.id in TouchBucket(touching, n) ==> TouchBucket(after, n) == TouchBucket(touching, n)
    ensures forall m :: m != n ==> TouchBucket(after, m) == TouchBucket(touching, m)
    ensures (forall m :: m in touching ==> touching[m] != map[]) ==> forall m :: m in after ==> after[m] != map[]
  {
    var bucket := TouchBucket(touching, n);
    touching[n := if e.id in bucket then bucket else bucket[e.id := e]]
  }

  lemma {:induction false} InsertEdgeLists(s: seq<EdgeEntry>, edges: Edges, e: EdgeEntry)
    requires Lists(EdgeLess, EdgeKey, s, edges) && e.id !in edges
    ensures Lists(EdgeLess, EdgeKey, InsertEdge(s, e), edges[e.id := e])
  {
    EdgeOrder();
    InsertLists(EdgeLess, EdgeKey, s, edges, e);
  }

  lemma {:induction false} DeleteEdgeLists(s: seq<EdgeEntry>, edges: Edges, id: EdgeId)
    requires Lists(EdgeLess, EdgeKey, s, edges)
    ensures Lists(EdgeLess, EdgeKey, DeleteEdge(s, id), edges - {id})
  {
    EdgeOrder();
    DeleteLists(EdgeLess, EdgeKey, s, edges, id);
  }

  lemma {:induction false} EdgesOfKindInsert(edges: Edges, e: EdgeEntry, kind: string)
    ensures EdgesOfKind(edges[e.id := e], kind) ==
            if kind == e.id.source.kind then EdgesOfKind(edges, kind)[e.id := e] else EdgesOfKind(edges, kind)
  {
  }

  lemma {:induction false} EdgesInsert(edges: Edges, migrations: map<string, seq<EdgeEntry>>,
          touching: map<NodeId, Edges>, e: EdgeEntry)
    requires EdgesIndexed(edges, migrations, touching) && e.id !in edges
    ensures EdgesIndexed(edges[e.id := e],
                         migrations[e.id.source.kind :=
                           InsertEdge(Collections.Bucket(migrations, e.id.source.kind), e)],
                         Touch(Touch(touching, e.id.source, e), e.id.target, e))
  {
    var kind := e.id.source.kind;
    var after := migrations[kind := InsertEdge(Collections.Bucket(migrations, kind), e)];
    forall k ensures Lists(EdgeLess, EdgeKey, Collections.Bucket(after, k), EdgesOfKind(edges[e.id := e], k)) {
      EdgesOfKindInsert(edges, e, k);
      if k == kind {
        InsertEdgeLists(Collections.Bucket(migrations, k), EdgesOfKind(edges, k), e);
      } else {
        assert Collections.Bucket(after, k) == Collections.Bucket(migrations, k);
      }
    }
    TouchInsert(edges, touching, e);
  }

  lemma {:induction false} TouchInsert(edges: Edges, touching: map<NodeId, Edges>, e: EdgeEntry)
    requires e.id !in edges && forall n :: TouchBucket(touching, n) == EdgesTouching(edges, n)
    ensures forall n :: TouchBucket(Touch(Touch(touching, e.id.source, e), e.id.target, e), n)
              == EdgesTouching(edges[e.id := e], n)
  {
    var first := Touch(touching, e.id.source, e);
    var second := Touch(first, e.id.target, e);
    forall n ensures TouchBucket(second, n) == EdgesTouching(edges[e.id := e], n) {
      if Touches(e.id, n) {
        assert EdgesTouching(edges[e.id := e], n) == EdgesTouching(edges, n)[e.id := e];
      } else {
        assert EdgesTouching(edges[e.id := e], n) == EdgesTouching(edges, n);
      }
    }
  }

  lemma {:induction false} TouchDelete(edges: Edges, touching: map<NodeId, Edges>, id: EdgeId)
    requires forall n :: TouchBucket(touching, n) == EdgesTouching(edges, n)
    ensures forall n ::
              TouchBucket(Untouch(Untouch(touching, id.source, id), id.target, id), n) == EdgesTouching(edges - {id}, n)
  {
    var second := Untouch(Untouch(touching, id.source, id), id.target, id);
    forall n ensures TouchBucket(second, n) == EdgesTouching(edges - {id}, n) {
      if Touches(id, n) {
        assert EdgesTouching(edges - {id}, n) == EdgesTouching(edges, n) - {id};
      } else {
        assert EdgesTouching(edges - {id}, n) == EdgesTouching(edges, n);
      }
    }
  }

  lemma {:induction false} EdgesOfKindDelete(edges: Edges, id: EdgeId, kind: string)
    ensures EdgesOfKind(edges - {id}, kind) ==
              if kind == id.source.kind then EdgesOfKind(edges, kind) - {id} else EdgesOfKind(edges, kind)
  {
  }

  lemma {:induction false} EdgesDelete(edges: Edges, migrations: map<string, seq<EdgeEntry>>,
          touching: map<NodeId, Edges>, id: EdgeId)
    requires EdgesIndexed(edges, migrations, touching)
    ensures EdgesIndexed(edges - {id},
                         migrations[id.source.kind := DeleteEdge(Collections.Bucket(migrations, id.source.kind), id)],
                         Untouch(Untouch(touching, id.source, id), id.target, id))
  {
    var kind := id.source.kind;
    var after := migrations[kind := DeleteEdge(Collections.Bucket(migrations, kind), id)];
    forall k ensures Lists(EdgeLess, EdgeKey, Collections.Bucket(after, k), EdgesOfKind(edges - {id}, k)) {
      EdgesOfKindDelete(edges, id, k);
      if k == kind {
        DeleteEdgeLists(Collections.Bucket(migrations, k), EdgesOfKind(edges, k), id);
      } else {
        assert Collections.Bucket(after, k) == Collections.Bucket(migrations, k);
      }
    }
    TouchDelete(edges, touching, id);
  }

  /** Dropping an empty per-kind list changes nothing. */
  lemma {:induction false} EmptyKindDropped(edges: Edges, migrations: map<string, seq<EdgeEntry>>,
          touching: map<NodeId, Edges>, kind: string)
    requires EdgesIndexed(edges, migrations, touching) && Collections.Bucket(migrations, kind) == []
    ensures EdgesIndexed(edges, migrations - {kind}, touching)
  {
    forall k ensures Collections.Bucket(migrations - {kind}, k) == Collections.Bucket(migrations, k) {
    }
  }

  // ---- the digest index ----

  /** No other stored executable edge has the digest of `e`. */
  ghost predicate NoClash(on: bool, digestOf: EdgeEntry -> string, edges: Edges, e: EdgeEntry) {
    on && Executable(e) ==>
      forall id :: id in edges && id != e.id && Executable(edges[id]) ==> digestOf(edges[id]) != digestOf(e)
  }

  /** When on, the digest index maps exactly the digests of the executable edges to those edges. */
  ghost predicate DigestsExact(on: bool, digestOf: EdgeEntry -> string, edges: Edges, index: map<string, EdgeId>) {
    if !on then index == map[] else
      && (forall d :: d in index ==> index[d] in edges && Executable(edges[index[d]]) && digestOf(edges[index[d]]) == d)
      && (forall id :: id in edges && Executable(edges[id]) ==>
              digestOf(edges[id]) in index && index[digestOf(edges[id])] == id)
  }

  /** Inserting an edge keeps the digest index exact if and only if its digest is not in use. */
  lemma {:induction false} DigestsInsert(on: bool, digestOf: EdgeEntry -> string, edges: Edges,
          index: map<string, EdgeId>, e: EdgeEntry)
    requires DigestsExact(on, digestOf, edges, index) && EdgesKeyed(edges) && e.id !in edges
    ensures DigestsExact(on, digestOf, edges[e.id := e],
              if Executable(e) && on then index[digestOf(e) := e.id] else index) <==>
            NoClash(on, digestOf, edges, e)
  {
    if !NoClash(on, digestOf, edges, e) {
      var id :| id in edges && id != e.id && Executable(edges[id]) && digestOf(edges[id]) == digestOf(e);
      assert edges[e.id := e][id] == edges[id];
    }
  }

  lemma {:induction false} NoClashIgnoresSelf(on: bool, digestOf: EdgeEntry -> string, edges: Edges, e: EdgeEntry)
    ensures NoClash(on, digestOf, edges - {e.id}, e) <==> NoClash(on, digestOf, edges, e)
  {
    forall id | id in edges && id != e.id ensures id in edges - {e.id} && (edges - {e.id})[id] == edges[id] {
    }
  }

  lemma {:induction false} DigestsDelete(on: bool, digestOf: EdgeEntry -> string, edges: Edges,
          index: map<string, EdgeId>, e: EdgeEntry)
    requires DigestsExact(on, digestOf, edges, index) && EdgesKeyed(edges) && e.id in edges && edges[e.id] == e
    ensures DigestsExact(on, digestOf, edges - {e.id}, if on && Executable(e) then index - {digestOf(e)} else index)
  {
  }

  // ---- the contents determine the indexes ----

  lemma {:induction false} NodeListsUnique(nodes: Nodes, a: seq<NodeEntry>, b: seq<NodeEntry>)
    requires Lists(NodeLess, NodeKey, a, nodes) && Lists(NodeLess, NodeKey, b, nodes)
    ensures a == b
  {
    NodeOrder();
    ListsUnique(NodeLess, NodeKey, a, b, nodes);
  }

  lemma {:induction false} EdgeListsUnique(edges: Edges, a: seq<EdgeEntry>, b: seq<EdgeEntry>)
    requires Lists(EdgeLess, EdgeKey, a, edges) && Lists(EdgeLess, EdgeKey, b, edges)
    ensures a == b
  {
    EdgeOrder();
    ListsUnique(EdgeLess, EdgeKey, a, b, edges);
  }

  lemma {:induction false} TouchUnique(edges: Edges, a: map<NodeId, Edges>, b: map<NodeId, Edges>)
    requires forall n :: TouchBucket(a, n) == EdgesTouching(edges, n)
    requires forall n :: TouchBucket(b, n) == EdgesTouching(edges, n)
    requires (forall n :: n in a ==> a[n] != map[]) && (forall n :: n in b ==> b[n] != map[])
    ensures a == b
  {
    forall n ensures (n in a <==> n in b) && (n in a ==> a[n] == b[n]) {
      assert TouchBucket(a, n) == EdgesTouching(edges, n) && TouchBucket(b, n) == EdgesTouching(edges, n);
    }
  }

  lemma {:induction false} DigestsUnique(on: bool, digestOf: EdgeEntry -> string, edges: Edges, a: map<string, EdgeId>,
          b: map<string, EdgeId>)
    requires DigestsExact(on, digestOf, edges, a) && DigestsExact(on, digestOf, edges, b)
    ensures a == b
  {
    if on {
      assert forall d :: d in a ==> d in b && a[d] == b[d];
      assert forall d :: d in b ==> d in a;
    }
  }
}
