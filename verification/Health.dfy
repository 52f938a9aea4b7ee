/**
 The reference and health indexes of the registry, and the missing-reference rule they
 track.  Python's sets and dicts of nodes compare by identity, so a bucket is a map from
 identity to the object it holds.  Edges carry no references and no such issues.
 */
module Health {
  import opened Wrappers
  import opened Identity

  /** One missing-reference issue of a node. */
  datatype Issue = Issue(reference: NodeId, local: bool)

  function References(n: NodeEntry): set<NodeId> {
    if n.Model? then n.references else {}
  }

  /** The issues `MissingReferencesLinter` reports for a node. */
  function Missing(space: string, stored: set<NodeId>, n: NodeEntry): set<Issue> {
    set r | r in References(n) && !(r.space == space && r in stored) :: Issue(r, r.space == space)
  }

  type Bucket = map<NodeId, NodeEntry>

  type RefTable = map<NodeId, Bucket>

  function Referrers(to: RefTable, r: NodeId): Bucket {
    if r in to then to[r] else map[]
  }

  /** The stored nodes that reference `r`. */
  function Referencing(nodes: map<NodeId, NodeEntry>, r: NodeId): Bucket {
    map id | id in nodes && r in References(nodes[id]) :: nodes[id]
  }

  /** `referencesTo` is the exact inverse of the nodes' references, with no empty bucket. */
  ghost predicate Inverse(nodes: map<NodeId, NodeEntry>, to: RefTable) {
    (forall r :: Referrers(to, r) == Referencing(nodes, r)) && (forall r :: r in to ==> to[r] != map[])
  }

  ghost predicate Forward(nodes: map<NodeId, NodeEntry>, refs: map<NodeId, set<NodeId>>) {
    && (forall id :: id in refs <==> id in nodes && References(nodes[id]) != {})
    && (forall id :: id in refs ==> refs[id] == References(nodes[id]))
  }

  function IssuesOf(issues: map<NodeId, set<Issue>>, id: NodeId): set<Issue> {
    if id in issues then issues[id] else {}
  }

  /** The issues of a node with this identity, recomputed from scratch. */
  function Recomputed(space: string, nodes: map<NodeId, NodeEntry>, id: NodeId): set<Issue> {
    if id in nodes then Missing(space, nodes.Keys, nodes[id]) else {}
  }

  ghost predicate IssuesExact(space: string, nodes: map<NodeId, NodeEntry>, issues: map<NodeId, set<Issue>>) {
    (forall id :: IssuesOf(issues, id) == Recomputed(space, nodes, id)) &&
    (forall id :: id in issues ==> issues[id] != {})
  }

  function Affected(spaces: map<string, set<NodeId>>, space: string): set<NodeId> {
    if space in spaces then spaces[space] else {}
  }

  ghost predicate NamespacesExact(issues: map<NodeId, set<Issue>>, spaces: map<string, set<NodeId>>) {
    && (forall space, id :: id in Affected(spaces, space) <==> id in issues && id.space == space)
    && (forall space :: space in spaces ==> spaces[space] != {})
  }

  /** Only nodes that reference a changed identity, and the node itself, can change their issues. */
  lemma {:induction false} UnaffectedKeepsIssues(space: string, stored: set<NodeId>, changed: NodeId, n: NodeEntry)
    requires changed !in References(n)
    ensures Missing(space, stored + {changed}, n) == Missing(space, stored, n)
    ensures Missing(space, stored - {changed}, n) == Missing(space, stored, n)
  {
  }

  // ---- updating the inverse index ----

  /** Drop `id` from the bucket of `r`, deleting the bucket when it becomes empty. */
  function Discard(to: RefTable, r: NodeId, id: NodeId): (after: RefTable)
    ensures Referrers(after, r) == Referrers(to, r) - {id}
    ensures forall s :: s != r ==> Referrers(after, s) == Referrers(to, s)
    ensures (forall s :: s in to ==> to[s] != map[]) ==> forall s :: s in after ==> after[s] != map[]
  {
    if r !in to then to else
      var bucket := to[r] - {id};
      if bucket == map[] then to - {r} else to[r := bucket]
  }

  /** `setdefault(r, set()).add(entity)` */
  function Add(to: RefTable, r: NodeId, entity: NodeEntry): (after: RefTable)
    ensures entity.id !in Referrers(to, r) ==> Referrers(after, r) == Referrers(to, r)[entity.id := entity]
    ensures forall s :: s != r ==> Referrers(after, s) == Referrers(to, s)
    ensures (forall s :: s in to ==> to[s] != map[]) ==> forall s :: s in after ==> after[s] != map[]
  {
    var bucket := Referrers(to, r);
    to[r := if entity.id in bucket then bucket else bucket[entity.id := entity]]
  }

  /** Remove the entity from the buckets of its old references, one reference at a time. */
  method RemoveReferences(ghost nodes: map<NodeId, NodeEntry>, to0: RefTable, old0: set<NodeId>, id: NodeId)
    returns (to: RefTable)
    requires Inverse(nodes, to0) && forall r :: id in Referencing(nodes, r) ==> r in old0
    ensures Inverse(nodes - {id}, to)
  {
    to := to0;
    var left := old0;
    while left != {}
      invariant left <= old0
      invariant forall r :: r in left ==> Referrers(to, r) == Referencing(nodes, r)
      invariant forall r :: r !in left ==> Referrers(to, r) == Referencing(nodes - {id}, r)
      invariant forall r :: r in to ==> to[r] != map[]
      decreases left
    {
      var r :| r in left;
      assert Referencing(nodes, r) - {id} == Referencing(nodes - {id}, r);
      to := Discard(to, r, id);
      left := left - {r};
    }
  }

  /** Add the entity to the buckets of its references, one reference at a time. */
  method AddReferences(ghost nodes: map<NodeId, NodeEntry>, to0: RefTable, entity: NodeEntry) returns (to: RefTable)
    requires Inverse(nodes, to0) && entity.id !in nodes
    ensures Inverse(nodes[entity.id := entity], to)
  {
    to := to0;
    var left := References(entity);
    while left != {}
      invariant left <= References(entity)
      invariant forall r :: r in left ==> Referrers(to, r) == Referencing(nodes, r)
      invariant forall r :: r !in left ==> Referrers(to, r) == Referencing(nodes[entity.id := entity], r)
      invariant forall r :: r in to ==> to[r] != map[]
      decreases left
    {
      var r :| r in left;
      assert Referencing(nodes, r)[entity.id := entity] == Referencing(nodes[entity.id := entity], r);
      to := Add(to, r, entity);
      left := left - {r};
    }
  }
}
