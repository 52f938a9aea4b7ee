/**
 The dependency-free graph backend: the indexes it builds over sorted nodes and
 edges, its breadth-first `shortest_path` and the path reconstruction.
 */
module Indexed {
  import opened Wrappers
  import opened Collections
  import opened Sorting
  import opened Identity
  import opened Search

  datatype Backend = Backend(
    nodes: seq<NodeEntry>,
    edges: seq<EdgeId>,
    nodesByKind: map<string, seq<NodeEntry>>,
    outgoing: map<NodeId, set<EdgeId>>,
    byPair: map<(NodeId, NodeId), seq<EdgeId>>,
    executable: set<EdgeId>)

  function KindOf(n: NodeEntry): string { n.id.kind }

  function SourceOf(e: EdgeId): NodeId { e.source }

  function PairOf(e: EdgeId): (NodeId, NodeId) { (e.source, e.target) }

  function NodesForKind(b: Backend, kind: string): seq<NodeEntry> {
    Bucket(b.nodesByKind, kind)
  }

  function Outgoing(b: Backend, node: NodeId): set<EdgeId> {
    if node in b.outgoing then b.outgoing[node] else {}
  }

  function EdgesBetween(b: Backend, source: NodeId, target: NodeId): seq<EdgeId> {
    Bucket(b.byPair, (source, target))
  }

  /** The indexes agree with the sorted node and edge sequences. */
  ghost predicate Consistent(b: Backend) {
    && Sorted(EntryLess, b.nodes) && Sorted(EdgeLess, b.edges)
    && Groups(b.nodes, KindOf, b.nodesByKind)
    && (forall n, e :: e in Outgoing(b, n) <==> e in b.edges && e.source == n)
    && Groups(b.edges, PairOf, b.byPair)
  }

  /** No bucket of outgoing edges is empty. */
  ghost predicate Tidy(b: Backend) {
    forall n :: n in b.outgoing ==> b.outgoing[n] != {}
  }

  method IndexOutgoing(edges: seq<EdgeId>) returns (outgoing: map<NodeId, set<EdgeId>>)
    ensures forall n, e :: (n in outgoing && e in outgoing[n]) <==> e in edges && e.source == n
    ensures forall n :: n in outgoing ==> outgoing[n] != {}
  {
    outgoing := map[];
    for i := 0 to |edges|
      invariant forall n, e :: (n in outgoing && e in outgoing[n]) <==> e in edges[..i] && e.source == n
      invariant forall n :: n in outgoing ==> outgoing[n] != {}
    {
      var edge := edges[i];
      assert edges[..i + 1] == edges[..i] + [edge];
      var from := if edge.source in outgoing then outgoing[edge.source] else {};
      outgoing := outgoing[edge.source := from + {edge}];
    }
    assert edges[..|edges|] == edges;
  }

  /** `IndexedBackend.build` over nodes and edges given in any order. */
  method Build(nodes: seq<NodeEntry>, edges: seq<EdgeId>, executable: set<EdgeId>) returns (b: Backend)
    requires forall m, n :: m in nodes && n in nodes && m.id == n.id ==> m == n
    ensures Consistent(b) && Tidy(b) && b.executable == executable
    ensures forall n :: n in b.nodes <==> n in nodes
    ensures forall e :: e in b.edges <==> e in edges
  {
    EntryOrder(set n | n in nodes);
    EdgeOrder();
    var orderedNodes := SortSet(EntryLess, set n | n in nodes);
    var orderedEdges := SortSet(EdgeLess, set e | e in edges);
    var nodesByKind := GroupBy(orderedNodes, KindOf);
    var outgoing := IndexOutgoing(orderedEdges);
    var byPair := GroupBy(orderedEdges, PairOf);
    b := Backend(orderedNodes, orderedEdges, nodesByKind, outgoing, byPair, executable);
  }

  // ---- shortest_path ----

  /** The steps that candidate edges offer, in edge order, under the predicate. */
  function Candidates(edges: seq<EdgeId>, allowed: EdgeId -> bool): (r: seq<(NodeId, EdgeId)>)
    ensures forall n, e :: (n, e) in r <==> e in edges && allowed(e) && n == e.target
  {
    if edges == [] then []
    else (if allowed(edges[0]) then [(edges[0].target, edges[0])] else []) + Candidates(edges[1..], allowed)
  }

  function SortedOutgoing(b: Backend, node: NodeId): (r: seq<EdgeId>)
    ensures Sorted(EdgeLess, r) && forall e :: e in r <==> e in Outgoing(b, node)
  {
    EdgeOrder();
    SortSet(EdgeLess, Outgoing(b, node))
  }

  function Endpoints(edges: seq<EdgeId>): (r: set<NodeId>)
    ensures forall e :: e in edges ==> e.source in r && e.target in r
  {
    (set e | e in edges :: e.source) + (set e | e in edges :: e.target)
  }

  /** The network the backend searches: allowed edges out of each node, in identity order. */
  function AllowedNet(b: Backend, allowed: EdgeId -> bool, ends: set<NodeId>): Net<NodeId, EdgeId> {
    Net(ends + Endpoints(b.edges), (n: NodeId) => Candidates(SortedOutgoing(b, n), allowed), SourceOf)
  }

  lemma {:induction false} AllowedNetValid(b: Backend, allowed: EdgeId -> bool, ends: set<NodeId>)
    requires Consistent(b)
    ensures ValidNet(AllowedNet(b, allowed, ends))
  {
    var net := AllowedNet(b, allowed, ends);
    forall n, k | n in net.nodes && 0 <= k < |net.steps(n)|
      ensures net.steps(n)[k].0 in net.nodes && net.source(net.steps(n)[k].1) == n
    {
      var step := net.steps(n)[k];
      assert (step.0, step.1) in Candidates(SortedOutgoing(b, n), allowed);
    }
  }

  /** A connected chain of stored, allowed edges from `a` to `b`. */
  predicate Chain(edges: seq<EdgeId>, allowed: EdgeId -> bool, a: NodeId, b: NodeId, path: seq<EdgeId>)
    decreases |path|
  {
    if path == [] then a == b else
      path[0] in edges && allowed(path[0]) && path[0].source == a && Chain(edges, allowed, path[0].target, b, path[1..])
  }

  lemma {:induction false} ChainSnoc(edges: seq<EdgeId>, allowed: EdgeId -> bool, a: NodeId, b: NodeId,
          path: seq<EdgeId>)
    requires path != []
    ensures var last := path[|path| - 1];
            Chain(edges, allowed, a, b, path) <==>
              last in edges && allowed(last) && last.target == b &&
              Chain(edges, allowed, a, last.source, path[..|path| - 1])
    decreases |path|
  {
    if |path| > 1 {
      ChainSnoc(edges, allowed, path[0].target, b, path[1..]);
      assert path[1..][..|path| - 2] == path[..|path| - 1][1..];
    }
  }

  lemma {:induction false} ChainIsPath(g: Backend, allowed: EdgeId -> bool, ends: set<NodeId>, a: NodeId, b: NodeId,
          path: seq<EdgeId>)
    requires Consistent(g)
    ensures IsPath(AllowedNet(g, allowed, ends), a, b, path) <==> Chain(g.edges, allowed, a, b, path)
    decreases |path|
  {
    if path != [] {
      var last := path[|path| - 1];
      ChainSnoc(g.edges, allowed, a, b, path);
      ChainIsPath(g, allowed, ends, a, last.source, path[..|path| - 1]);
      assert (b, last) in Candidates(SortedOutgoing(g, last.source), allowed)
        <==> last in g.edges && allowed(last) && b == last.target;
    }
  }

  lemma {:induction false} CandidatesStep(edges: seq<EdgeId>, k: nat, allowed: EdgeId -> bool)
    requires k < |edges|
    ensures var here, rest := Candidates(edges[k..], allowed), Candidates(edges[k + 1..], allowed);
            if allowed(edges[k]) then
              here == [(edges[k].target, edges[k])] + rest && here[1..] == rest else here == rest
  {
    assert edges[k..][1..] == edges[k + 1..];
  }

  /** What callers may rely on: a shortest allowed chain, or none because there is none. */
  ghost predicate ShortestChain(b: Backend, allowed: EdgeId -> bool, source: NodeId, target: NodeId,
          r: Option<seq<EdgeId>>)
  {
    match r
    case Some(path) =>
      && Chain(b.edges, allowed, source, target, path)
      && forall other :: Chain(b.edges, allowed, source, target, other) ==> |path| <= |other|
    case None => forall path :: !Chain(b.edges, allowed, source, target, path)
  }

  lemma {:induction false} BfsFindsShortestChain(b: Backend, allowed: EdgeId -> bool, source: NodeId, target: NodeId)
    requires Consistent(b) && ValidNet(AllowedNet(b, allowed, {source, target}))
    ensures ShortestChain(b, allowed, source, target, Bfs(AllowedNet(b, allowed, {source, target}), source, target))
  {
    var net := AllowedNet(b, allowed, {source, target});
    BfsCorrect(net, source, target);
    var r := Bfs(net, source, target);
    if r.Some? {
      ChainIsPath(b, allowed, {source, target}, source, target, r.value);
    }
    forall path | Chain(b.edges, allowed, source, target, path)
      ensures r.Some? && |r.value| <= |path|
    {
      ChainIsPath(b, allowed, {source, target}, source, target, path);
    }
  }

  /**
   `IndexedBackend.shortest_path`: a chain of stored edges that satisfy the predicate,
   of minimum length; `None` exactly when the target cannot be reached.
   */
  method FindShortest(b: Backend, source: NodeId, target: NodeId, allowed: EdgeId -> bool)
    returns (r: Option<seq<EdgeId>>)
    requires Consistent(b)
    ensures ShortestChain(b, allowed, source, target, r)
    ensures ValidNet(AllowedNet(b, allowed, {source, target}))
    ensures r == Bfs(AllowedNet(b, allowed, {source, target}), source, target)
  {
    AllowedNetValid(b, allowed, {source, target});
    BfsFindsShortestChain(b, allowed, source, target);
    r := RunSearch(AllowedNet(b, allowed, {source, target}), source, target);
  }
}
