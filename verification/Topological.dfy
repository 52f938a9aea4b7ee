/** Kahn's sort, `IndexedBackend.topological_sort`, with its exact failure conditions. */
module Topological {
  import opened Wrappers
  import opened Collections
  import opened Sorting
  import opened Identity
  import opened Indexed

  datatype SortError = MissingNode(id: NodeId) | Cycle

  // ---- directed cycles ----

  function AnyEdge(): EdgeId -> bool { (e: EdgeId) => true }

  /** A non-empty chain of stored edges that returns to its start. */
  ghost predicate IsCycle(edges: seq<EdgeId>, a: NodeId, cycle: seq<EdgeId>) {
    cycle != [] && Chain(edges, AnyEdge(), a, a, cycle)
  }

  ghost predicate HasCycle(edges: seq<EdgeId>) {
    exists a, cycle :: IsCycle(edges, a, cycle)
  }

  function NodeAt(path: seq<EdgeId>, end: NodeId, i: nat): NodeId
    requires i <= |path|
  {
    if i < |path| then path[i].source else end
  }

  lemma {:induction false} ChainPrefix(edges: seq<EdgeId>, a: NodeId, b: NodeId, path: seq<EdgeId>, i: nat)
    requires Chain(edges, AnyEdge(), a, b, path) && i <= |path|
    ensures Chain(edges, AnyEdge(), a, NodeAt(path, b, i), path[..i])
    decreases |path|
  {
    if i > 0 {
      ChainPrefix(edges, path[0].target, b, path[1..], i - 1);
      assert path[..i][1..] == path[1..][..i - 1];
    }
  }

  ghost predicate HasPredecessor(edges: seq<EdgeId>, stuck: set<NodeId>, n: NodeId) {
    exists e :: e in edges && e.target == n && e.source in stuck
  }

  ghost predicate OnPath(path: seq<EdgeId>, end: NodeId, n: NodeId) {
    exists i :: 0 <= i <= |path| && NodeAt(path, end, i) == n
  }

  ghost predicate EachHasPredecessor(edges: seq<EdgeId>, stuck: set<NodeId>) {
    forall n {:trigger HasPredecessor(edges, stuck, n)} :: n in stuck ==> HasPredecessor(edges, stuck, n)
  }

  /** Walking backwards among finitely many nodes that each have a predecessor must close a cycle. */
  lemma {:induction false} WalkBack(edges: seq<EdgeId>, stuck: set<NodeId>, current: NodeId, end: NodeId,
          path: seq<EdgeId>, visited: set<NodeId>)
    requires EachHasPredecessor(edges, stuck) && current in stuck && visited <= stuck
    requires Chain(edges, AnyEdge(), current, end, path)
    requires forall n :: n in visited ==> OnPath(path, end, n)
    requires current in visited
    ensures HasCycle(edges)
    decreases |stuck - visited|
  {
    assert HasPredecessor(edges, stuck, current);
    var e :| e in edges && e.target == current && e.source in stuck;
    var longer := [e] + path;
    assert longer[1..] == path;
    if e.source in visited {
      assert OnPath(path, end, e.source);
      var i :| 0 <= i <= |path| && NodeAt(path, end, i) == e.source;
      ChainPrefix(edges, current, end, path, i);
      var cycle := [e] + path[..i];
      assert cycle[1..] == path[..i];
      assert IsCycle(edges, e.source, cycle);
    } else {
      var more := visited + {e.source};
      assert stuck - more == (stuck - visited) - {e.source};
      forall n | n in more ensures OnPath(longer, end, n) {
        if n == e.source {
          assert NodeAt(longer, end, 0) == n;
        } else {
          assert OnPath(path, end, n);
          var i :| 0 <= i <= |path| && NodeAt(path, end, i) == n;
          assert NodeAt(longer, end, i + 1) == n;
        }
      }
      WalkBack(edges, stuck, e.source, end, longer, more);
    }
  }

  lemma {:induction false} StuckHasCycle(edges: seq<EdgeId>, stuck: set<NodeId>)
    requires EachHasPredecessor(edges, stuck) && stuck != {}
    ensures HasCycle(edges)
  {
    var n :| n in stuck;
    assert NodeAt([], n, 0) == n && OnPath([], n, n);
    WalkBack(edges, stuck, n, n, [], {n});
  }

  // ---- orders with every edge forward ----

  /** Every edge into a listed node comes from a node listed before it. */
  ghost predicate Forward(edges: seq<EdgeId>, order: seq<NodeId>) {
    forall j, e :: 0 <= j < |order| && e in edges && e.target == order[j] ==> e.source in order[..j]
  }

  lemma {:induction false} ForwardExcludesCycles(edges: seq<EdgeId>, order: seq<NodeId>, a: NodeId, b: NodeId,
          path: seq<EdgeId>, j: nat)
    requires Forward(edges, order) && Distinct(order) && j < |order| && order[j] == b
    requires Chain(edges, AnyEdge(), a, b, path) && path != []
    ensures a in order[..j]
    decreases |path|
  {
    ChainSnoc(edges, AnyEdge(), a, b, path);
    var last := path[|path| - 1];
    var rest := path[..|path| - 1];
    assert last.source in order[..j];
    if rest != [] {
      var i :| 0 <= i < j && order[..j][i] == last.source;
      ForwardExcludesCycles(edges, order, a, last.source, rest, i);
      assert order[..i] == order[..j][..i];
    }
  }

  lemma {:induction false} ForwardIsAcyclic(edges: seq<EdgeId>, order: seq<NodeId>)
    requires Forward(edges, order) && Distinct(order) && forall e :: e in edges ==> e.target in order
    ensures !HasCycle(edges)
  {
    forall a, cycle | IsCycle(edges, a, cycle) ensures false {
      ChainSnoc(edges, AnyEdge(), a, a, cycle);
      var j :| 0 <= j < |order| && order[j] == a;
      ForwardExcludesCycles(edges, order, a, a, cycle, j);
    }
  }

  // ---- in-degree bookkeeping ----

  /** The edges into `n` that have not been removed yet. */
  ghost function Pending(edges: seq<EdgeId>, n: NodeId, removed: set<EdgeId>): set<EdgeId> {
    set e | e in edges && e.target == n && e !in removed
  }

  ghost predicate Counts(ids: set<NodeId>, edges: seq<EdgeId>, removed: set<EdgeId>, indegree: map<NodeId, int>) {
    indegree.Keys == ids && forall n :: n in ids ==> indegree[n] == |Pending(edges, n, removed)|
  }

  lemma {:induction false} RemoveEdge(edges: seq<EdgeId>, e: EdgeId, removed: set<EdgeId>, n: NodeId)
    requires e in edges && e !in removed
    ensures |Pending(edges, n, removed + {e})| == |Pending(edges, n, removed)| - (if e.target == n then 1 else 0)
    ensures e.target == n ==> |Pending(edges, n, removed)| > 0
  {
    var before, after := Pending(edges, n, removed), Pending(edges, n, removed + {e});
    if e.target == n {
      assert after == before - {e} && e in before;
    } else {
      assert after == before;
    }
  }

  function Ids(nodes: seq<NodeEntry>): set<NodeId> {
    set n | n in nodes :: n.id
  }

  /** `indegree[target] += 1` for every edge; a target that is not a node raises KeyError. */
  method CountIncoming(nodes: seq<NodeEntry>, edges: seq<EdgeId>) returns (r: Result<map<NodeId, int>, SortError>)
    requires Sorted(EdgeLess, edges)
    ensures r.Ok? ==> Counts(Ids(nodes), edges, {}, r.value) && forall e :: e in edges ==> e.target in Ids(nodes)
    ensures r.Err? ==> r.error.MissingNode? && exists e :: e in edges && e.target !in Ids(nodes)
  {
    var indegree: map<NodeId, int> := map n | n in Ids(nodes) :: 0;
    for i := 0 to |edges|
      invariant Counts(Ids(nodes), edges[..i], {}, indegree)
      invariant forall e :: e in edges[..i] ==> e.target in Ids(nodes)
    {
      var edge := edges[i];
      if edge.target !in indegree {
        assert edge in edges;
        return Err(MissingNode(edge.target));
      }
      CountOne(Ids(nodes), edges, i, indegree);
      assert edges[..i + 1] == edges[..i] + [edge];
      indegree := indegree[edge.target := indegree[edge.target] + 1];
    }
    assert edges[..|edges|] == edges;
    return Ok(indegree);
  }

  lemma {:induction false} CountOne(ids: set<NodeId>, edges: seq<EdgeId>, i: nat, indegree: map<NodeId, int>)
    requires Sorted(EdgeLess, edges) && i < |edges| && edges[i].target in ids && Counts(ids, edges[..i], {}, indegree)
    ensures Counts(ids, edges[..i + 1], {}, indegree[edges[i].target := indegree[edges[i].target] + 1])
  {
    AddEdge(edges, i);
  }

  lemma {:induction false} AddEdge(edges: seq<EdgeId>, i: nat)
    requires Sorted(EdgeLess, edges) && i < |edges|
    ensures forall n :: |Pending(edges[..i + 1], n, {})|
                     == |Pending(edges[..i], n, {})| + (if edges[i].target == n then 1 else 0)
  {
    EdgeOrder();
    var e := edges[i];
    assert e !in edges[..i] by {
      forall k | 0 <= k < i ensures edges[..i][k] != e {
        assert EdgeLess(edges[k], edges[i]);
      }
    }
    forall n
      ensures |Pending(edges[..i + 1], n, {})| == |Pending(edges[..i], n, {})| + (if e.target == n then 1 else 0)
    {
      assert edges[..i + 1] == edges[..i] + [e];
      var before, after := Pending(edges[..i], n, {}), Pending(edges[..i + 1], n, {});
      if e.target == n {
        assert after == before + {e};
      } else {
        assert after == before;
      }
    }
  }

  /** The queue discipline: listed and ready nodes are exactly those without pending edges. */
  ghost predicate Frontier(ids: set<NodeId>, indegree: map<NodeId, int>, ordered: seq<NodeId>, ready: seq<NodeId>)
    requires indegree.Keys == ids
  {
    && Distinct(ordered + ready)
    && (forall n :: n in ordered + ready <==> n in ids && indegree[n] == 0)
  }

  lemma {:induction false} ReleaseOne(ids: set<NodeId>, edges: seq<EdgeId>, gone: set<EdgeId>,
          indegree: map<NodeId, int>, ordered: seq<NodeId>, ready: seq<NodeId>, e: EdgeId)
    requires Counts(ids, edges, gone, indegree) && Frontier(ids, indegree, ordered, ready)
    requires e in edges && e !in gone && e.target in ids
    ensures e.target in indegree
    ensures var after := indegree[e.target := indegree[e.target] - 1];
            && Counts(ids, edges, gone + {e}, after)
            && Frontier(ids, after, ordered, if after[e.target] == 0 then ready + [e.target] else ready)
  {
    var n := e.target;
    forall m ensures |Pending(edges, m, gone + {e})| == |Pending(edges, m, gone)| - (if n == m then 1 else 0)
                  && (n == m ==> |Pending(edges, m, gone)| > 0)
    {
      RemoveEdge(edges, e, gone, m);
    }
    assert n !in ordered + ready;
    assert ordered + (ready + [n]) == (ordered + ready) + [n];
  }

  /** The inner loop: remove the edges out of a listed node, releasing nodes that lose their last one. */
  method ReleaseEdges(ids: set<NodeId>, edges: seq<EdgeId>, out: seq<EdgeId>, indegree0: map<NodeId, int>,
                      ordered: seq<NodeId>, ready0: seq<NodeId>, ghost removed: set<EdgeId>)
    returns (indegree: map<NodeId, int>, ready: seq<NodeId>)
    requires Counts(ids, edges, removed, indegree0) && Frontier(ids, indegree0, ordered, ready0)
    requires forall e :: e in edges ==> e.target in ids
    requires Distinct(out) && forall e :: e in out ==> e in edges && e !in removed
    ensures Counts(ids, edges, removed + (set e | e in out), indegree)
    ensures Frontier(ids, indegree, ordered, ready)
  {
    indegree, ready := indegree0, ready0;
    ghost var gone := removed;
    for k := 0 to |out|
      invariant gone == removed + (set e | e in out[..k])
      invariant Counts(ids, edges, gone, indegree) && Frontier(ids, indegree, ordered, ready)
    {
      var e := out[k];
      var n := e.target;
      assert e in out && e in edges;
      assert e !in gone by { assert forall i :: 0 <= i < k ==> out[..k][i] != e; }
      ghost var seen := out[..k + 1];
      assert seen == out[..k] + [e];
      assert gone + {e} == removed + (set f | f in seen);
      ReleaseOne(ids, edges, gone, indegree, ordered, ready, e);
      indegree := indegree[n := indegree[n] - 1];
      gone := gone + {e};
      if indegree[n] == 0 {
        ready := ready + [n];
      }
    }
    assert out[..|out|] == out;
  }

  lemma {:induction false} DistinctSize<T(!new)>(s: seq<T>)
    requires Distinct(s)
    ensures |set x | x in s| == |s|
  {
    if s != [] {
      DistinctSize(s[1..]);
      assert (set x | x in s) == (set x | x in s[1..]) + {s[0]};
    }
  }

  lemma {:induction false} SameSizeSubset<T(!new)>(a: set<T>, b: set<T>)
    requires a <= b
    ensures |a| <= |b| && (|a| == |b| ==> a == b)
  {
    var rest := b - a;
    assert b == a + rest && |b| == |a| + |rest|;
  }

  /** Some edge's source is not a node. */
  ghost predicate Dangling(ids: set<NodeId>, edges: seq<EdgeId>) {
    exists e :: e in edges && e.source !in ids
  }

  /** Some edge's target is not a node. */
  ghost predicate Unregistered(ids: set<NodeId>, edges: seq<EdgeId>) {
    exists e :: e in edges && e.target !in ids
  }

  /** A permutation of the nodes with every edge going forward. */
  ghost predicate TopologicalOrder(ids: set<NodeId>, edges: seq<EdgeId>, order: seq<NodeId>) {
    && Distinct(order) && (forall n :: n in order <==> n in ids)
    && Forward(edges, order)
    && forall e :: e in edges ==> e.source in order && e.target in order
  }

  ghost function RemovedBy(edges: seq<EdgeId>, ordered: seq<NodeId>): set<EdgeId> {
    set e | e in edges && e.source in ordered
  }

  ghost predicate SortState(ids: set<NodeId>, edges: seq<EdgeId>, indegree: map<NodeId, int>, ordered: seq<NodeId>,
          ready: seq<NodeId>)
  {
    && Counts(ids, edges, RemovedBy(edges, ordered), indegree)
    && Frontier(ids, indegree, ordered, ready)
    && Distinct(ordered) && Forward(edges, ordered)
  }

  lemma {:induction false} UnlistedWaits(ids: set<NodeId>, edges: seq<EdgeId>, indegree: map<NodeId, int>,
          ordered: seq<NodeId>, n: NodeId)
    returns (e: EdgeId)
    requires SortState(ids, edges, indegree, ordered, []) && n in ids && n !in ordered
    ensures e in edges && e.target == n && e.source !in ordered
  {
    assert ordered + [] == ordered;
    var pending := Pending(edges, n, RemovedBy(edges, ordered));
    assert indegree[n] != 0 && pending != {};
    e :| e in pending;
  }

  /** When nothing is ready, what is left unlisted contains a cycle or hangs on a dangling source. */
  lemma {:induction false} StuckMeansCycle(ids: set<NodeId>, edges: seq<EdgeId>, indegree: map<NodeId, int>,
          ordered: seq<NodeId>, some: NodeId)
    requires SortState(ids, edges, indegree, ordered, []) && some in ids && some !in ordered
    ensures HasCycle(edges) || Dangling(ids, edges)
  {
    if !Dangling(ids, edges) {
      var stuck := set n | n in ids && n !in ordered;
      forall n | n in stuck ensures HasPredecessor(edges, stuck, n) {
        var e := UnlistedWaits(ids, edges, indegree, ordered, n);
      }
      assert some in stuck;
      StuckHasCycle(edges, stuck);
    }
  }

  lemma {:induction false} ListNext(ids: set<NodeId>, edges: seq<EdgeId>, indegree: map<NodeId, int>,
          ordered: seq<NodeId>, ready: seq<NodeId>)
    requires SortState(ids, edges, indegree, ordered, ready) && ready != []
    ensures ready[0] in ids && ready[0] !in ordered
    ensures Distinct(ordered + [ready[0]]) && Forward(edges, ordered + [ready[0]])
    ensures Frontier(ids, indegree, ordered + [ready[0]], ready[1..])
  {
    var current, longer := ready[0], ordered + [ready[0]];
    assert longer + ready[1..] == ordered + ready;
    assert (ordered + ready)[|ordered|] == current && current in ordered + ready;
    assert current !in ordered by {
      assert forall i :: 0 <= i < |ordered| ==> (ordered + ready)[i] == ordered[i];
    }
    forall j, e | 0 <= j < |longer| && e in edges && e.target == longer[j] ensures e.source in longer[..j] {
      assert longer[..j] == ordered[..j];
      if j == |ordered| {
        assert |Pending(edges, current, RemovedBy(edges, ordered))| == 0;
        assert e !in Pending(edges, current, RemovedBy(edges, ordered));
      }
    }
  }

  lemma {:induction false} RemovedNext(b: Backend, ordered: seq<NodeId>, current: NodeId)
    requires Consistent(b) && current !in ordered
    ensures forall e :: e in SortedOutgoing(b, current) ==> e in b.edges && e !in RemovedBy(b.edges, ordered)
    ensures RemovedBy(b.edges, ordered + [current])
              == RemovedBy(b.edges, ordered) + (set e | e in SortedOutgoing(b, current))
    ensures Distinct(SortedOutgoing(b, current))
  {
    EdgeOrder();
  }

  function ZeroNodes(ids: set<NodeId>, indegree: map<NodeId, int>): (r: seq<NodeId>)
    requires indegree.Keys == ids
    ensures Distinct(r) && forall n :: n in r <==> n in ids && indegree[n] == 0
  {
    NodeOrder();
    SortSet(NodeLess, set n | n in ids && indegree[n] == 0)
  }

  lemma {:induction false} ListedFit(ids: set<NodeId>, edges: seq<EdgeId>, indegree: map<NodeId, int>,
          ordered: seq<NodeId>, ready: seq<NodeId>)
    requires SortState(ids, edges, indegree, ordered, ready) && ready != []
    ensures |ordered| < |ids|
  {
    var all := ordered + ready;
    DistinctSize(all);
    SameSizeSubset((set n | n in all), ids);
  }

  method ListOne(b: Backend, ids: set<NodeId>, indegree0: map<NodeId, int>, ordered: seq<NodeId>, ready0: seq<NodeId>)
    returns (indegree: map<NodeId, int>, ready: seq<NodeId>)
    requires Consistent(b) && !Unregistered(ids, b.edges) && ready0 != []
    requires SortState(ids, b.edges, indegree0, ordered, ready0)
    ensures SortState(ids, b.edges, indegree, ordered + [ready0[0]], ready) && |ordered| < |ids|
  {
    ListedFit(ids, b.edges, indegree0, ordered, ready0);
    ListNext(ids, b.edges, indegree0, ordered, ready0);
    RemovedNext(b, ordered, ready0[0]);
    indegree, ready := ReleaseEdges(ids, b.edges, SortedOutgoing(b, ready0[0]), indegree0,
                                    ordered + [ready0[0]], ready0[1..], RemovedBy(b.edges, ordered));
  }

  lemma {:induction false} NothingListed(ids: set<NodeId>, edges: seq<EdgeId>, indegree: map<NodeId, int>)
    requires Counts(ids, edges, {}, indegree)
    ensures SortState(ids, edges, indegree, [], ZeroNodes(ids, indegree))
  {
    assert RemovedBy(edges, []) == {};
    assert [] + ZeroNodes(ids, indegree) == ZeroNodes(ids, indegree);
  }

  /** The main loop: list ready nodes until none is left. */
  method ListReady(b: Backend, ids: set<NodeId>, indegree0: map<NodeId, int>)
    returns (indegree: map<NodeId, int>, ordered: seq<NodeId>)
    requires Consistent(b) && Counts(ids, b.edges, {}, indegree0) && !Unregistered(ids, b.edges)
    ensures SortState(ids, b.edges, indegree, ordered, [])
  {
    indegree, ordered := indegree0, [];
    var ready := ZeroNodes(ids, indegree);
    NothingListed(ids, b.edges, indegree);
    while ready != []
      invariant SortState(ids, b.edges, indegree, ordered, ready)
      decreases |ids| - |ordered|
    {
      var current := ready[0];
      indegree, ready := ListOne(b, ids, indegree, ordered, ready);
      ordered := ordered + [current];
    }
  }

  lemma {:induction false} NoneOmitted<T(!new)>(a: set<T>, b: set<T>)
    requires a <= b && b - a == {}
    ensures a == b
  {
    forall y | y in b ensures y in a {
      assert y !in b - a;
    }
  }

  lemma {:induction false} Omitted<T(!new)>(a: set<T>, b: set<T>) returns (x: T)
    requires a <= b && a != b
    ensures x in b && x !in a
  {
    if b - a == {} {
      NoneOmitted(a, b);
    }
    x :| x in b - a;
  }

  lemma {:induction false} CompleteIsOrder(ids: set<NodeId>, edges: seq<EdgeId>, indegree: map<NodeId, int>,
          ordered: seq<NodeId>)
    requires SortState(ids, edges, indegree, ordered, []) && !Unregistered(ids, edges)
    ensures |ordered| == |indegree| ==>
              TopologicalOrder(ids, edges, ordered) && !HasCycle(edges) && !Dangling(ids, edges)
    ensures |ordered| != |indegree| ==> HasCycle(edges) || Dangling(ids, edges)
  {
    var listed := set n | n in ordered;
    assert ordered + [] == ordered;
    DistinctSize(ordered);
    SameSizeSubset(listed, ids);
    assert |indegree| == |indegree.Keys|;
    if |ordered| == |indegree| {
      forall e | e in edges ensures e.source in ordered && e.target in ordered {
        assert e.target in listed;
        var j :| 0 <= j < |ordered| && ordered[j] == e.target;
        assert e.source in ordered[..j];
      }
      ForwardIsAcyclic(edges, ordered);
    } else {
      assert listed != ids;
      var some := Omitted(listed, ids);
      StuckMeansCycle(ids, edges, indegree, ordered, some);
    }
  }

  /**
   `topological_sort`: a permutation of the nodes with every edge forward.  It raises
   KeyError exactly when some edge's target is not a node, and otherwise the cycle error
   exactly when there is a directed cycle or an edge whose source is not a node.
   */
  method TopologicalSort(b: Backend) returns (r: Result<seq<NodeId>, SortError>)
    requires Consistent(b)
    ensures r.Ok? ==> TopologicalOrder(Ids(b.nodes), b.edges, r.value)
    ensures r.Err? && r.error.MissingNode? <==> Unregistered(Ids(b.nodes), b.edges)
    ensures r == Err(Cycle) <==>
              !Unregistered(Ids(b.nodes), b.edges) && (HasCycle(b.edges) || Dangling(Ids(b.nodes), b.edges))
  {
    var ids := Ids(b.nodes);
    var counted := CountIncoming(b.nodes, b.edges);
    if counted.Err? { return Err(counted.error); }
    var indegree, ordered := ListReady(b, ids, counted.value);
    CompleteIsOrder(ids, b.edges, indegree, ordered);
    if |ordered| != |indegree| { return Err(Cycle); }
    return Ok(ordered);
  }
}
