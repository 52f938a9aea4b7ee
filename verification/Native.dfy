/**
 The native-graph backend: the same search over integer node indices, with parallel
 edges resolved afterwards.  It returns edge for edge what the indexed backend returns.
 */
module Native {
  import opened Wrappers
  import opened Collections
  import opened Sorting
  import opened Identity
  import opened Search
  import opened Indexed

  // ---- first steps to each target ----

  function FirstTo<N(==), E>(steps: seq<(N, E)>, n: N): Option<E> {
    if steps == [] then None else if steps[0].0 == n then Some(steps[0].1) else FirstTo(steps[1..], n)
  }

  lemma {:induction false} FirstToOthers<N(!new), E(!new)>(steps: seq<(N, E)>, m: N, n: N)
    ensures FirstTo(Others(steps, m), n) == if m == n then None else FirstTo(steps, n)
    decreases |steps|
  {
    if steps != [] {
      FirstToOthers(steps[1..], m, n);
      var rest := Others(steps[1..], m);
      assert ([steps[0]] + rest)[1..] == rest && [] + rest == rest;
    }
  }

  lemma {:induction false} FirstStepsAre<N(!new), E(!new)>(steps: seq<(N, E)>, n: N, e: E)
    ensures (n, e) in FirstSteps(steps) <==> FirstTo(steps, n) == Some(e)
    decreases |steps|
  {
    if steps != [] {
      var rest := Others(steps[1..], steps[0].0);
      FirstToOthers(steps[1..], steps[0].0, n);
      FirstStepsAre(rest, n, e);
      assert (n, e) in FirstSteps(steps) <==> (n, e) == steps[0] || (n, e) in FirstSteps(rest);
    }
  }

  /** The steps are grouped by target, in target order. */
  ghost predicate ByTarget<N(!new), E(!new)>(less: (N, N) -> bool, steps: seq<(N, E)>) {
    forall i, j :: 0 <= i < j < |steps| ==> steps[i].0 == steps[j].0 || less(steps[i].0, steps[j].0)
  }

  ghost predicate TargetsAbove<N(!new), E(!new)>(less: (N, N) -> bool, m: N, steps: seq<(N, E)>) {
    forall k :: 0 <= k < |steps| ==> less(m, steps[k].0)
  }

  lemma {:induction false} OthersByTarget<N(!new), E(!new)>(less: (N, N) -> bool, steps: seq<(N, E)>, m: N)
    requires ByTarget(less, steps) && forall k :: 0 <= k < |steps| ==> m == steps[k].0 || less(m, steps[k].0)
    ensures ByTarget(less, Others(steps, m)) && TargetsAbove(less, m, Others(steps, m))
    ensures forall x :: x in Others(steps, m) ==> x in steps
    decreases |steps|
  {
    if steps != [] {
      OthersByTarget(less, steps[1..], m);
      var rest := Others(steps[1..], m);
      forall k | 0 <= k < |rest| ensures steps[0].0 == rest[k].0 || less(steps[0].0, rest[k].0) {
        assert rest[k] in steps[1..];
        var i :| 0 <= i < |steps[1..]| && steps[1..][i] == rest[k];
        assert steps[i + 1] == rest[k];
      }
    }
  }

  lemma {:induction false} FirstStepsIncrease<N(!new), E(!new)>(less: (N, N) -> bool, steps: seq<(N, E)>, m: Option<N>)
    requires ByTarget(less, steps) && (m.Some? ==> TargetsAbove(less, m.value, steps))
    ensures m.Some? ==> TargetsAbove(less, m.value, FirstSteps(steps))
    ensures forall i, j :: 0 <= i < j < |FirstSteps(steps)| ==> less(FirstSteps(steps)[i].0, FirstSteps(steps)[j].0)
    decreases |steps|
  {
    if steps != [] {
      var n := steps[0].0;
      OthersByTarget(less, steps[1..], n);
      var rest := Others(steps[1..], n);
      FirstStepsIncrease(less, rest, Some(n));
      if m.Some? {
        forall k | 0 <= k < |rest| ensures less(m.value, rest[k].0) {
          assert rest[k] in steps[1..];
          var i :| 0 <= i < |steps[1..]| && steps[1..][i] == rest[k];
          assert steps[i + 1] == rest[k];
        }
        FirstStepsIncrease(less, rest, m);
      }
    }
  }

  // ---- the least allowed edge between two nodes ----

  function FirstAllowed(edges: seq<EdgeId>, allowed: EdgeId -> bool): Option<EdgeId> {
    if edges == [] then None else if allowed(edges[0]) then Some(edges[0]) else FirstAllowed(edges[1..], allowed)
  }

  ghost predicate IsLeast(edges: seq<EdgeId>, allowed: EdgeId -> bool, e: EdgeId) {
    e in edges && allowed(e) && forall other :: other in edges && allowed(other) && other != e ==> EdgeLess(e, other)
  }

  lemma {:induction false} FirstAllowedMember(edges: seq<EdgeId>, allowed: EdgeId -> bool)
    requires FirstAllowed(edges, allowed).Some?
    ensures FirstAllowed(edges, allowed).value in edges
  {
    if !allowed(edges[0]) {
      FirstAllowedMember(edges[1..], allowed);
    }
  }

  lemma {:induction false} FirstIsLeast(edges: seq<EdgeId>, allowed: EdgeId -> bool, e: EdgeId)
    requires Sorted(EdgeLess, edges)
    ensures FirstAllowed(edges, allowed) == Some(e) <==> IsLeast(edges, allowed, e)
  {
    EdgeOrder();
    if edges != [] {
      SortedTail(EdgeLess, edges);
      FirstIsLeast(edges[1..], allowed, e);
    }
  }

  function ToTarget(allowed: EdgeId -> bool, target: NodeId): EdgeId -> bool {
    (e: EdgeId) => allowed(e) && e.target == target
  }

  lemma {:induction false} FirstCandidate(edges: seq<EdgeId>, allowed: EdgeId -> bool, target: NodeId)
    ensures FirstTo(Candidates(edges, allowed), target) == FirstAllowed(edges, ToTarget(allowed, target))
  {
    if edges != [] {
      FirstCandidate(edges[1..], allowed, target);
      CandidatesStep(edges, 0, allowed);
      assert edges[0..] == edges;
    }
  }

  /** `_edge_to` */
  function EdgeTo(b: Backend, source: NodeId, target: NodeId, allowed: EdgeId -> bool): Option<EdgeId> {
    FirstAllowed(EdgesBetween(b, source, target), allowed)
  }

  lemma {:induction false} SameFirst(a: seq<EdgeId>, p: EdgeId -> bool, b: seq<EdgeId>, q: EdgeId -> bool)
    requires Sorted(EdgeLess, a) && Sorted(EdgeLess, b)
    requires forall e :: e in a && p(e) <==> e in b && q(e)
    ensures FirstAllowed(a, p) == FirstAllowed(b, q)
  {
    var first, second := FirstAllowed(a, p), FirstAllowed(b, q);
    if first.Some? {
      FirstIsLeast(a, p, first.value);
      FirstIsLeast(b, q, first.value);
    } else if second.Some? {
      FirstIsLeast(a, p, second.value);
      FirstIsLeast(b, q, second.value);
    }
  }

  /** The first candidate to a target and the delegate's first allowed parallel edge are the same edge. */
  lemma {:induction false} EdgeToIsFirstCandidate(b: Backend, source: NodeId, target: NodeId, allowed: EdgeId -> bool)
    requires Consistent(b)
    ensures EdgeTo(b, source, target, allowed) == FirstTo(Candidates(SortedOutgoing(b, source), allowed), target)
  {
    var between, out := EdgesBetween(b, source, target), SortedOutgoing(b, source);
    FirstCandidate(out, allowed, target);
    BetweenFacts(b, source, target);
    forall e: EdgeId ensures e in between && allowed(e) <==> e in out && ToTarget(allowed, target)(e) {
    }
    SameFirst(between, allowed, out, ToTarget(allowed, target));
  }

  lemma {:induction false} BetweenFacts(b: Backend, source: NodeId, target: NodeId)
    requires Consistent(b)
    ensures Sorted(EdgeLess, EdgesBetween(b, source, target))
    ensures forall e :: e in EdgesBetween(b, source, target) <==>
              e in b.edges && e.source == source && e.target == target
  {
    assert EdgesBetween(b, source, target) == Filter(b.edges, WithKey(PairOf, (source, target)));
    FilterSorted(EdgeLess, b.edges, WithKey(PairOf, (source, target)));
    forall e ensures WithKey(PairOf, (source, target))(e) <==> e.source == source && e.target == target {
      assert PairOf(e) == (e.source, e.target);
    }
  }

  // ---- the native network ----

  function InsertIndex(s: seq<nat>, x: nat): (r: seq<nat>)
    requires forall i, j :: 0 <= i < j < |s| ==> s[i] <= s[j]
    ensures forall i, j :: 0 <= i < j < |r| ==> r[i] <= r[j]
    ensures forall y :: y in r <==> y == x || y in s
  {
    if s == [] then [x]
    else if x <= s[0] then
      assert s[0] in s;
      [x] + s
    else
      var rest := InsertIndex(s[1..], x);
      assert forall y :: y in s <==> y == s[0] || y in s[1..];
      assert forall k :: 0 <= k < |rest| ==> s[0] <= rest[k] by {
        forall k | 0 <= k < |rest| ensures s[0] <= rest[k] {
          assert rest[k] in rest;
        }
      }
      [s[0]] + rest
  }

  /** `sorted(indices)`; the native adjacency may repeat a neighbour for parallel edges. */
  function SortIndices(s: seq<nat>): (r: seq<nat>)
    ensures forall i, j :: 0 <= i < j < |r| ==> r[i] <= r[j]
    ensures forall y :: y in r <==> y in s
  {
    if s == [] then [] else
      assert forall y :: y in s <==> y == s[0] || y in s[1..];
      InsertIndex(SortIndices(s[1..]), s[0])
  }

  /** The native graph: the delegate, and the adjacency lists the native library holds for it. */
  datatype NativeGraph = NativeGraph(delegate: Backend, out: nat -> seq<nat>)

  ghost predicate EndpointsRegistered(b: Backend) {
    forall e :: e in b.edges ==> Registered(b.nodes, e.source) && Registered(b.nodes, e.target)
  }

  /** Every edge endpoint is a registered node, and the native adjacency is exactly the edge set. */
  ghost predicate Faithful(g: NativeGraph) {
    var nodes := g.delegate.nodes;
    && Consistent(g.delegate)
    && EndpointsRegistered(g.delegate)
    && (forall i, j :: 0 <= i < |nodes| && j in g.out(i) ==> j < |nodes|)
    && (forall i, j :: 0 <= i < |nodes| && 0 <= j < |nodes| ==>
          (j in g.out(i) <==> exists e :: e in g.delegate.edges && e.source == nodes[i].id && e.target == nodes[j].id))
  }

  predicate Registered(nodes: seq<NodeEntry>, id: NodeId) {
    exists i :: 0 <= i < |nodes| && nodes[i].id == id
  }

  /** `index_by_id` (the number of nodes stands for a missing key). */
  function IndexOf(nodes: seq<NodeEntry>, id: NodeId): (i: nat)
    ensures i <= |nodes| && (i < |nodes| ==> nodes[i].id == id)
    ensures Registered(nodes, id) ==> i < |nodes|
  {
    if nodes == [] then 0 else if nodes[0].id == id then 0 else
      assert Registered(nodes, id) ==> Registered(nodes[1..], id) by {
        if Registered(nodes, id) {
          var i :| 0 <= i < |nodes| && nodes[i].id == id;
          assert nodes[1..][i - 1].id == id;
        }
      }
      1 + IndexOf(nodes[1..], id)
  }

  lemma {:induction false} IndexUnique(nodes: seq<NodeEntry>, i: nat)
    requires Sorted(EntryLess, nodes) && i < |nodes|
    ensures IndexOf(nodes, nodes[i].id) == i
  {
    NodeOrder();
    assert Registered(nodes, nodes[i].id);
    var k := IndexOf(nodes, nodes[i].id);
    assert k < i ==> EntryLess(nodes[k], nodes[i]);
    assert i < k ==> EntryLess(nodes[i], nodes[k]);
  }

  function IndexSteps(b: Backend, i: nat, targets: seq<nat>, allowed: EdgeId -> bool): seq<(nat, EdgeId)>
    requires i < |b.nodes| && forall j :: j in targets ==> j < |b.nodes|
  {
    if targets == [] then [] else
      assert targets[0] in targets && forall j :: j in targets[1..] ==> j in targets;
      var edge := EdgeTo(b, b.nodes[i].id, b.nodes[targets[0]].id, allowed);
      (if edge.Some? then [(targets[0], edge.value)] else []) + IndexSteps(b, i, targets[1..], allowed)
  }

  function NativeSteps(g: NativeGraph, i: nat, allowed: EdgeId -> bool): seq<(nat, EdgeId)> {
    if i < |g.delegate.nodes| && forall j :: j in g.out(i) ==> j < |g.delegate.nodes| then
      IndexSteps(g.delegate, i, SortIndices(g.out(i)), allowed)
    else []
  }

  function NativeNet(g: NativeGraph, allowed: EdgeId -> bool): Net<nat, EdgeId> {
    Net(set i | i in Positions(|g.delegate.nodes|), (i: nat) => NativeSteps(g, i, allowed),
        (e: EdgeId) => IndexOf(g.delegate.nodes, e.source))
  }

  lemma {:induction false} IndexStepsAre(b: Backend, i: nat, targets: seq<nat>, allowed: EdgeId -> bool)
    requires i < |b.nodes| && (forall j :: j in targets ==> j < |b.nodes|)
    requires forall k, l :: 0 <= k < l < |targets| ==> targets[k] <= targets[l]
    ensures forall k :: 0 <= k < |IndexSteps(b, i, targets, allowed)| ==>
              IndexSteps(b, i, targets, allowed)[k].0 in targets
              && EdgeTo(b, b.nodes[i].id, b.nodes[IndexSteps(b, i, targets, allowed)[k].0].id, allowed)
                 == Some(IndexSteps(b, i, targets, allowed)[k].1)
    ensures ByTarget((m: nat, n: nat) => m < n, IndexSteps(b, i, targets, allowed))
    decreases |targets|
  {
    if targets != [] {
      assert forall j :: j in targets[1..] ==> j in targets;
      assert targets[0] in targets;
      IndexStepsAre(b, i, targets[1..], allowed);
      var rest := IndexSteps(b, i, targets[1..], allowed);
      forall k | 0 <= k < |rest| ensures targets[0] <= rest[k].0 {
        var l :| 0 <= l < |targets[1..]| && targets[1..][l] == rest[k].0;
        assert targets[l + 1] == rest[k].0;
      }
    }
  }

  lemma {:induction false} FirstToIndexSteps(b: Backend, i: nat, targets: seq<nat>, allowed: EdgeId -> bool, j: nat)
    requires i < |b.nodes| && j < |b.nodes| && forall k :: k in targets ==> k < |b.nodes|
    ensures FirstTo(IndexSteps(b, i, targets, allowed), j)
         == if j in targets then EdgeTo(b, b.nodes[i].id, b.nodes[j].id, allowed) else None
    decreases |targets|
  {
    if targets != [] {
      assert targets[0] in targets && forall k :: k in targets[1..] ==> k in targets;
      FirstToIndexSteps(b, i, targets[1..], allowed, j);
      var rest := IndexSteps(b, i, targets[1..], allowed);
      var edge := EdgeTo(b, b.nodes[i].id, b.nodes[targets[0]].id, allowed);
      assert edge.Some? ==> ([(targets[0], edge.value)] + rest)[1..] == rest;
      assert edge.None? ==> IndexSteps(b, i, targets, allowed) == rest;
    }
  }

  /** In the native network too, the first step to a neighbour is the delegate's first allowed edge. */
  lemma {:induction false} NativeFirstStep(g: NativeGraph, i: nat, j: nat, allowed: EdgeId -> bool)
    requires Faithful(g) && i < |g.delegate.nodes| && j < |g.delegate.nodes|
    ensures FirstTo(NativeSteps(g, i, allowed), j)
              == EdgeTo(g.delegate, g.delegate.nodes[i].id, g.delegate.nodes[j].id, allowed)
  {
    var b := g.delegate;
    FirstToIndexSteps(b, i, SortIndices(g.out(i)), allowed, j);
    BetweenFacts(b, b.nodes[i].id, b.nodes[j].id);
    var edge := EdgeTo(b, b.nodes[i].id, b.nodes[j].id, allowed);
    if edge.Some? {
      FirstAllowedMember(EdgesBetween(b, b.nodes[i].id, b.nodes[j].id), allowed);
    }
  }

  predicate StepLess(a: (nat, EdgeId), b: (nat, EdgeId)) {
    a.0 < b.0
  }

  function Renamed(nodes: seq<NodeEntry>, steps: seq<(NodeId, EdgeId)>): (r: seq<(nat, EdgeId)>)
    ensures |r| == |steps| && forall k :: 0 <= k < |r| ==> r[k] == (IndexOf(nodes, steps[k].0), steps[k].1)
  {
    seq(|steps|, k requires 0 <= k < |steps| => (IndexOf(nodes, steps[k].0), steps[k].1))
  }

  lemma {:induction false} CandidatesByTarget(edges: seq<EdgeId>, allowed: EdgeId -> bool, node: NodeId)
    requires Sorted(EdgeLess, edges) && forall e :: e in edges ==> e.source == node
    ensures ByTarget(NodeLess, Candidates(edges, allowed))
  {
    NodeOrder();
    if edges != [] {
      SortedTail(EdgeLess, edges);
      CandidatesByTarget(edges[1..], allowed, node);
      var rest := Candidates(edges[1..], allowed);
      assert edges[0] in edges;
      forall k | 0 <= k < |rest| ensures edges[0].target == rest[k].0 || NodeLess(edges[0].target, rest[k].0) {
        assert (rest[k].0, rest[k].1) in rest;
        assert rest[k].1 in edges[1..] && EdgeLess(edges[0], rest[k].1);
      }
    }
  }

  /** Index order is identity order. */
  lemma {:induction false} IndexMonotone(nodes: seq<NodeEntry>, a: NodeId, b: NodeId)
    requires Sorted(EntryLess, nodes) && Registered(nodes, a) && Registered(nodes, b) && NodeLess(a, b)
    ensures IndexOf(nodes, a) < IndexOf(nodes, b)
  {
    NodeOrder();
    var i, j := IndexOf(nodes, a), IndexOf(nodes, b);
    assert i != j && !EntryLess(nodes[j], nodes[i]);
  }

  lemma {:induction false} SameFirstSteps(g: NativeGraph, i: nat, allowed: EdgeId -> bool)
    requires Faithful(g) && i < |g.delegate.nodes|
    ensures FirstSteps(NativeSteps(g, i, allowed))
         == Renamed(g.delegate.nodes,
              FirstSteps(Candidates(SortedOutgoing(g.delegate, g.delegate.nodes[i].id), allowed)))
  {
    var b := g.delegate;
    var node := b.nodes[i].id;
    var mine, theirs := NativeSteps(g, i, allowed), Candidates(SortedOutgoing(b, node), allowed);
    var renamed := Renamed(b.nodes, FirstSteps(theirs));
    NativeFirstStepsSorted(g, i, allowed);
    RenamedSorted(b, node, allowed);
    forall j: nat, e: EdgeId ensures (j, e) in FirstSteps(mine) <==> (j, e) in renamed {
      FirstStepsAre(mine, j, e);
      if FirstTo(mine, j) == Some(e) { NativeTargets(g, i, allowed, j, e); }
      if j < |b.nodes| {
        NativeFirstStep(g, i, j, allowed);
        EdgeToIsFirstCandidate(b, node, b.nodes[j].id, allowed);
        FirstStepsAre(theirs, b.nodes[j].id, e);
        IndexUnique(b.nodes, j);
      }
      RenamedMembers(g, node, allowed, j, e);
    }
    forall x ensures x in FirstSteps(mine) <==> x in renamed {
      assert x == (x.0, x.1);
    }
    SortedUnique(StepLess, FirstSteps(mine), renamed);
  }

  lemma {:induction false} NativeTargets(g: NativeGraph, i: nat, allowed: EdgeId -> bool, j: nat, e: EdgeId)
    requires Faithful(g) && i < |g.delegate.nodes| && FirstTo(NativeSteps(g, i, allowed), j) == Some(e)
    ensures j < |g.delegate.nodes|
  {
    var steps := NativeSteps(g, i, allowed);
    var targets := SortIndices(g.out(i));
    IndexStepsAre(g.delegate, i, targets, allowed);
    FirstToMember(steps, j, e);
  }

  lemma {:induction false} FirstToMember<N(!new), E(!new)>(steps: seq<(N, E)>, n: N, e: E)
    requires FirstTo(steps, n) == Some(e)
    ensures exists k :: 0 <= k < |steps| && steps[k] == (n, e)
    decreases |steps|
  {
    if steps[0].0 == n {
      assert steps[0] == (n, e);
    } else {
      FirstToMember(steps[1..], n, e);
      var k :| 0 <= k < |steps[1..]| && steps[1..][k] == (n, e);
      assert steps[k + 1] == (n, e);
    }
  }

  lemma {:induction false} NativeFirstStepsSorted(g: NativeGraph, i: nat, allowed: EdgeId -> bool)
    requires Faithful(g) && i < |g.delegate.nodes|
    ensures Sorted(StepLess, FirstSteps(NativeSteps(g, i, allowed)))
  {
    var less := (m: nat, n: nat) => m < n;
    var steps := NativeSteps(g, i, allowed);
    IndexStepsAre(g.delegate, i, SortIndices(g.out(i)), allowed);
    assert ByTarget(less, steps);
    FirstStepsIncrease(less, steps, None);
  }

  ghost predicate AllRegistered(nodes: seq<NodeEntry>, steps: seq<(NodeId, EdgeId)>) {
    forall k :: 0 <= k < |steps| ==> Registered(nodes, steps[k].0)
  }

  ghost predicate TargetsIncrease(steps: seq<(NodeId, EdgeId)>) {
    forall k, l :: 0 <= k < l < |steps| ==> NodeLess(steps[k].0, steps[l].0)
  }

  lemma {:induction false} CandidateTargets(b: Backend, node: NodeId, allowed: EdgeId -> bool)
    requires Consistent(b) && EndpointsRegistered(b)
    ensures AllRegistered(b.nodes, FirstSteps(Candidates(SortedOutgoing(b, node), allowed)))
  {
    var theirs := Candidates(SortedOutgoing(b, node), allowed);
    forall k | 0 <= k < |FirstSteps(theirs)| ensures Registered(b.nodes, FirstSteps(theirs)[k].0) {
      var (n, e) := FirstSteps(theirs)[k];
      assert (n, e) in FirstSteps(theirs);
      FirstStepsAre(theirs, n, e);
      FirstToMember(theirs, n, e);
      assert (n, e) in theirs;
    }
  }

  lemma {:induction false} RenamedSorted(b: Backend, node: NodeId, allowed: EdgeId -> bool)
    requires Consistent(b) && EndpointsRegistered(b)
    ensures Sorted(StepLess, Renamed(b.nodes, FirstSteps(Candidates(SortedOutgoing(b, node), allowed))))
  {
    CandidateTargets(b, node, allowed);
    FirstCandidatesIncrease(b, node, allowed);
    RenamingKeepsOrder(b.nodes, FirstSteps(Candidates(SortedOutgoing(b, node), allowed)));
  }

  lemma {:induction false} FirstCandidatesIncrease(b: Backend, node: NodeId, allowed: EdgeId -> bool)
    requires Consistent(b)
    ensures TargetsIncrease(FirstSteps(Candidates(SortedOutgoing(b, node), allowed)))
  {
    var out := SortedOutgoing(b, node);
    CandidatesByTarget(out, allowed, node);
    FirstStepsIncrease(NodeLess, Candidates(out, allowed), None);
  }

  lemma {:induction false} RenamingKeepsOrder(nodes: seq<NodeEntry>, steps: seq<(NodeId, EdgeId)>)
    requires Sorted(EntryLess, nodes) && AllRegistered(nodes, steps) && TargetsIncrease(steps)
    ensures Sorted(StepLess, Renamed(nodes, steps))
  {
    forall k, l | 0 <= k < l < |steps| ensures IndexOf(nodes, steps[k].0) < IndexOf(nodes, steps[l].0) {
      IndexMonotone(nodes, steps[k].0, steps[l].0);
    }
  }

  lemma {:induction false} RenamedMembers(g: NativeGraph, node: NodeId, allowed: EdgeId -> bool, j: nat, e: EdgeId)
    requires Faithful(g)
    ensures var steps := FirstSteps(Candidates(SortedOutgoing(g.delegate, node), allowed));
            (j, e) in Renamed(g.delegate.nodes, steps) <==>
              j < |g.delegate.nodes| && (g.delegate.nodes[j].id, e) in steps
  {
    var nodes := g.delegate.nodes;
    var steps := FirstSteps(Candidates(SortedOutgoing(g.delegate, node), allowed));
    var renamed := Renamed(nodes, steps);
    CandidateTargets(g.delegate, node, allowed);
    if (j, e) in renamed {
      RenamedIsStep(nodes, steps, j, e);
    }
    if j < |nodes| && (nodes[j].id, e) in steps {
      StepIsRenamed(nodes, steps, j, e);
    }
  }

  lemma {:induction false} RenamedIsStep(nodes: seq<NodeEntry>, steps: seq<(NodeId, EdgeId)>, j: nat, e: EdgeId)
    requires AllRegistered(nodes, steps) && (j, e) in Renamed(nodes, steps)
    ensures j < |nodes| && (nodes[j].id, e) in steps
  {
    var k :| 0 <= k < |Renamed(nodes, steps)| && Renamed(nodes, steps)[k] == (j, e);
    assert Registered(nodes, steps[k].0) && steps[k] in steps;
  }

  lemma {:induction false} StepIsRenamed(nodes: seq<NodeEntry>, steps: seq<(NodeId, EdgeId)>, j: nat, e: EdgeId)
    requires Sorted(EntryLess, nodes) && AllRegistered(nodes, steps) && j < |nodes| && (nodes[j].id, e) in steps
    ensures (j, e) in Renamed(nodes, steps)
  {
    var k :| 0 <= k < |steps| && steps[k] == (nodes[j].id, e);
    IndexUnique(nodes, j);
    assert Renamed(nodes, steps)[k] == (j, e);
  }

  // ---- the refinement ----

  function Rename(nodes: seq<NodeEntry>): NodeId -> nat {
    (n: NodeId) => IndexOf(nodes, n)
  }

  lemma {:induction false} NativeNetValid(g: NativeGraph, allowed: EdgeId -> bool)
    requires Faithful(g)
    ensures ValidNet(NativeNet(g, allowed))
  {
    var net, b := NativeNet(g, allowed), g.delegate;
    forall i: nat, k | i in net.nodes && 0 <= k < |net.steps(i)|
      ensures net.steps(i)[k].0 in net.nodes && net.source(net.steps(i)[k].1) == i
    {
      assert i in Positions(|b.nodes|);
      IndexStepsAre(b, i, SortIndices(g.out(i)), allowed);
      var (j, e) := net.steps(i)[k];
      assert j < |b.nodes| && Positions(|b.nodes|)[j] == j;
      BetweenFacts(b, b.nodes[i].id, b.nodes[j].id);
      FirstAllowedMember(EdgesBetween(b, b.nodes[i].id, b.nodes[j].id), allowed);
      IndexUnique(b.nodes, i);
    }
  }

  lemma {:induction false} NativeSimulates(g: NativeGraph, allowed: EdgeId -> bool, ends: set<NodeId>)
    requires Faithful(g) && forall n :: n in ends ==> Registered(g.delegate.nodes, n)
    ensures Simulates(Rename(g.delegate.nodes), AllowedNet(g.delegate, allowed, ends), NativeNet(g, allowed))
  {
    var nodes := g.delegate.nodes;
    var f, a, b := Rename(nodes), AllowedNet(g.delegate, allowed, ends), NativeNet(g, allowed);
    forall n | n in a.nodes
      ensures Registered(nodes, n) && f(n) in b.nodes && Renames(f, FirstSteps(a.steps(n)), FirstSteps(b.steps(f(n))))
    {
      var i := IndexOf(nodes, n);
      assert Positions(|nodes|)[i] == i;
      SameFirstSteps(g, i, allowed);
    }
    forall m, n | m in a.nodes && n in a.nodes && f(m) == f(n) ensures m == n {
      assert Registered(nodes, m) && Registered(nodes, n);
    }
  }

  lemma {:induction false} InNativeNet(g: NativeGraph, allowed: EdgeId -> bool, node: NodeId)
    requires Faithful(g) && Registered(g.delegate.nodes, node)
    ensures IndexOf(g.delegate.nodes, node) in NativeNet(g, allowed).nodes
  {
    assert Positions(|g.delegate.nodes|)[IndexOf(g.delegate.nodes, node)] == IndexOf(g.delegate.nodes, node);
  }

  /** The native search is the indexed search, edge for edge. */
  lemma {:induction false} NativeRefinesIndexed(g: NativeGraph, source: NodeId, target: NodeId, allowed: EdgeId -> bool)
    requires Faithful(g) && Registered(g.delegate.nodes, source) && Registered(g.delegate.nodes, target)
    ensures ValidNet(NativeNet(g, allowed)) && ValidNet(AllowedNet(g.delegate, allowed, {source, target}))
    ensures IndexOf(g.delegate.nodes, source) in NativeNet(g, allowed).nodes
    ensures Bfs(NativeNet(g, allowed), IndexOf(g.delegate.nodes, source), IndexOf(g.delegate.nodes, target))
         == Bfs(AllowedNet(g.delegate, allowed, {source, target}), source, target)
  {
    NativeNetValid(g, allowed);
    AllowedNetValid(g.delegate, allowed, {source, target});
    NativeSimulates(g, allowed, {source, target});
    InNativeNet(g, allowed, source);
    SameFirstStepsSamePath(Rename(g.delegate.nodes), AllowedNet(g.delegate, allowed, {source, target}),
                           NativeNet(g, allowed), source, target);
  }

  /**
   `NativeBackend.shortest_path` for registered endpoints: the path of the indexed
   backend, and hence a shortest allowed chain or the absence of one.
   */
  method FindShortestNative(g: NativeGraph, source: NodeId, target: NodeId, allowed: EdgeId -> bool)
    returns (r: Option<seq<EdgeId>>)
    requires Faithful(g) && Registered(g.delegate.nodes, source) && Registered(g.delegate.nodes, target)
    ensures ValidNet(AllowedNet(g.delegate, allowed, {source, target}))
    ensures r == Bfs(AllowedNet(g.delegate, allowed, {source, target}), source, target)
    ensures ShortestChain(g.delegate, allowed, source, target, r)
  {
    NativeRefinesIndexed(g, source, target, allowed);
    BfsFindsShortestChain(g.delegate, allowed, source, target);
    r := RunSearch(NativeNet(g, allowed), IndexOf(g.delegate.nodes, source), IndexOf(g.delegate.nodes, target));
  }
}
