/**
 The adjacent-version walk `MigrationGraph.edge_path`: when it succeeds, and when it
 agrees with breadth-first search.
 */
module EdgePath {
  import opened Wrappers
  import opened Collections
  import opened Sorting
  import opened Identity
  import opened Search
  import opened Indexed

  datatype PathError = AcrossKinds | SourceMissing | TargetMissing | NoMigration(source: NodeId, target: NodeId)

  /** `kind_versions`: the hydrated nodes of a kind, in version order. */
  function KindVersions(b: Backend, kind: string): seq<NodeEntry> {
    Filter(NodesForKind(b, kind), IsModel())
  }

  function VersionIds(b: Backend, kind: string): seq<NodeId> {
    IdsOf(KindVersions(b, kind))
  }

  lemma {:induction false} VersionsSorted(b: Backend, kind: string)
    requires Consistent(b)
    ensures Sorted(NodeLess, VersionIds(b, kind)) && Distinct(VersionIds(b, kind))
    ensures forall n :: n in KindVersions(b, kind) <==> n in b.nodes && n.id.kind == kind && n.Model?
  {
    var bucket := NodesForKind(b, kind);
    assert bucket == Filter(b.nodes, WithKey(KindOf, kind));
    FilterSorted(EntryLess, b.nodes, WithKey(KindOf, kind));
    FilterSorted(EntryLess, bucket, IsModel());
    NodeOrder();
    forall n ensures WithKey(KindOf, kind)(n) <==> n.id.kind == kind {
      assert KindOf(n) == n.id.kind;
    }
  }

  function Position(ids: seq<NodeId>, id: NodeId): (r: Option<nat>)
    ensures r.Some? ==> r.value < |ids| && ids[r.value] == id
    ensures r.None? ==> id !in ids
  {
    if ids == [] then None
    else if ids[0] == id then Some(0)
    else
      var rest := Position(ids[1..], id);
      if rest.Some? then Some(rest.value + 1) else None
  }

  /** One index closer to `hi`. */
  function Toward(lo: int, hi: int): int {
    if lo < hi then lo + 1 else lo - 1
  }

  function Distance(lo: int, hi: int): nat {
    if lo < hi then hi - lo else lo - hi
  }

  function WalkEdge(ids: seq<NodeId>, lo: nat, hi: nat, discriminator: string): EdgeId
    requires lo < |ids| && hi < |ids| && lo != hi
  {
    EdgeId(ids[lo], ids[Toward(lo, hi)], discriminator)
  }

  /** The neighbouring edges from version `lo` to version `hi`. */
  function Walk(ids: seq<NodeId>, lo: nat, hi: nat, discriminator: string): (path: seq<EdgeId>)
    requires lo < |ids| && hi < |ids|
    ensures |path| == Distance(lo, hi)
    decreases Distance(lo, hi)
  {
    if lo == hi then [] else [WalkEdge(ids, lo, hi, discriminator)] + Walk(ids, Toward(lo, hi), hi, discriminator)
  }

  predicate Usable(b: Backend, e: EdgeId) {
    e in b.edges && e in b.executable
  }

  /** Every consecutive pair between the endpoints has an executable edge with the discriminator. */
  predicate WalkUsable(b: Backend, ids: seq<NodeId>, lo: nat, hi: nat, discriminator: string)
    requires lo < |ids| && hi < |ids|
    decreases Distance(lo, hi)
  {
    lo == hi ||
    (Usable(b, WalkEdge(ids, lo, hi, discriminator)) && WalkUsable(b, ids, Toward(lo, hi), hi, discriminator))
  }

  function WithDiscriminator(edges: seq<EdgeId>, discriminator: string): Option<EdgeId> {
    if edges == [] then None
    else if edges[0].discriminator == discriminator then Some(edges[0])
    else WithDiscriminator(edges[1..], discriminator)
  }

  /** `_find_edge`: the parallel edge with the discriminator is the edge of that identity. */
  lemma {:induction false} FindEdge(b: Backend, source: NodeId, target: NodeId, discriminator: string)
    requires Consistent(b)
    ensures WithDiscriminator(EdgesBetween(b, source, target), discriminator)
         == if EdgeId(source, target, discriminator) in b.edges then
              Some(EdgeId(source, target, discriminator)) else None
  {
    var between := EdgesBetween(b, source, target);
    assert between == Filter(b.edges, WithKey(PairOf, (source, target)));
    forall e ensures WithKey(PairOf, (source, target))(e) <==> e.source == source && e.target == target {
      assert PairOf(e) == (e.source, e.target);
    }
    FirstOfIdentity(between, source, target, discriminator);
  }

  lemma {:induction false} FirstOfIdentity(edges: seq<EdgeId>, source: NodeId, target: NodeId, discriminator: string)
    requires forall e :: e in edges ==> e.source == source && e.target == target
    ensures var e := EdgeId(source, target, discriminator);
            WithDiscriminator(edges, discriminator) == if e in edges then Some(e) else None
  {
    if edges != [] {
      assert edges[0] in edges && edges[0] == EdgeId(source, target, edges[0].discriminator);
      FirstOfIdentity(edges[1..], source, target, discriminator);
    }
  }

  /**
   `edge_path`: it succeeds exactly when both versions are registered models of one kind and
   every consecutive pair between them has an executable edge with the discriminator, and it
   returns those edges in order.
   */
  method FindEdgePath(b: Backend, from: NodeId, to: NodeId, discriminator: string)
    returns (r: Result<seq<EdgeId>, PathError>)
    requires Consistent(b)
    ensures r == PathBetween(b, from, to, discriminator)
  {
    if from.kind != to.kind { return Err(AcrossKinds); }
    var versions := VersionIds(b, from.kind);
    var start, end := Position(versions, from), Position(versions, to);
    if start.None? { return Err(SourceMissing); }
    if end.None? { return Err(TargetMissing); }
    r := WalkVersions(b, versions, start.value, end.value, discriminator);
  }

  /** The loop of `edge_path`. */
  method WalkVersions(b: Backend, versions: seq<NodeId>, lo0: nat, hi: nat, discriminator: string)
    returns (r: Result<seq<EdgeId>, PathError>)
    requires Consistent(b) && lo0 < |versions| && hi < |versions|
    ensures r == match Broken(b, versions, lo0, hi, discriminator)
                 case None => Ok(Walk(versions, lo0, hi, discriminator))
                 case Some(pair) => Err(NoMigration(pair.0, pair.1))
  {
    var lo, path := lo0, [];
    while lo != hi
      invariant 0 <= lo < |versions|
      invariant path + Walk(versions, lo, hi, discriminator) == Walk(versions, lo0, hi, discriminator)
      invariant Broken(b, versions, lo, hi, discriminator) == Broken(b, versions, lo0, hi, discriminator)
      decreases Distance(lo, hi)
    {
      var next := Toward(lo, hi);
      var edge := UsableEdge(b, versions, lo, hi, discriminator);
      if edge.None? {
        return Err(NoMigration(versions[lo], versions[next]));
      }
      path := path + [edge.value];
      lo := next;
    }
    assert path + [] == path;
    return Ok(path);
  }

  /** The edge to the next version, if it is executable. */
  method UsableEdge(b: Backend, versions: seq<NodeId>, lo: nat, hi: nat, discriminator: string)
    returns (edge: Option<EdgeId>)
    requires Consistent(b) && lo < |versions| && hi < |versions| && lo != hi
    ensures var e := WalkEdge(versions, lo, hi, discriminator);
            edge == if Usable(b, e) then Some(e) else None
  {
    var source, target := versions[lo], versions[Toward(lo, hi)];
    FindEdge(b, source, target, discriminator);
    edge := WithDiscriminator(EdgesBetween(b, source, target), discriminator);
    if edge.Some? && edge.value !in b.executable { edge := None; }
  }

  /** The first pair on the walk without a usable edge. */
  function Broken(b: Backend, ids: seq<NodeId>, lo: nat, hi: nat, discriminator: string): (r: Option<(NodeId, NodeId)>)
    requires lo < |ids| && hi < |ids|
    ensures r.None? <==> WalkUsable(b, ids, lo, hi, discriminator)
    decreases Distance(lo, hi)
  {
    if lo == hi then None
    else if !Usable(b, WalkEdge(ids, lo, hi, discriminator)) then Some((ids[lo], ids[Toward(lo, hi)]))
    else Broken(b, ids, Toward(lo, hi), hi, discriminator)
  }

  function PathBetween(b: Backend, from: NodeId, to: NodeId, discriminator: string): (r: Result<seq<EdgeId>, PathError>)
  {
    var versions := VersionIds(b, from.kind);
    var start, end := Position(versions, from), Position(versions, to);
    if from.kind != to.kind then Err(AcrossKinds)
    else if start.None? then Err(SourceMissing)
    else if end.None? then Err(TargetMissing)
    else
      var broken := Broken(b, versions, start.value, end.value, discriminator);
      if broken.Some? then Err(NoMigration(broken.value.0, broken.value.1))
      else Ok(Walk(versions, start.value, end.value, discriminator))
  }

  // ---- walk versus search ----

  /** The executable edges with the discriminator. */
  function OnWalk(b: Backend, discriminator: string): EdgeId -> bool {
    (e: EdgeId) => e in b.executable && e.discriminator == discriminator
  }

  /** Every such edge out of a version of the kind leads to a neighbouring version. */
  ghost predicate JoinsNeighbours(b: Backend, ids: seq<NodeId>, discriminator: string) {
    forall e, i :: 0 <= i < |ids| && e in b.edges && OnWalk(b, discriminator)(e) && e.source == ids[i] ==>
      IsNeighbour(ids, i, e.target)
  }

  predicate IsNeighbour(ids: seq<NodeId>, i: int, n: NodeId) {
    (0 <= i + 1 < |ids| && n == ids[i + 1]) || (0 <= i - 1 < |ids| && n == ids[i - 1])
  }

  lemma {:induction false} WalkIsChain(b: Backend, ids: seq<NodeId>, lo: nat, hi: nat, discriminator: string)
    requires lo < |ids| && hi < |ids| && WalkUsable(b, ids, lo, hi, discriminator)
    ensures Chain(b.edges, OnWalk(b, discriminator), ids[lo], ids[hi], Walk(ids, lo, hi, discriminator))
    decreases Distance(lo, hi)
  {
    if lo != hi {
      var next := Toward(lo, hi);
      WalkIsChain(b, ids, next, hi, discriminator);
      var rest := Walk(ids, next, hi, discriminator);
      assert ([WalkEdge(ids, lo, hi, discriminator)] + rest)[1..] == rest;
    }
  }

  /**
   Any chain between two versions steps over neighbours, so it is at least as long as the walk
   and covers its edges.
   */
  lemma {:induction false} ChainCoversWalk(b: Backend, ids: seq<NodeId>, lo: nat, hi: nat, discriminator: string,
          path: seq<EdgeId>)
    requires lo < |ids| && hi < |ids| && Distinct(ids) && JoinsNeighbours(b, ids, discriminator)
    requires Chain(b.edges, OnWalk(b, discriminator), ids[lo], ids[hi], path)
    ensures |path| >= Distance(lo, hi) && WalkUsable(b, ids, lo, hi, discriminator)
    ensures |path| == Distance(lo, hi) ==> path == Walk(ids, lo, hi, discriminator)
    decreases |path|
  {
    if path != [] {
      var first := path[0];
      assert first in b.edges && OnWalk(b, discriminator)(first) && first.source == ids[lo];
      assert IsNeighbour(ids, lo, first.target);
      var next := if lo + 1 < |ids| && first.target == ids[lo + 1] then lo + 1 else lo - 1;
      ChainCoversWalk(b, ids, next, hi, discriminator, path[1..]);
      assert first == EdgeId(ids[lo], ids[next], discriminator);
      assert path == [first] + path[1..];
      if lo != hi && next != Toward(lo, hi) {
        assert Toward(next, hi) == lo;
      }
    }
  }

  /**
   When all executable edges with the discriminator join neighbouring model versions, the
   adjacent walk and breadth-first search restricted to those edges return the same path,
   and both fail together.
   */
  lemma {:induction false} WalkAgreesWithSearch(b: Backend, from: NodeId, to: NodeId, discriminator: string)
    requires Consistent(b) && from.kind == to.kind && JoinsNeighbours(b, VersionIds(b, from.kind), discriminator)
    requires from in VersionIds(b, from.kind) && to in VersionIds(b, from.kind)
    ensures ValidNet(AllowedNet(b, OnWalk(b, discriminator), {from, to}))
    ensures var found := Bfs(AllowedNet(b, OnWalk(b, discriminator), {from, to}), from, to);
            match PathBetween(b, from, to, discriminator)
            case Ok(path) => found == Some(path)
            case Err(error) => error.NoMigration? && found == None
  {
    var ids, allowed := VersionIds(b, from.kind), OnWalk(b, discriminator);
    VersionsSorted(b, from.kind);
    AllowedNetValid(b, allowed, {from, to});
    BfsFindsShortestChain(b, allowed, from, to);
    var lo, hi := Position(ids, from).value, Position(ids, to).value;
    var found := Bfs(AllowedNet(b, allowed, {from, to}), from, to);
    if found.Some? {
      ChainCoversWalk(b, ids, lo, hi, discriminator, found.value);
    }
    if WalkUsable(b, ids, lo, hi, discriminator) {
      WalkIsChain(b, ids, lo, hi, discriminator);
    }
  }

  /** A successful `edge_path` is a connected chain of executable same-kind edges with the discriminator. */
  lemma {:induction false} EdgePathIsChain(b: Backend, from: NodeId, to: NodeId, discriminator: string)
    requires Consistent(b) && PathBetween(b, from, to, discriminator).Ok?
    ensures Chain(b.edges, OnWalk(b, discriminator), from, to, PathBetween(b, from, to, discriminator).value)
    ensures from.kind == to.kind && from in VersionIds(b, from.kind) && to in VersionIds(b, from.kind)
    ensures PathBetween(b, from, to, discriminator).value == [] <==> from == to
  {
    var ids := VersionIds(b, from.kind);
    VersionsSorted(b, from.kind);
    WalkIsChain(b, ids, Position(ids, from).value, Position(ids, to).value, discriminator);
  }

  /** The endpoints are the versions `lo` and `hi`, and every pair between them has its edge. */
  ghost predicate EveryPairUsable(b: Backend, ids: seq<NodeId>, from: NodeId, to: NodeId, lo: nat, hi: nat,
          discriminator: string)
  {
    && lo < |ids| && hi < |ids| && ids[lo] == from && ids[hi] == to
    && forall i: nat :: PairOnWalk(lo, hi, i) ==> Usable(b, PairEdge(ids, lo, hi, i, discriminator))
  }

  /** `edge_path` succeeds exactly when every consecutive pair between two registered versions of one kind is usable. */
  lemma {:induction false} EdgePathSucceeds(b: Backend, from: NodeId, to: NodeId, discriminator: string)
    requires Consistent(b)
    ensures PathBetween(b, from, to, discriminator).Ok? <==>
              from.kind == to.kind &&
              exists lo, hi :: EveryPairUsable(b, VersionIds(b, from.kind), from, to, lo, hi, discriminator)
  {
    VersionsSorted(b, from.kind);
    PathNeedsWalk(b, from, to, discriminator);
    WalkNeedsPairs(b, VersionIds(b, from.kind), from, to, discriminator);
  }

  /** Both endpoints are versions and the walk between them is usable. */
  predicate Walkable(b: Backend, ids: seq<NodeId>, from: NodeId, to: NodeId, discriminator: string) {
    var start, end := Position(ids, from), Position(ids, to);
    start.Some? && end.Some? && WalkUsable(b, ids, start.value, end.value, discriminator)
  }

  lemma {:induction false} PathNeedsWalk(b: Backend, from: NodeId, to: NodeId, discriminator: string)
    ensures PathBetween(b, from, to, discriminator).Ok? <==>
            from.kind == to.kind && Walkable(b, VersionIds(b, from.kind), from, to, discriminator)
  {
  }

  lemma {:induction false} PositionUnique(ids: seq<NodeId>, k: nat)
    requires Distinct(ids) && k < |ids|
    ensures Position(ids, ids[k]) == Some(k)
  {
    var found := Position(ids, ids[k]);
    assert ids[k] in ids;
    assert found.value == k;
  }

  lemma {:induction false} WalkNeedsPairs(b: Backend, ids: seq<NodeId>, from: NodeId, to: NodeId, discriminator: string)
    requires Distinct(ids)
    ensures Walkable(b, ids, from, to, discriminator) <==>
              exists lo, hi :: EveryPairUsable(b, ids, from, to, lo, hi, discriminator)
  {
    if Walkable(b, ids, from, to, discriminator) {
      var lo, hi := Position(ids, from).value, Position(ids, to).value;
      UsableByPairs(b, ids, lo, hi, discriminator);
      assert EveryPairUsable(b, ids, from, to, lo, hi, discriminator);
    }
    if lo, hi :| EveryPairUsable(b, ids, from, to, lo, hi, discriminator) {
      PositionUnique(ids, lo);
      PositionUnique(ids, hi);
      UsableByPairs(b, ids, lo, hi, discriminator);
    }
  }

  /** The pair of positions `i`, `i + 1` lies between `lo` and `hi`. */
  predicate PairOnWalk(lo: nat, hi: nat, i: nat) {
    lo <= i < hi || hi <= i < lo
  }

  /** The edge the walk needs over that pair, in its direction of travel. */
  function PairEdge(ids: seq<NodeId>, lo: nat, hi: nat, i: nat, discriminator: string): EdgeId
    requires lo < |ids| && hi < |ids| && PairOnWalk(lo, hi, i)
  {
    if lo < hi then EdgeId(ids[i], ids[i + 1], discriminator) else EdgeId(ids[i + 1], ids[i], discriminator)
  }

  lemma {:induction false} UsableByPairs(b: Backend, ids: seq<NodeId>, lo: nat, hi: nat, discriminator: string)
    requires lo < |ids| && hi < |ids|
    ensures WalkUsable(b, ids, lo, hi, discriminator) <==>
              forall i: nat :: PairOnWalk(lo, hi, i) ==> Usable(b, PairEdge(ids, lo, hi, i, discriminator))
    decreases Distance(lo, hi)
  {
    if lo != hi {
      var next := Toward(lo, hi);
      UsableByPairs(b, ids, next, hi, discriminator);
      var here: nat := if lo < hi then lo else lo - 1;
      assert PairOnWalk(lo, hi, here);
      assert PairEdge(ids, lo, hi, here, discriminator) == WalkEdge(ids, lo, hi, discriminator);
      forall i: nat | PairOnWalk(next, hi, i)
        ensures PairOnWalk(lo, hi, i)
        ensures PairEdge(ids, next, hi, i, discriminator) == PairEdge(ids, lo, hi, i, discriminator)
      {
      }
      forall i: nat | PairOnWalk(lo, hi, i) && i != here
        ensures PairOnWalk(next, hi, i)
        ensures PairEdge(ids, next, hi, i, discriminator) == PairEdge(ids, lo, hi, i, discriminator)
      {
      }
    }
  }

  // ---- why a walk fails ----

  /** Travelling from `lo` to `hi`, the pair at `j` comes before the pair at `i`. */
  predicate Earlier(lo: nat, hi: nat, j: nat, i: nat) {
    PairOnWalk(lo, hi, j) && if lo < hi then j < i else j > i
  }

  /** The pair at `i` is the first on the walk without a usable edge. */
  ghost predicate BreaksAt(b: Backend, ids: seq<NodeId>, lo: nat, hi: nat, discriminator: string, i: nat)
    requires lo < |ids| && hi < |ids|
  {
    && PairOnWalk(lo, hi, i) && !Usable(b, PairEdge(ids, lo, hi, i, discriminator))
    && forall j: nat :: Earlier(lo, hi, j, i) ==> Usable(b, PairEdge(ids, lo, hi, j, discriminator))
  }

  lemma {:induction false} BrokenExact(b: Backend, ids: seq<NodeId>, lo: nat, hi: nat, discriminator: string)
    returns (i: nat)
    requires lo < |ids| && hi < |ids| && Broken(b, ids, lo, hi, discriminator).Some?
    ensures BreaksAt(b, ids, lo, hi, discriminator, i)
    ensures var e := PairEdge(ids, lo, hi, i, discriminator);
            Broken(b, ids, lo, hi, discriminator) == Some((e.source, e.target))
    decreases Distance(lo, hi)
  {
    var here: nat := if lo < hi then lo else lo - 1;
    assert PairOnWalk(lo, hi, here);
    assert PairEdge(ids, lo, hi, here, discriminator) == WalkEdge(ids, lo, hi, discriminator);
    if !Usable(b, WalkEdge(ids, lo, hi, discriminator)) {
      i := here;
    } else {
      i := BrokenExact(b, ids, Toward(lo, hi), hi, discriminator);
      BreaksLater(b, ids, lo, hi, discriminator, i);
    }
  }

  lemma {:induction false} BreaksLater(b: Backend, ids: seq<NodeId>, lo: nat, hi: nat, discriminator: string, i: nat)
    requires lo < |ids| && hi < |ids| && lo != hi && Usable(b, WalkEdge(ids, lo, hi, discriminator))
    requires BreaksAt(b, ids, Toward(lo, hi), hi, discriminator, i)
    ensures BreaksAt(b, ids, lo, hi, discriminator, i)
    ensures PairEdge(ids, lo, hi, i, discriminator) == PairEdge(ids, Toward(lo, hi), hi, i, discriminator)
  {
    var next := Toward(lo, hi);
    forall j: nat | Earlier(lo, hi, j, i) ensures Usable(b, PairEdge(ids, lo, hi, j, discriminator)) {
      if PairOnWalk(next, hi, j) {
        assert Earlier(next, hi, j, i);
        assert PairEdge(ids, lo, hi, j, discriminator) == PairEdge(ids, next, hi, j, discriminator);
      } else {
        assert PairEdge(ids, lo, hi, j, discriminator) == WalkEdge(ids, lo, hi, discriminator);
      }
    }
  }

  /**
   Why `edge_path` fails: the kinds differ, the source is not a registered version, the target
   is not, or the named pair is the first on the way that has no usable edge, in this order.
   */
  lemma {:induction false} EdgePathErrors(b: Backend, from: NodeId, to: NodeId, discriminator: string)
    requires Consistent(b)
    ensures var r, ids := PathBetween(b, from, to, discriminator), VersionIds(b, from.kind);
            && (r == Err(AcrossKinds) <==> from.kind != to.kind)
            && (r == Err(SourceMissing) <==> from.kind == to.kind && from !in ids)
            && (r == Err(TargetMissing) <==> from.kind == to.kind && from in ids && to !in ids)
            && (r.Err? && r.error.NoMigration? ==>
                  exists lo: nat, hi: nat, i: nat :: StopsAt(b, ids, from, to, discriminator, lo, hi, i, r.error))
  {
    var r, ids := PathBetween(b, from, to, discriminator), VersionIds(b, from.kind);
    if r.Err? && r.error.NoMigration? {
      var lo, hi := Position(ids, from).value, Position(ids, to).value;
      var i := BrokenExact(b, ids, lo, hi, discriminator);
      assert StopsAt(b, ids, from, to, discriminator, lo, hi, i, r.error);
    }
  }

  ghost predicate StopsAt(b: Backend, ids: seq<NodeId>, from: NodeId, to: NodeId, discriminator: string,
          lo: nat, hi: nat, i: nat, error: PathError)
  {
    && lo < |ids| && hi < |ids| && ids[lo] == from && ids[hi] == to && BreaksAt(b, ids, lo, hi, discriminator, i)
    && var e := PairEdge(ids, lo, hi, i, discriminator);
       error == NoMigration(e.source, e.target)
  }
}
