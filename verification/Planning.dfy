/**
 Path planning: target policies, the finder with its path cache, and the policy filter.
 */
module Planning {
  import opened Wrappers
  import opened Collections
  import opened Sorting
  import opened Payload
  import opened Identity
  import opened Indexed
  import opened EdgePath
  import opened Extraction

  // ---- target policies ----

  datatype VersionRange = VersionRange(gte: Option<Version>, lt: Option<Version>, eq: Option<Version>)

  datatype Spec =
    | Skip
    | Latest
    | Earliest
    | Exactly(version: Version)
    | Within(range: VersionRange)
    | Fixed(node: NodeEntry)

  /** One specification for every kind, or one per kind with an optional "*" fallback. */
  datatype Target = Single(spec: Spec) | ByKind(kinds: map<string, Spec>)

  datatype PlanError =
    | NoVersions
    | TargetNotFound
    | WrongKind
    | PathFailed(path: PathError)
    | DirectionRejected
    | DepthExceeded
    | PathMissing

  /** `VersionRange.matches`: `eq` wins over the bounds. */
  predicate InRange(range: VersionRange, version: Version) {
    if range.eq.Some? then version == range.eq.value
    else (range.gte.Some? ==> version >= range.gte.value) && (range.lt.Some? ==> version < range.lt.value)
  }

  function MatchesRange(range: VersionRange): NodeEntry -> bool {
    (n: NodeEntry) => InRange(range, n.id.version)
  }

  /** The target a specification resolves to for a discovered node; `None` skips the entry. */
  function ResolveSpec(b: Backend, spec: Spec, node: NodeEntry): Result<Option<NodeEntry>, PlanError> {
    var versions := KindVersions(b, node.id.kind);
    match spec
    case Skip => Ok(None)
    case Latest => if versions == [] then Err(NoVersions) else Ok(Some(versions[|versions| - 1]))
    case Earliest => if versions == [] then Err(NoVersions) else Ok(Some(versions[0]))
    case Exactly(version) =>
      var found := FindModel(b.nodes, node.id.(version := version));
      if found.None? then Err(TargetNotFound) else Ok(found)
    case Within(range) =>
      var matched := Filter(versions, MatchesRange(range));
      Ok(if matched == [] then None else Some(matched[|matched| - 1]))
    case Fixed(target) => if target.id.kind != node.id.kind then Err(WrongKind) else Ok(Some(target))
  }

  function ResolveTarget(b: Backend, target: Target, node: NodeEntry): Result<Option<NodeEntry>, PlanError> {
    match target
    case Single(spec) => ResolveSpec(b, spec, node)
    case ByKind(kinds) =>
      if node.id.kind in kinds && node.id.kind != "*" then ResolveSpec(b, kinds[node.id.kind], node)
      else if "*" in kinds then ResolveSpec(b, kinds["*"], node)
      else Ok(None)
  }

  /** A fixed target must be registered when the policy is compiled, whatever is in the payload. */
  predicate Compiles(b: Backend, target: Target) {
    match target
    case Single(spec) => CompilesSpec(b, spec)
    case ByKind(kinds) => forall k :: k in kinds ==> CompilesSpec(b, kinds[k])
  }

  predicate CompilesSpec(b: Backend, spec: Spec) {
    spec.Fixed? ==> FindModel(b.nodes, spec.node.id).Some?
  }

  lemma {:induction false} LastIsGreatest(s: seq<NodeEntry>)
    requires Sorted(EntryLess, s) && s != []
    ensures s[|s| - 1] in s && forall n :: n in s ==> n == s[|s| - 1] || NodeLess(n.id, s[|s| - 1].id)
  {
    forall n | n in s ensures n == s[|s| - 1] || NodeLess(n.id, s[|s| - 1].id) {
      var i :| 0 <= i < |s| && s[i] == n;
      assert i < |s| - 1 ==> EntryLess(s[i], s[|s| - 1]);
    }
  }

  /** "latest" resolves to the greatest registered model version of the entry's kind. */
  lemma {:induction false} LatestIsGreatest(b: Backend, node: NodeEntry)
    requires Consistent(b) && ResolveSpec(b, Latest, node).Ok?
    ensures var latest := ResolveSpec(b, Latest, node).value.value;
            && latest in b.nodes && latest.Model? && latest.id.kind == node.id.kind
            && forall n :: n in b.nodes && n.Model? && n.id.kind == node.id.kind ==>
                 n == latest || NodeLess(n.id, latest.id)
  {
    KindMembers(b, node.id.kind);
    GreatestOf(KindVersions(b, node.id.kind), b.nodes, node.id.kind);
  }

  lemma {:induction false} GreatestOf(s: seq<NodeEntry>, nodes: seq<NodeEntry>, kind: string)
    requires Sorted(EntryLess, s) && s != [] && forall n :: n in s <==> n in nodes && n.id.kind == kind && n.Model?
    ensures var last := s[|s| - 1];
            && last in nodes && last.Model? && last.id.kind == kind
            && forall n :: n in nodes && n.Model? && n.id.kind == kind ==> n == last || NodeLess(n.id, last.id)
  {
    LastIsGreatest(s);
  }

  lemma {:induction false} KindMembers(b: Backend, kind: string)
    requires Consistent(b)
    ensures Sorted(EntryLess, KindVersions(b, kind))
    ensures forall n :: n in KindVersions(b, kind) <==> n in b.nodes && n.id.kind == kind && n.Model?
  {
    VersionsSorted(b, kind);
    KindVersionsSorted(b, kind);
  }

  lemma {:induction false} RangeMembers(b: Backend, range: VersionRange, kind: string)
    requires Consistent(b)
    ensures Sorted(EntryLess, Filter(KindVersions(b, kind), MatchesRange(range)))
    ensures forall n :: n in Filter(KindVersions(b, kind), MatchesRange(range)) <==>
              n in b.nodes && n.id.kind == kind && n.Model? && InRange(range, n.id.version)
  {
    KindMembers(b, kind);
    FilterSorted(EntryLess, KindVersions(b, kind), MatchesRange(range));
  }

  /** A range resolves to the greatest registered version it admits, and to nothing only if it admits none. */
  lemma {:induction false} RangeIsGreatestMatch(b: Backend, range: VersionRange, node: NodeEntry)
    requires Consistent(b)
    ensures ResolveSpec(b, Within(range), node).Ok?
    ensures match ResolveSpec(b, Within(range), node).value
            case None =>
              forall n :: n in b.nodes && n.Model? && n.id.kind == node.id.kind ==> !InRange(range, n.id.version)
            case Some(best) =>
              && best in b.nodes && best.Model? && best.id.kind == node.id.kind && InRange(range, best.id.version)
              && forall n :: n in b.nodes && n.Model? && n.id.kind == node.id.kind && InRange(range, n.id.version) ==>
                   n == best || NodeLess(n.id, best.id)
  {
    RangeMembers(b, range, node.id.kind);
    RangeResolves(b, range, node);
    GreatestInRange(Filter(KindVersions(b, node.id.kind), MatchesRange(range)), b.nodes, range, node.id.kind);
  }

  lemma {:induction false} RangeResolves(b: Backend, range: VersionRange, node: NodeEntry)
    ensures var matched := Filter(KindVersions(b, node.id.kind), MatchesRange(range));
            ResolveSpec(b, Within(range), node) == Ok(if matched == [] then None else Some(matched[|matched| - 1]))
  {
  }

  lemma {:induction false} GreatestInRange(s: seq<NodeEntry>, nodes: seq<NodeEntry>, range: VersionRange, kind: string)
    requires Sorted(EntryLess, s)
    requires forall n :: n in s <==> n in nodes && n.id.kind == kind && n.Model? && InRange(range, n.id.version)
    ensures s == [] ==> forall n :: n in nodes && n.Model? && n.id.kind == kind ==> !InRange(range, n.id.version)
    ensures s != [] ==> var best := s[|s| - 1];
              && best in nodes && best.Model? && best.id.kind == kind && InRange(range, best.id.version)
              && forall n :: n in nodes && n.Model? && n.id.kind == kind && InRange(range, n.id.version) ==>
                   n == best || NodeLess(n.id, best.id)
  {
    if s != [] {
      LastIsGreatest(s);
    } else {
      forall n | n in nodes && n.Model? && n.id.kind == kind ensures !InRange(range, n.id.version) {
        assert n !in s;
      }
    }
  }

  lemma {:induction false} KindVersionsSorted(b: Backend, kind: string)
    requires Consistent(b)
    ensures Sorted(EntryLess, KindVersions(b, kind))
  {
    assert NodesForKind(b, kind) == Filter(b.nodes, WithKey(KindOf, kind));
    FilterSorted(EntryLess, b.nodes, WithKey(KindOf, kind));
    FilterSorted(EntryLess, NodesForKind(b, kind), IsModel());
  }

  // ---- planning and filtering, as functions of the graph ----

  datatype PlanEntry = PlanEntry(path: Path, source: NodeEntry, target: NodeEntry, edges: seq<EdgeId>)

  datatype Direction = AnyDirection | Forward | Backward

  datatype OnViolation = SkipEntry | Raise

  datatype Policy = Policy(direction: Direction, onDirection: OnViolation, onMissing: OnViolation,
                           depthLimit: int, onDepth: OnViolation)

  predicate Allows(direction: Direction, source: NodeId, target: NodeId) {
    match direction
    case AnyDirection => true
    case Forward => NodeLess(source, target)
    case Backward => NodeLess(target, source)
  }

  /** Resolve one discovered entry; `None` when its target policy skips it. */
  function PlanOne(b: Backend, discriminator: string, target: Target, found: Found)
    : Result<Option<PlanEntry>, PlanError>
  {
    var resolved :- ResolveTarget(b, target, found.node);
    if resolved.None? then Ok(None) else
      var edges := PathBetween(b, found.node.id, resolved.value.id, discriminator);
      if edges.Err? then Err(PathFailed(edges.error))
      else Ok(Some(PlanEntry(found.path, found.node, resolved.value, edges.value)))
  }

  function PlanAll(b: Backend, discriminator: string, target: Target, found: seq<Found>)
    : Result<seq<PlanEntry>, PlanError>
  {
    if found == [] then Ok([]) else
      var first :- PlanOne(b, discriminator, target, found[0]);
      var rest :- PlanAll(b, discriminator, target, found[1..]);
      Ok((if first.Some? then [first.value] else []) + rest)
  }

  /** The two checks for a missing path: no steps between different versions, or an edge that is not executable. */
  predicate PathIsMissing(b: Backend, entry: PlanEntry) {
    || (entry.source.id != entry.target.id && entry.edges == [])
    || exists e :: e in entry.edges && !Usable(b, e)
  }

  /** Whether the policy keeps an entry, drops it, or raises. */
  function Judge(b: Backend, policy: Policy, entry: PlanEntry): Result<bool, PlanError> {
    if !Allows(policy.direction, entry.source.id, entry.target.id) then
      if policy.onDirection.Raise? then Err(DirectionRejected) else Ok(false)
    else if policy.depthLimit >= 0 && |entry.edges| > policy.depthLimit then
      if policy.onDepth.Raise? then Err(DepthExceeded) else Ok(false)
    else if PathIsMissing(b, entry) then
      if policy.onMissing.Raise? then Err(PathMissing) else Ok(false)
    else Ok(true)
  }

  function Keep(b: Backend, policy: Policy, entries: seq<PlanEntry>): Result<seq<PlanEntry>, PlanError> {
    if entries == [] then Ok([]) else
      var kept :- Judge(b, policy, entries[0]);
      var rest :- Keep(b, policy, entries[1..]);
      Ok((if kept then [entries[0]] else []) + rest)
  }

  // ---- the rules of a policy ----

  /** The rules, in the order in which they are checked. */
  datatype Rule = DirectionRule | LengthRule | PathRule

  /** The rule is broken by the entry, whatever the other rules say. */
  predicate Violates(b: Backend, policy: Policy, e: PlanEntry, rule: Rule) {
    match rule
    case DirectionRule =>
      || (policy.direction.Forward? && !NodeLess(e.source.id, e.target.id))
      || (policy.direction.Backward? && !NodeLess(e.target.id, e.source.id))
    case LengthRule => 0 <= policy.depthLimit < |e.edges|
    case PathRule =>
      || (e.source.id != e.target.id && e.edges == [])
      || exists edge :: edge in e.edges && (edge !in b.edges || edge !in b.executable)
  }

  /** Which strategy, and which error, belongs to a rule. */
  function StrategyFor(policy: Policy, rule: Rule): OnViolation {
    match rule
    case DirectionRule => policy.onDirection
    case LengthRule => policy.onDepth
    case PathRule => policy.onMissing
  }

  function ErrorFor(rule: Rule): PlanError {
    match rule
    case DirectionRule => DirectionRejected
    case LengthRule => DepthExceeded
    case PathRule => PathMissing
  }

  predicate CheckedBefore(rule: Rule, other: Rule) {
    (rule.DirectionRule? && !other.DirectionRule?) || (rule.LengthRule? && other.PathRule?)
  }

  ghost predicate FirstViolated(b: Backend, policy: Policy, e: PlanEntry, rule: Rule) {
    Violates(b, policy, e, rule) && forall earlier :: CheckedBefore(earlier, rule) ==> !Violates(b, policy, e, earlier)
  }

  /** The first rule the entry breaks has the strategy "raise". */
  ghost predicate Rejects(b: Backend, policy: Policy, e: PlanEntry, rule: Rule) {
    FirstViolated(b, policy, e, rule) && StrategyFor(policy, rule).Raise?
  }

  /** The entry breaks no rule. */
  function Admits(b: Backend, policy: Policy): PlanEntry -> bool {
    (e: PlanEntry) =>
      !Violates(b, policy, e, DirectionRule) && !Violates(b, policy, e, LengthRule) && !Violates(b, policy, e, PathRule)
  }

  /** The entry at the position is the first to be rejected. */
  ghost predicate RejectsFirst(b: Backend, policy: Policy, entries: seq<PlanEntry>, i: nat, rule: Rule) {
    && i < |entries| && Rejects(b, policy, entries[i], rule)
    && forall j, other :: 0 <= j < i ==> !Rejects(b, policy, entries[j], other)
  }

  lemma {:induction false} JudgeByRules(b: Backend, policy: Policy, e: PlanEntry)
    ensures forall rule :: Rejects(b, policy, e, rule) ==> Judge(b, policy, e) == Err(ErrorFor(rule))
    ensures Judge(b, policy, e).Err? ==> exists rule :: Rejects(b, policy, e, rule)
    ensures Judge(b, policy, e).Ok? ==> Judge(b, policy, e).value == Admits(b, policy)(e)
  {
    assert PathIsMissing(b, e) == Violates(b, policy, e, PathRule);
    forall rule | Rejects(b, policy, e, rule) ensures Judge(b, policy, e) == Err(ErrorFor(rule)) {
      assert CheckedBefore(DirectionRule, rule) <==> !rule.DirectionRule?;
      assert CheckedBefore(LengthRule, rule) <==> rule.PathRule?;
    }
    assert Judge(b, policy, e) == Err(DirectionRejected) ==> Rejects(b, policy, e, DirectionRule);
    assert Judge(b, policy, e) == Err(DepthExceeded) ==> Rejects(b, policy, e, LengthRule);
    assert Judge(b, policy, e) == Err(PathMissing) ==> Rejects(b, policy, e, PathRule);
  }

  /** Filtering by the policy, stated by its rules. */
  lemma {:induction false} KeepByRules(b: Backend, policy: Policy, entries: seq<PlanEntry>)
    ensures Keep(b, policy, entries).Ok? ==> Keep(b, policy, entries).value == Filter(entries, Admits(b, policy))
    ensures Keep(b, policy, entries).Ok? ==> forall e, rule :: e in entries ==> !Rejects(b, policy, e, rule)
    ensures Keep(b, policy, entries).Err? ==>
              exists i: nat, rule ::
                RejectsFirst(b, policy, entries, i, rule) && Keep(b, policy, entries).error == ErrorFor(rule)
    decreases |entries|
  {
    if entries != [] {
      JudgeByRules(b, policy, entries[0]);
      KeepByRules(b, policy, entries[1..]);
      var verdict, rest := Judge(b, policy, entries[0]), Keep(b, policy, entries[1..]);
      if verdict.Err? {
        var rule :| Rejects(b, policy, entries[0], rule);
        assert RejectsFirst(b, policy, entries, 0, rule);
      } else if rest.Err? {
        var i: nat, rule :| RejectsFirst(b, policy, entries[1..], i, rule) && rest.error == ErrorFor(rule);
        RejectsLater(b, policy, entries, i, rule);
      }
    }
  }

  lemma {:induction false} RejectsLater(b: Backend, policy: Policy, entries: seq<PlanEntry>, i: nat, rule: Rule)
    requires entries != [] && RejectsFirst(b, policy, entries[1..], i, rule)
    requires forall other :: !Rejects(b, policy, entries[0], other)
    ensures RejectsFirst(b, policy, entries, i + 1, rule)
  {
    assert forall j :: 1 <= j < |entries| ==> entries[j] == entries[1..][j - 1];
  }

  /**
   `PolicyEngine.apply`: it raises if and only if the first rule some entry breaks has the
   strategy "raise", and then the error of that rule for the first such entry; otherwise it
   keeps the entries that break no rule, in plan order.
   */
  method ApplyPolicy(b: Backend, policy: Policy, entries: seq<PlanEntry>) returns (r: Result<seq<PlanEntry>, PlanError>)
    ensures r == Keep(b, policy, entries)
    ensures r.Err? <==> exists e, rule :: e in entries && Rejects(b, policy, e, rule)
    ensures r.Err? ==> exists i: nat, rule :: RejectsFirst(b, policy, entries, i, rule) && r.error == ErrorFor(rule)
    ensures r.Ok? ==> r.value == Filter(entries, Admits(b, policy))
  {
    KeepByRules(b, policy, entries);
    r := FilterEntries(b, policy, entries);
    if r.Err? {
      ghost var i: nat, rule :| RejectsFirst(b, policy, entries, i, rule);
      assert entries[i] in entries && Rejects(b, policy, entries[i], rule);
    }
  }

  /** The loop of `PolicyEngine.apply` */
  method FilterEntries(b: Backend, policy: Policy, entries: seq<PlanEntry>)
    returns (r: Result<seq<PlanEntry>, PlanError>)
    ensures r == Keep(b, policy, entries)
  {
    var kept := [];
    PrependNothing(Keep(b, policy, entries));
    assert entries[0..] == entries;
    for i := 0 to |entries|
      invariant Prepend(kept, Keep(b, policy, entries[i..])) == Keep(b, policy, entries)
    {
      assert entries[i..][1..] == entries[i + 1..];
      var verdict := Judge(b, policy, entries[i]);
      if verdict.Err? { return Err(verdict.error); }
      var rest := Keep(b, policy, entries[i + 1..]);
      if verdict.value {
        PrependTwice(kept, entries[i], rest);
        kept := kept + [entries[i]];
      } else {
        assert rest.Ok? ==> [] + rest.value == rest.value;
      }
    }
    assert kept + [] == kept;
    return Ok(kept);
  }

  function Prepend(front: seq<PlanEntry>, rest: Result<seq<PlanEntry>, PlanError>): Result<seq<PlanEntry>, PlanError> {
    if rest.Ok? then Ok(front + rest.value) else rest
  }

  lemma {:induction false} PrependNothing(rest: Result<seq<PlanEntry>, PlanError>)
    ensures Prepend([], rest) == rest
  {
    assert rest.Ok? ==> [] + rest.value == rest.value;
  }

  lemma {:induction false} PrependTwice(front: seq<PlanEntry>, entry: PlanEntry,
          rest: Result<seq<PlanEntry>, PlanError>)
    ensures Prepend(front, Prepend([entry], rest)) == Prepend(front + [entry], rest)
  {
    if rest.Ok? {
      assert front + ([entry] + rest.value) == (front + [entry]) + rest.value;
    }
  }

  /** What `PathFinder.find` computes, without its cache. */
  function FindPlan(b: Backend, discriminator: string, policy: Policy, target: Target, found: seq<Found>)
    : Result<seq<PlanEntry>, PlanError>
  {
    if !Compiles(b, target) then Err(TargetNotFound) else
      var planned :- PlanAll(b, discriminator, target, found);
      Keep(b, policy, planned)
  }

  // ---- the finder with its path cache ----

  /** `PathFinder`: paths between version pairs are computed once and remembered. */
  class PathFinder {
    const graph: Backend
    const discriminator: string
    const policy: Policy
    var paths: map<(NodeId, NodeId), seq<EdgeId>>

    constructor (graph: Backend, discriminator: string, policy: Policy)
      requires Consistent(graph)
      ensures Valid() && this.graph == graph && this.discriminator == discriminator && this.policy == policy
    {
      this.graph, this.discriminator, this.policy := graph, discriminator, policy;
      paths := map[];
    }

    /** Every remembered path is what the graph would compute now. */
    ghost predicate Valid()
      reads this
    {
      && Consistent(graph)
      && forall s, t :: (s, t) in paths ==> PathBetween(graph, s, t, discriminator) == Ok(paths[(s, t)])
    }

    /** `_resolve` */
    method Resolve(entry: Found, target: NodeEntry) returns (r: Result<PlanEntry, PlanError>)
      requires Valid()
      modifies this`paths
      ensures Valid()
      ensures r == (match PathBetween(graph, entry.node.id, target.id, discriminator)
                    case Ok(edges) => Ok(PlanEntry(entry.path, entry.node, target, edges))
                    case Err(error) => Err(PathFailed(error)))
    {
      var key := (entry.node.id, target.id);
      if key !in paths {
        var path := FindEdgePath(graph, entry.node.id, target.id, discriminator);
        if path.Err? { return Err(PathFailed(path.error)); }
        paths := paths[key := path.value];
      }
      return Ok(PlanEntry(entry.path, entry.node, target, paths[key]));
    }

    /** `_plan` */
    method Plan(found: seq<Found>, target: Target) returns (r: Result<seq<PlanEntry>, PlanError>)
      requires Valid()
      modifies this`paths
      ensures Valid() && r == PlanAll(graph, discriminator, target, found)
    {
      var resolved := [];
      PrependNothing(PlanAll(graph, discriminator, target, found));
      assert found[0..] == found;
      for i := 0 to |found|
        invariant Valid()
        invariant Prepend(resolved, PlanAll(graph, discriminator, target, found[i..]))
                    == PlanAll(graph, discriminator, target, found)
      {
        assert found[i..][1..] == found[i + 1..];
        var node := ResolveTarget(graph, target, found[i].node);
        if node.Err? { return Err(node.error); }
        ghost var rest := PlanAll(graph, discriminator, target, found[i + 1..]);
        if node.value.Some? {
          var entry := Resolve(found[i], node.value.value);
          if entry.Err? { return Err(entry.error); }
          PrependTwice(resolved, entry.value, rest);
          resolved := resolved + [entry.value];
        } else {
          assert rest.Ok? ==> [] + rest.value == rest.value;
        }
      }
      assert resolved + [] == resolved;
      return Ok(resolved);
    }

    /** `find`: for every history of earlier calls, the plan an uncached finder computes. */
    method Find(found: seq<Found>, target: Target) returns (r: Result<seq<PlanEntry>, PlanError>)
      requires Valid()
      modifies this`paths
      ensures Valid() && r == FindPlan(graph, discriminator, policy, target, found)
    {
      if !Compiles(graph, target) { return Err(TargetNotFound); }
      var planned := Plan(found, target);
      if planned.Err? { return planned; }
      r := ApplyPolicy(graph, policy, planned.value);
    }
  }

  // ---- well-formed plans ----

  /** A connected chain of executable edges with the discriminator, within one kind, from source to target. */
  ghost predicate SoundEntry(b: Backend, discriminator: string, entry: PlanEntry) {
    && Chain(b.edges, OnWalk(b, discriminator), entry.source.id, entry.target.id, entry.edges)
    && entry.source.id.kind == entry.target.id.kind
    && (entry.edges == [] <==> entry.source.id == entry.target.id)
  }

  lemma {:induction false} ChainEdgesUsable(b: Backend, discriminator: string, from: NodeId, to: NodeId,
          path: seq<EdgeId>)
    requires Chain(b.edges, OnWalk(b, discriminator), from, to, path)
    ensures forall e :: e in path ==> Usable(b, e)
    decreases |path|
  {
    if path != [] {
      ChainEdgesUsable(b, discriminator, path[0].target, to, path[1..]);
      assert OnWalk(b, discriminator)(path[0]);
    }
  }

  /** Planned entries are sound and in extraction order, so the policy's missing-path checks never fire. */
  lemma {:induction false} PlannedEntriesSound(b: Backend, discriminator: string, target: Target, found: seq<Found>)
    requires Consistent(b) && PlanAll(b, discriminator, target, found).Ok?
    ensures var plan := PlanAll(b, discriminator, target, found).value;
            && (forall i :: 0 <= i < |plan| ==> SoundEntry(b, discriminator, plan[i]) && !PathIsMissing(b, plan[i]))
            && Subsequence(EntryPaths(plan), FoundPaths(found))
  {
    PlannedAreSound(b, discriminator, target, found);
    PlannedInOrder(b, discriminator, target, found);
    var plan := PlanAll(b, discriminator, target, found).value;
    forall i | 0 <= i < |plan| ensures SoundEntry(b, discriminator, plan[i]) && !PathIsMissing(b, plan[i]) {
      assert plan[i] in plan;
    }
  }

  lemma {:induction false} PlannedAreSound(b: Backend, discriminator: string, target: Target, found: seq<Found>)
    requires Consistent(b) && PlanAll(b, discriminator, target, found).Ok?
    ensures forall e :: e in PlanAll(b, discriminator, target, found).value ==>
              SoundEntry(b, discriminator, e) && !PathIsMissing(b, e)
    decreases |found|
  {
    if found != [] {
      PlannedAreSound(b, discriminator, target, found[1..]);
      if PlanOne(b, discriminator, target, found[0]).value.Some? {
        PlanOneSound(b, discriminator, target, found[0]);
      }
    }
  }

  lemma {:induction false} PlannedInOrder(b: Backend, discriminator: string, target: Target, found: seq<Found>)
    requires PlanAll(b, discriminator, target, found).Ok?
    ensures Subsequence(EntryPaths(PlanAll(b, discriminator, target, found).value), FoundPaths(found))
    decreases |found|
  {
    if found != [] {
      PlannedInOrder(b, discriminator, target, found[1..]);
      var first := PlanOne(b, discriminator, target, found[0]).value;
      var rest := PlanAll(b, discriminator, target, found[1..]).value;
      assert FoundPaths(found) == [found[0].path] + FoundPaths(found[1..]);
      if first.Some? {
        KeepsHead(first.value, rest, FoundPaths(found[1..]));
      } else {
        assert [] + rest == rest;
        SubsequenceSkips(EntryPaths(rest), FoundPaths(found[1..]), found[0].path);
      }
    }
  }

  lemma {:induction false} KeepsHead(first: PlanEntry, rest: seq<PlanEntry>, paths: seq<Path>)
    requires Subsequence(EntryPaths(rest), paths)
    ensures Subsequence(EntryPaths([first] + rest), [first.path] + paths)
  {
    assert EntryPaths([first] + rest)[1..] == EntryPaths(rest) && ([first.path] + paths)[1..] == paths;
  }

  lemma {:induction false} PlanOneSound(b: Backend, discriminator: string, target: Target, found: Found)
    requires Consistent(b) && PlanOne(b, discriminator, target, found).Ok?
    requires PlanOne(b, discriminator, target, found).value.Some?
    ensures var entry := PlanOne(b, discriminator, target, found).value.value;
            SoundEntry(b, discriminator, entry) && !PathIsMissing(b, entry)
  {
    var entry := PlanOne(b, discriminator, target, found).value.value;
    EdgePathIsChain(b, found.node.id, entry.target.id, discriminator);
    ChainEdgesUsable(b, discriminator, entry.source.id, entry.target.id, entry.edges);
  }

  function EntryPaths(entries: seq<PlanEntry>): (r: seq<Path>)
    ensures |r| == |entries| && forall i :: 0 <= i < |r| ==> r[i] == entries[i].path
  {
    seq(|entries|, i requires 0 <= i < |entries| => entries[i].path)
  }

  function FoundPaths(found: seq<Found>): (r: seq<Path>)
    ensures |r| == |found| && forall i :: 0 <= i < |r| ==> r[i] == found[i].path
  {
    seq(|found|, i requires 0 <= i < |found| => found[i].path)
  }
}
