/**
 Cached planning: which targets the cache key tells apart, and that through the plan cache and
 the finder's path cache the plan is the uncached one.
 */
module Coordinator {
  import opened Wrappers
  import opened Collections
  import opened Payload
  import opened Execution
  import opened Backends
  import opened Schedule
  import opened Identity
  import opened Indexed
  import opened EdgePath
  import opened Extraction
  import opened Planning
  import opened Runs
  import opened PlanCache

  /** `PlanKey` of a containerless plan: the target's key, and each entry's path and node text. */
  datatype PlanKey = PlanKey(target: string, entries: seq<(Path, string)>)

  function KeyEntries(c: Codec, found: seq<Found>): (r: seq<(Path, string)>)
    ensures |r| == |found| && forall i :: 0 <= i < |r| ==> r[i] == (found[i].path, NodeText(c.show, found[i].node.id))
  {
    seq(|found|, i requires 0 <= i < |found| => (found[i].path, NodeText(c.show, found[i].node.id)))
  }

  /** The texts of the graph's versions are told apart and contain no `@`, and its nodes share the codec's namespace. */
  ghost predicate FaithfulText(c: Codec, b: Backend) {
    && (forall m, n :: m in b.nodes && n in b.nodes ==> PlainVersions(c.show, m.id, n.id))
    && (forall n :: n in b.nodes ==> n.id.space == c.space)
  }

  ghost predicate Registered(b: Backend, found: seq<Found>) {
    forall i :: 0 <= i < |found| ==> found[i].node in b.nodes
  }

  ghost predicate SameFound(f: seq<Found>, g: seq<Found>) {
    |f| == |g| && forall i :: 0 <= i < |f| ==> f[i].path == g[i].path && f[i].node == g[i].node
  }

  /** Only paths and nodes matter to a plan. */
  lemma {:induction false} SameEntriesSamePlan(b: Backend, discriminator: string, target: Target, f: seq<Found>,
          g: seq<Found>)
    requires SameFound(f, g)
    ensures PlanAll(b, discriminator, target, f) == PlanAll(b, discriminator, target, g)
    decreases |f|
  {
    if f != [] {
      assert f[0].path == g[0].path && f[0].node == g[0].node;
      assert SameFound(f[1..], g[1..]);
      SameEntriesSamePlan(b, discriminator, target, f[1..], g[1..]);
    }
  }

  /** Entries with equal keys get the same plan. */
  lemma {:induction false} SameKeySamePlan(c: Codec, b: Backend, discriminator: string, target: Target, f: seq<Found>,
          g: seq<Found>)
    requires FaithfulText(c, b) && Consistent(b)
    requires Registered(b, f) && Registered(b, g) && KeyEntries(c, f) == KeyEntries(c, g)
    ensures PlanAll(b, discriminator, target, f) == PlanAll(b, discriminator, target, g)
  {
    assert |KeyEntries(c, f)| == |KeyEntries(c, g)|;
    forall i | 0 <= i < |f| ensures f[i].path == g[i].path && f[i].node == g[i].node {
      assert KeyEntries(c, f)[i] == KeyEntries(c, g)[i];
      assert f[i].node in b.nodes && g[i].node in b.nodes;
      NodeTextInjective(c.show, f[i].node.id, g[i].node.id);
      RegisteredUnique(b, f[i].node, g[i].node);
    }
    SameEntriesSamePlan(b, discriminator, target, f, g);
  }

  // ---- the key of a target ----

  /** Python's `repr`: of a specification that is not a node, and of the sorted items of a per-kind target. */
  datatype Printer = Printer(spec: Spec -> string, items: map<string, string> -> string)

  function SpecKey(show: Version -> string, p: Printer, spec: Spec): string {
    if spec.Fixed? then "node:" + NodeText(show, spec.node.id) else "repr:" + p.spec(spec)
  }

  function SpecKeys(show: Version -> string, p: Printer, kinds: map<string, Spec>): map<string, string> {
    map k | k in kinds :: SpecKey(show, p, kinds[k])
  }

  /** `target_key`. */
  function TargetKey(show: Version -> string, p: Printer, t: Target): string {
    match t
    case Single(spec) => SpecKey(show, p, spec)
    case ByKind(kinds) => "dict:" + p.items(SpecKeys(show, p, kinds))
  }

  predicate SpecOf(t: Target, spec: Spec) {
    match t
    case Single(s) => s == spec
    case ByKind(kinds) => exists k | k in kinds :: kinds[k] == spec
  }

  /** `repr` tells the specifications of the two targets apart, and their items. */
  ghost predicate PrintsApart(show: Version -> string, p: Printer, s: Target, t: Target) {
    && (forall x, y :: SpecOf(s, x) && SpecOf(t, y) && !x.Fixed? && !y.Fixed? && p.spec(x) == p.spec(y) ==> x == y)
    && (s.ByKind? && t.ByKind? ==>
          var m, n := SpecKeys(show, p, s.kinds), SpecKeys(show, p, t.kinds);
          p.items(m) == p.items(n) ==> m == n)
  }

  /** Equal, except that of a fixed node only its text counts. */
  predicate SameSpec(show: Version -> string, x: Spec, y: Spec) {
    if x.Fixed? && y.Fixed? then NodeText(show, x.node.id) == NodeText(show, y.node.id) else x == y
  }

  predicate SameTarget(show: Version -> string, s: Target, t: Target) {
    match (s, t)
    case (Single(x), Single(y)) => SameSpec(show, x, y)
    case (ByKind(m), ByKind(n)) => m.Keys == n.Keys && forall k :: k in m ==> SameSpec(show, m[k], n[k])
    case _ => false
  }

  lemma {:induction false} SpecKeyExact(show: Version -> string, p: Printer, x: Spec, y: Spec)
    requires !x.Fixed? && !y.Fixed? && p.spec(x) == p.spec(y) ==> x == y
    ensures SpecKey(show, p, x) == SpecKey(show, p, y) <==> SameSpec(show, x, y)
    ensures SpecKey(show, p, x)[0] in {'n', 'r'}
  {
    assert SpecKey(show, p, x)[5..] == if x.Fixed? then NodeText(show, x.node.id) else p.spec(x);
    assert SpecKey(show, p, y)[5..] == if y.Fixed? then NodeText(show, y.node.id) else p.spec(y);
    assert SpecKey(show, p, x)[0] == (if x.Fixed? then 'n' else 'r');
    assert SpecKey(show, p, y)[0] == (if y.Fixed? then 'n' else 'r');
  }

  lemma {:induction false} SpecKeysExact(show: Version -> string, p: Printer, m: map<string, Spec>,
          n: map<string, Spec>)
    requires PrintsApart(show, p, ByKind(m), ByKind(n))
    ensures SpecKeys(show, p, m) == SpecKeys(show, p, n) <==> SameTarget(show, ByKind(m), ByKind(n))
  {
    forall k | k in m && k in n
      ensures SpecKey(show, p, m[k]) == SpecKey(show, p, n[k]) <==> SameSpec(show, m[k], n[k])
    {
      assert SpecOf(ByKind(m), m[k]) && SpecOf(ByKind(n), n[k]);
      SpecKeyExact(show, p, m[k], n[k]);
    }
    var keys, others := SpecKeys(show, p, m), SpecKeys(show, p, n);
    assert keys.Keys == m.Keys && others.Keys == n.Keys;
    if SameTarget(show, ByKind(m), ByKind(n)) {
      assert keys == others;
    } else if keys == others {
      assert m.Keys == n.Keys;
      forall k | k in m ensures SameSpec(show, m[k], n[k]) {
        assert keys[k] == others[k];
      }
    }
  }

  /** Which targets the key tells apart: all but those that differ only in fixed nodes with one text. */
  lemma {:induction false} TargetKeyExact(show: Version -> string, p: Printer, s: Target, t: Target)
    requires PrintsApart(show, p, s, t)
    ensures TargetKey(show, p, s) == TargetKey(show, p, t) <==> SameTarget(show, s, t)
  {
    match (s, t)
    case (Single(x), Single(y)) =>
      assert SpecOf(s, x) && SpecOf(t, y);
      SpecKeyExact(show, p, x, y);
    case (ByKind(m), ByKind(n)) =>
      SpecKeysExact(show, p, m, n);
      var keys, others := p.items(SpecKeys(show, p, m)), p.items(SpecKeys(show, p, n));
      assert ("dict:" + keys)[5..] == keys && ("dict:" + others)[5..] == others;
    case (Single(x), ByKind(n)) =>
      SpecKeyExact(show, p, x, x);
    case (ByKind(m), Single(y)) =>
      SpecKeyExact(show, p, y, y);
  }

  /** Two nodes with one identity and different descriptors share a key, though they plan different targets. */
  lemma {:induction false} SharedKey(show: Version -> string, p: Printer, b: Backend, discriminator: string,
          m: NodeEntry, n: NodeEntry, found: Found)
    requires m.id == n.id && m != n && found.node.id.kind == m.id.kind
    requires PathBetween(b, found.node.id, m.id, discriminator).Ok?
    ensures TargetKey(show, p, Single(Fixed(m))) == TargetKey(show, p, Single(Fixed(n)))
    ensures PlanOne(b, discriminator, Single(Fixed(m)), found) != PlanOne(b, discriminator, Single(Fixed(n)), found)
  {
    assert PlanOne(b, discriminator, Single(Fixed(m)), found).value.value.target == m;
    assert PlanOne(b, discriminator, Single(Fixed(n)), found).value.value.target == n;
  }

  /** Of the fixed nodes in the two targets, those with one text are one node. */
  ghost predicate OneNodePerText(show: Version -> string, s: Target, t: Target) {
    forall m, n :: SpecOf(s, Fixed(m)) && SpecOf(t, Fixed(n)) && NodeText(show, m.id) == NodeText(show, n.id) ==> m == n
  }

  /** So a key determines the target among targets that are printed apart and name one node per text. */
  lemma {:induction false} TargetKeyFaithful(show: Version -> string, p: Printer, s: Target, t: Target)
    requires PrintsApart(show, p, s, t) && OneNodePerText(show, s, t)
    ensures TargetKey(show, p, s) == TargetKey(show, p, t) <==> s == t
  {
    TargetKeyExact(show, p, s, t);
    if SameTarget(show, s, t) {
      match (s, t)
      case (Single(x), Single(y)) =>
        SameSpecEqual(show, s, t, x, y);
      case (ByKind(m), ByKind(n)) =>
        forall k | k in m ensures m[k] == n[k] {
          SameSpecEqual(show, s, t, m[k], n[k]);
        }
        assert m == n;
    }
  }

  lemma {:induction false} SameSpecEqual(show: Version -> string, s: Target, t: Target, x: Spec, y: Spec)
    requires OneNodePerText(show, s, t) && SpecOf(s, x) && SpecOf(t, y) && SameSpec(show, x, y)
    ensures x == y
  {
    if x.Fixed? && y.Fixed? {
      assert SpecOf(s, Fixed(x.node)) && SpecOf(t, Fixed(y.node));
    }
  }

  // ---- the coordinator ----

  /** The targets that are asked for are printed apart, and name one node per text. */
  ghost predicate FaithfulKeys(show: Version -> string, p: Printer, serves: Target -> bool) {
    forall s, t :: serves(s) && serves(t) ==> PrintsApart(show, p, s, t) && OneNodePerText(show, s, t)
  }

  /** `ExecutionCoordinator`: extraction, cached path resolution and policy. */
  class PlanCoordinator {
    const codec: Codec
    const finder: PathFinder
    const cache: Cache<PlanKey, seq<PlanEntry>>
    const printer: Printer
    /** The targets callers ask for. */
    ghost const serves: Target -> bool

    constructor (codec: Codec, finder: PathFinder, size: int, printer: Printer, ghost serves: Target -> bool)
      requires finder.Valid() && size >= -1
      requires FaithfulText(codec, finder.graph) && FaithfulKeys(codec.show, printer, serves)
      ensures Valid() && this.codec == codec && this.finder == finder && this.printer == printer
      ensures this.serves == serves
      ensures fresh(cache)
    {
      this.codec, this.finder, this.printer, this.serves := codec, finder, printer, serves;
      cache := new Cache(size);
    }

    ghost function Uncached(target: Target, found: seq<Found>): Result<seq<PlanEntry>, PlanError> {
      FindPlan(finder.graph, finder.discriminator, finder.policy, target, found)
    }

    function KeyFor(target: Target, found: seq<Found>): PlanKey {
      PlanKey(TargetKey(codec.show, printer, target), KeyEntries(codec, found))
    }

    /** A cached plan is what an uncached finder computes for every call with that key. */
    ghost predicate Sound(key: PlanKey, plan: seq<PlanEntry>) {
      forall target, found :: serves(target) && Registered(finder.graph, found) && KeyFor(target, found) == key ==>
        Uncached(target, found) == Ok(plan)
    }

    ghost predicate Valid()
      reads this, finder, cache
    {
      && finder.Valid() && cache.Valid()
      && FaithfulText(codec, finder.graph) && FaithfulKeys(codec.show, printer, serves)
      && (forall x :: x in cache.entries ==> Sound(x.0, x.1))
    }

    lemma {:induction false} FreshPlanSound(target: Target, found: seq<Found>, plan: seq<PlanEntry>)
      requires Valid() && serves(target) && Registered(finder.graph, found) && Uncached(target, found) == Ok(plan)
      ensures Sound(KeyFor(target, found), plan)
    {
      forall t, f | serves(t) && Registered(finder.graph, f) && KeyFor(t, f) == KeyFor(target, found)
        ensures Uncached(t, f) == Ok(plan)
      {
        TargetKeyFaithful(codec.show, printer, t, target);
        SameKeySamePlan(codec, finder.graph, finder.discriminator, target, found, f);
      }
    }

    /**
     `plan`: for every cache size and every history of calls, the path plan an uncached finder
     computes for the extracted entries.
     */
    method Plan(data: Json, target: Target, limit: int) returns (r: Result<seq<PlanEntry>, RunError>)
      requires Valid() && serves(target) && WellFormed(data)
      modifies finder, cache
      ensures Valid()
      ensures r == match Extract(codec, finder.graph, limit, data)
                   case Err(path) => Err(NestingExceeded(path))
                   case Ok(found) =>
                     match Uncached(target, found)
                     case Err(error) => Err(PlanFailed(error))
                     case Ok(plan) => Ok(plan)
    {
      var extracted := Extract(codec, finder.graph, limit, data);
      if extracted.Err? { return Err(NestingExceeded(extracted.error)); }
      var found := extracted.value;
      ExtractedAreRegistered(codec, finder.graph, limit, data);
      var key := KeyFor(target, found);
      var cached := cache.Get(key);
      if cached.Some? {
        assert Sound(key, cached.value);
        return Ok(cached.value);
      }
      var plan := finder.Find(found, target);
      if plan.Err? { return Err(PlanFailed(plan.error)); }
      FreshPlanSound(target, found, plan.value);
      cache.Put(key, plan.value);
      return Ok(plan.value);
    }
  }

  lemma {:induction false} ExtractedAreRegistered(c: Codec, b: Backend, limit: int, data: Json)
    requires WellFormed(data) && Extract(c, b, limit, data).Ok?
    ensures Registered(b, Extract(c, b, limit, data).value)
  {
    ExtractionExact(c, b, limit, data);
    var found := Extract(c, b, limit, data).value;
    forall i | 0 <= i < |found| ensures found[i].node in b.nodes {
      assert Reports(c, b, data, found[i]);
    }
  }

  // ---- the whole run ----

  /** The outcome of `Runner.run`: the adapter must identify the target model of every planned entry. */
  function RunOutcome(r: Runner, identifies: NodeEntry -> bool, target: Target, limit: int, data: Json)
    : Result<Json, RunError>
  {
    var found := Extract(r.codec, r.graph, limit, data);
    var plan := if found.Err? then Err(NoVersions)
        else FindPlan(r.graph, r.discriminator, r.policy, target, found.value);
    if plan.Ok? && exists entry :: entry in plan.value && !identifies(entry.target) then Err(UnknownModel)
    else RunResult(r, target, limit, data)
  }

  /**
   A run is refused for an unknown model exactly when the plan exists and has an entry whose
   target is not identified.
   */
  lemma {:induction false} RunOutcomeExact(r: Runner, identifies: NodeEntry -> bool, t: Target, limit: int, data: Json)
    requires WellFormed(data) && Consistent(r.graph)
    ensures var outcome := RunOutcome(r, identifies, t, limit, data);
            && (outcome == Err(UnknownModel) <==>
                  && Extract(r.codec, r.graph, limit, data).Ok? && PlanExists(r, t, data)
                  && exists e :: Kept(r, t, data, e) && !identifies(e.target))
            && (outcome != Err(UnknownModel) ==> outcome == RunResult(r, t, limit, data))
  {
    RunErrors(r, t, limit, data);
    if Extract(r.codec, r.graph, limit, data).Ok? {
      PlanExactly(r, t, limit, data);
    }
  }

  /** The target compiles, every versioned dict can be planned, and the policy raises on none. */
  ghost predicate PlanExists(r: Runner, t: Target, data: Json) {
    && Compiles(r.graph, t) && Plannable(r, t, data)
    && forall e :: Plans(r, t, data, e) ==> Judge(r.graph, r.policy, e).Ok?
  }

  ghost predicate Configures(r: Runner, coordinator: PlanCoordinator)
    reads coordinator
  {
    && coordinator.codec == r.codec && coordinator.finder.graph == r.graph
    && coordinator.finder.discriminator == r.discriminator && coordinator.finder.policy == r.policy
  }

  /** `Runner.run` without a source model, through both caches and on either backend. */
  method Run(r: Runner, coordinator: PlanCoordinator, identifies: NodeEntry -> bool, target: Target, limit: int,
          data: Json, interleave: bool)
    returns (result: Result<Json, RunError>)
    requires WellFormed(data) && coordinator.Valid() && coordinator.serves(target) && Configures(r, coordinator)
    modifies coordinator.finder, coordinator.cache
    ensures coordinator.Valid() && result == RunOutcome(r, identifies, target, limit, data)
  {
    var planned := coordinator.Plan(data, target, limit);
    if planned.Err? { return Err(planned.error); }
    var known := AllIdentified(identifies, planned.value);
    if !known { return Err(UnknownModel); }
    result := ExecutePlan(r, target, limit, data, planned.value, interleave);
  }

  method AllIdentified(identifies: NodeEntry -> bool, plan: seq<PlanEntry>) returns (known: bool)
    ensures known <==> forall entry :: entry in plan ==> identifies(entry.target)
  {
    for i := 0 to |plan|
      invariant forall k :: 0 <= k < i ==> identifies(plan[k].target)
    {
      if !identifies(plan[i].target) {
        assert plan[i] in plan;
        return false;
      }
    }
    return true;
  }
}
