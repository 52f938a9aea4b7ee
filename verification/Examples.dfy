/**
 A small system that meets the assumptions made elsewhere: two versions of one model, the
 migration between them, which adds a field, and a document at the first version.  It runs to
 the second version, through a coordinator with its caches too, and shows what a
 downgrade-only policy leaves behind and what a strict one does to a current document.
 */
module Examples {
  import opened Wrappers
  import opened Collections
  import opened Sorting
  import opened Payload
  import opened Schedule
  import opened Execution
  import opened Identity
  import opened Search
  import opened Indexed
  import opened EdgePath
  import opened Extraction
  import opened Planning
  import opened Splicing
  import opened Runs
  import opened Convergence
  import opened Movement
  import opened Coordinator

  function Show(v: Version): string {
    if v == 1.0 then "1" else if v == 2.0 then "2" else "?"
  }

  function Parse(s: string): Option<Version> {
    if s == "1" then Some(1.0) else if s == "2" then Some(2.0) else None
  }

  const Texts: Codec := Codec("n", "kind", "version", Parse, Show)

  function ModelOf(v: Version): NodeEntry {
    Model(NodeId("n", "k", v), ModelRef("p", "e"), {"f"}, {})
  }

  const First: NodeEntry := ModelOf(1.0)

  const Second: NodeEntry := ModelOf(2.0)

  const Edge: EdgeId := EdgeId(First.id, Second.id, "default")

  const TwoVersions: Backend :=
    Backend([First, Second], [Edge], map["k" := [First, Second]],
        map[First.id := {Edge}], map[(First.id, Second.id) := [Edge]], {Edge})

  /** The second version has one more field. */
  function Document(v: Version): Json {
    Object([Field("kind", Text("k")), Field("version", Text(Show(v)))] + if v == 2.0 then [Field("age", Null)] else [])
  }

  /** The migration `{**data, "age": None}`. */
  function AddAge(x: Json): Option<Json> {
    if x.Object? then Some(Object(SetKey(x.fields, "age", Null))) else None
  }

  const Permissive: Policy := Policy(AnyDirection, Raise, Raise, -1, Raise)

  const Strict: Policy := Policy(Forward, Raise, Raise, -1, Raise)

  const DowngradeOnly: Policy := Policy(Backward, SkipEntry, Raise, -1, Raise)

  function RunnerWith(policy: Policy): Runner {
    Runner(Texts, TwoVersions, "default", policy, (e: EdgeId) => (x: Json) => AddAge(x))
  }

  // ---- the assumptions hold ----

  lemma {:induction false} TwoVersionsConsistent()
    ensures Consistent(TwoVersions) && Tidy(TwoVersions)
    ensures KindVersions(TwoVersions, "k") == [First, Second] && VersionIds(TwoVersions, "k") == [First.id, Second.id]
  {
    NodesGrouped();
    EdgesGrouped();
    assert Sorted(EntryLess, [First, Second]);
    assert Filter([Second], IsModel()) == [Second];
    assert [First, Second][1..] == [Second];
    assert Filter([First, Second], IsModel()) == [First, Second];
  }

  lemma {:induction false} NodesGrouped()
    ensures Groups([First, Second], KindOf, map["k" := [First, Second]])
  {
    assert Groups<string, NodeEntry>([], KindOf, map[]);
    GroupsSnoc<string, NodeEntry>([], KindOf, map[], First);
    assert [] + [First] == [First] && KindOf(First) == "k" && KindOf(Second) == "k";
    GroupsSnoc([First], KindOf, map["k" := [First]], Second);
    assert [First] + [Second] == [First, Second];
    assert map["k" := [First]]["k" := [First, Second]] == map["k" := [First, Second]];
  }

  lemma {:induction false} EdgesGrouped()
    ensures Groups([Edge], PairOf, map[(First.id, Second.id) := [Edge]])
  {
    assert Groups<(NodeId, NodeId), EdgeId>([], PairOf, map[]);
    GroupsSnoc<(NodeId, NodeId), EdgeId>([], PairOf, map[], Edge);
    assert [] + [Edge] == [Edge] && PairOf(Edge) == (First.id, Second.id);
  }

  lemma {:induction false} NullHoldsNothing(c: Codec, b: Backend, value: Json, path: Path)
    requires path != [] && Child(value, path[0]) == Some(Null)
    ensures !Matched(c, b, value, path)
  {
    assert Get(value, path) == Get(Null, path[1..]);
    if path[1..] != [] {
      assert Child(Null, path[1..][0]).None?;
    }
  }

  /** Adding a field writes over what was there, and leaves the rest of the dict. */
  lemma {:induction false} AddAgeFacts(c: Codec, b: Backend, x: Json)
    requires x.Object? && WellFormed(x) && c.kindKey != "age"
    ensures var y := AddAge(x).value;
            && y.Object? && WellFormed(y) && Child(y, Key(c.kindKey)) == Child(x, Key(c.kindKey))
            && forall path :: path != [] ==>
                 (path[0] == Key("age") ==> !Matched(c, b, y, path))
                 && (path[0] != Key("age") ==> Get(y, path) == Get(x, path))
  {
    var y := AddAge(x).value;
    if HasKey(x.fields, "age") {
      SetChildWellFormed(x, Key("age"), Null);
    }
    forall path | path != [] && path[0] == Key("age") ensures !Matched(c, b, y, path) {
      NullHoldsNothing(c, b, y, path);
    }
  }

  lemma {:induction false} TwoVersionsSound(policy: Policy)
    ensures SoundRunner(RunnerWith(policy))
  {
    TwoVersionsConsistent();
    var r := RunnerWith(policy);
    assert |"kind"| != |"version"|;
    assert r.codec.parse(r.codec.show(Edge.target.version)) == Some(2.0);
  }

  /** The configuration meets what convergence asks for, whatever the target. */
  lemma {:induction false} TwoVersionsGood(policy: Policy, t: Target)
    ensures GoodRunner(RunnerWith(policy), t)
  {
    TwoVersionsSound(policy);
    var r := RunnerWith(policy);
    forall e | e in r.graph.edges ensures KeepsSettled(r.codec, r.graph, t, e, r.migrate(e)) {
      forall x | WellFormed(x) && Carries(Texts, x, e.source.kind, e.source.version) && r.migrate(e)(x).Some?
        ensures StaysSettled(Texts, TwoVersions, t, x, r.migrate(e)(x).value)
      {
        AddAgeStaysSettled(t, x);
      }
    }
  }

  lemma {:induction false} AddAgeStaysSettled(t: Target, x: Json)
    requires x.Object? && WellFormed(x)
    ensures StaysSettled(Texts, TwoVersions, t, x, AddAge(x).value)
  {
    assert |"kind"| != |"age"|;
    AddAgeFacts(Texts, TwoVersions, x);
    var y := AddAge(x).value;
    if NestedSettled(Texts, TwoVersions, t, x) {
      forall path | path != [] && Matched(Texts, TwoVersions, y, path)
        ensures Settled(TwoVersions, t, NodeFor(Texts, TwoVersions, y, path))
      {
        assert Get(y, path) == Get(x, path);
        assert Matched(Texts, TwoVersions, x, path);
      }
    }
  }

  lemma {:induction false} TextsFaithful()
    ensures FaithfulText(Texts, TwoVersions)
  {
    assert "1"[0] != "2"[0];
  }

  // ---- what the document holds ----

  lemma {:induction false} DocumentFields(v: Version)
    ensures var d := Document(v);
            WellFormed(d) && FieldIndex(d.fields, "kind") == 0 && FieldIndex(d.fields, "version") == 1
  {
    var d := Document(v);
    assert |"kind"| != |"version"| && |"age"| != |"version"| && |"age"| != |"kind"|;
    assert FieldIndex(d.fields[1..], "version") == 0;
  }

  lemma {:induction false} DocumentMatches(v: Version)
    requires v == 1.0 || v == 2.0
    ensures Match(Texts, TwoVersions, Document(v)) == Some(ModelOf(v))
  {
    DocumentFields(v);
    assert "1"[0] != "2"[0];
    assert FindModel([Second], Second.id) == Some(Second);
    assert [First, Second][1..] == [Second];
    assert FindModel(TwoVersions.nodes, ModelOf(v).id) == Some(ModelOf(v));
  }

  lemma {:induction false} OnlyRootMatches(v: Version, path: Path)
    requires v == 1.0 || v == 2.0
    ensures Matched(Texts, TwoVersions, Document(v), path) <==> path == []
  {
    DocumentFields(v);
    DocumentMatches(v);
    var d := Document(v);
    if path != [] && Child(d, path[0]).Some? {
      if Child(d, path[0]).value.Text? {
        TextHoldsOnlyText(Child(d, path[0]).value.text, path[1..]);
      } else {
        NullHoldsNothing(Texts, TwoVersions, d, path);
      }
    }
  }

  lemma {:induction false} DocumentExtracts(v: Version)
    requires v == 1.0 || v == 2.0
    ensures Extract(Texts, TwoVersions, -1, Document(v)) == Ok([Found([], 0, ModelOf(v))])
  {
    var d := Document(v);
    DocumentFields(v);
    ExtractionExact(Texts, TwoVersions, -1, d);
    assert !SomeTooDeep(Texts, TwoVersions, -1, d, 0);
    var found := Extract(Texts, TwoVersions, -1, d).value;
    OnlyRootMatches(v, []);
    DocumentMatches(v);
    forall i | 0 <= i < |found| ensures found[i] == Found([], 0, ModelOf(v)) {
      assert Reports(Texts, TwoVersions, d, found[i]);
      OnlyRootMatches(v, found[i].path);
    }
    assert Matched(Texts, TwoVersions, d, []);
    assert |found| > 1 ==> found[0].path != found[1].path;
    assert |found| == 1;
    assert found == [found[0]];
  }

  // ---- the plan and the run ----

  lemma {:induction false} EdgeIsThePath()
    ensures PathBetween(TwoVersions, First.id, Second.id, "default") == Ok([Edge])
  {
    TwoVersionsConsistent();
    var ids := VersionIds(TwoVersions, "k");
    assert ids[0] == First.id && ids[1] == Second.id;
    forall i: nat | PairOnWalk(0, 1, i) ensures Usable(TwoVersions, PairEdge(ids, 0, 1, i, "default")) {
      assert i == 0;
    }
    assert EveryPairUsable(TwoVersions, ids, First.id, Second.id, 0, 1, "default");
    EdgePathSucceeds(TwoVersions, First.id, Second.id, "default");
    EdgePathIsChain(TwoVersions, First.id, Second.id, "default");
    OnlyChain(PathBetween(TwoVersions, First.id, Second.id, "default").value);
  }

  lemma {:induction false} OnlyChain(path: seq<EdgeId>)
    requires Chain(TwoVersions.edges, OnWalk(TwoVersions, "default"), First.id, Second.id, path)
    ensures path == [Edge]
  {
    assert path != [] && path[0] == Edge;
    assert path[1..] == [];
  }

  const Upgrade: PlanEntry := PlanEntry([], First, Second, [Edge])

  lemma {:induction false} DocumentPlans()
    ensures PlanAll(TwoVersions, "default", ToLatest, [Found([], 0, First)]) == Ok([Upgrade])
  {
    TwoVersionsConsistent();
    EdgeIsThePath();
    var found := Found([], 0, First);
    assert ResolveTarget(TwoVersions, ToLatest, First) == Ok(Some(Second));
    assert PlanOne(TwoVersions, "default", ToLatest, found) == Ok(Some(Upgrade));
    assert [found][1..] == [];
    assert [Upgrade] + [] == [Upgrade];
  }

  lemma {:induction false} UpgradeIsKept(policy: Policy)
    requires policy in {Permissive, Strict}
    ensures Keep(TwoVersions, policy, [Upgrade]) == Ok([Upgrade])
  {
    assert !PathIsMissing(TwoVersions, Upgrade);
    assert NodeLess(First.id, Second.id);
    assert [Upgrade][1..] == [] && [Upgrade] + [] == [Upgrade];
  }

  lemma {:induction false} StampedDocument()
    ensures AddAge(Document(1.0)).Some? && Stamp(AddAge(Document(1.0)).value, "version", "2") == Document(2.0)
  {
    var d := Document(1.0);
    DocumentFields(1.0);
    assert |"age"| != |"version"| && |"age"| != |"kind"|;
    var aged := d.fields + [Field("age", Null)];
    assert !HasKey(d.fields, "age") && SetKey(d.fields, "age", Null) == aged;
    assert aged[1..][0].key == "version" && FieldIndex(aged, "version") == 1;
    SetField(aged, "version", Text("2"));
    assert aged[1 := Field("version", Text("2"))] == Document(2.0).fields;
  }

  lemma {:induction false} UpgradePlanned(policy: Policy)
    requires policy in {Permissive, Strict}
    ensures PlanOf(RunnerWith(policy), ToLatest, -1, Document(1.0)) == [Upgrade]
    ensures FindPlan(TwoVersions, "default", policy, ToLatest, [Found([], 0, First)]) == Ok([Upgrade])
  {
    DocumentExtracts(1.0);
    DocumentPlans();
    UpgradeIsKept(policy);
  }

  lemma {:induction false} UpgradeRuns(r: Runner)
    requires r == RunnerWith(r.policy)
    ensures RunInOrder(Document(1.0), Bind(r, [Upgrade]), [0], "version") == Some(Document(2.0))
  {
    StampedDocument();
    var entries := Bind(r, [Upgrade]);
    var steps := BindSteps(r, [Edge]);
    assert steps[0].apply(Document(1.0)) == AddAge(Document(1.0)) && steps[0].target == "2" && steps[1..] == [];
    assert RunSteps(steps, "version", Document(1.0)) == Some(Document(2.0));
    assert RunEntry(Document(1.0), entries[0], "version") == Some(Document(2.0));
    assert [0][1..] == [];
  }

  /** The document at the first version runs to the second. */
  lemma {:induction false} DocumentUpgrades(policy: Policy)
    requires policy in {Permissive, Strict}
    ensures RunResult(RunnerWith(policy), ToLatest, -1, Document(1.0)) == Ok(Document(2.0))
  {
    DocumentExtracts(1.0);
    UpgradePlanned(policy);
    UpgradeRuns(RunnerWith(policy));
    assert Descending(1) == [0];
  }

  /** The added field hides no versioned dict of the document, so its migration keeps the nested entries. */
  lemma {:induction false} UpgradeKeeps(policy: Policy)
    requires policy in {Permissive, Strict}
    ensures MigrationsKeep(RunnerWith(policy), ToLatest, -1, Document(1.0))
  {
    var r, d := RunnerWith(policy), Document(1.0);
    UpgradePlanned(policy);
    DocumentFields(1.0);
    DocumentKeeps();
    assert r.migrate(Edge)(d) == AddAge(d);
    assert [Edge][1..] == [] && Descending(1) == [0] && [0][1..] == [];
    assert ChainKeeps(r, [Edge], d);
  }

  lemma {:induction false} DocumentKeeps()
    ensures SameEntries(Texts, TwoVersions, Document(1.0), AddAge(Document(1.0)).value)
  {
    var d := Document(1.0);
    DocumentFields(1.0);
    assert |"kind"| != |"age"| && |"version"| != |"age"|;
    AddAgeFacts(Texts, TwoVersions, d);
    forall path | path != [] ensures SameMatch(Texts, TwoVersions, d, AddAge(d).value, path) {
      OnlyRootMatches(1.0, path);
    }
  }

  /** Under the downgrade-only policy the same document stays outdated. */
  lemma {:induction false} DocumentStaysOutdated()
    ensures var r, d := RunnerWith(DowngradeOnly), Document(1.0);
            && RunResult(r, ToLatest, -1, d) == Ok(d) && !AllSettled(r.codec, r.graph, ToLatest, d)
            && !DropsOnlySettled(r, ToLatest, -1, d)
  {
    var r, d := RunnerWith(DowngradeOnly), Document(1.0);
    TwoVersionsConsistent();
    DocumentFields(1.0);
    DocumentExtracts(1.0);
    DocumentPlans();
    DowngradeOnlyChangesNothing(r, -1, d);
    FirstIsOutdated();
    UpgradeIsDropped();
    assert Planned(r, ToLatest, -1, d) == [Upgrade] && Upgrade in [Upgrade];
  }

  lemma {:induction false} FirstIsOutdated()
    ensures !AllSettled(Texts, TwoVersions, ToLatest, Document(1.0))
  {
    TwoVersionsConsistent();
    DocumentMatches(1.0);
    assert Matched(Texts, TwoVersions, Document(1.0), []);
    assert NodeFor(Texts, TwoVersions, Document(1.0), []) == First;
    assert !Settled(TwoVersions, ToLatest, First);
  }

  lemma {:induction false} UpgradeIsDropped()
    ensures Judge(TwoVersions, DowngradeOnly, Upgrade) == Ok(false) && Upgrade.source.id != Upgrade.target.id
  {
    NodeOrder();
  }

  lemma {:induction false} DocumentWellFormed()
    ensures WellFormed(Document(1.0))
  {
    DocumentFields(1.0);
  }

  lemma {:induction false} OnlyPermissiveTolerates(policy: Policy)
    requires policy in {Permissive, Strict}
    ensures ToleratesNoOps(policy) <==> policy == Permissive
  {
  }

  /**
   The strict policy rejects the document it just produced, and the permissive one returns it
   as it is.
   */
  lemma {:induction false} StrictRerunFails(policy: Policy)
    requires policy in {Permissive, Strict}
    ensures RunResult(RunnerWith(policy), ToLatest, -1, Document(2.0)) == Ok(Document(2.0)) <==> policy == Permissive
  {
    TwoVersionsSound(policy);
    DocumentWellFormed();
    DocumentUpgrades(policy);
    UpgradePlanned(policy);
    UpgradeKeeps(policy);
    RunIsIdempotent(RunnerWith(policy), ToLatest, -1, Document(1.0));
    OnlyPermissiveTolerates(policy);
  }

  // ---- a coordinator ----

  const Prints: Printer := Printer(_ => "'latest'", _ => "()")

  predicate OnlyLatest(t: Target) {
    t == ToLatest
  }

  lemma {:induction false} LatestPrinted()
    ensures FaithfulKeys(Show, Prints, OnlyLatest)
  {
    forall s, t | OnlyLatest(s) && OnlyLatest(t) ensures PrintsApart(Show, Prints, s, t) && OneNodePerText(Show, s, t) {
    }
  }

  /** A coordinator with a cache of one plan serves the document twice. */
  method RunTwice(interleave: bool) returns (once: Result<Json, RunError>, twice: Result<Json, RunError>)
    ensures once == Ok(Document(2.0)) && twice == Ok(Document(2.0))
  {
    TwoVersionsConsistent();
    TextsFaithful();
    LatestPrinted();
    DocumentFields(1.0);
    var r := RunnerWith(Permissive);
    var finder := new PathFinder(TwoVersions, "default", Permissive);
    var coordinator := new PlanCoordinator(Texts, finder, 1, Prints, OnlyLatest);
    DocumentOutcome();
    once := Run(r, coordinator, (n: NodeEntry) => true, ToLatest, -1, Document(1.0), interleave);
    twice := Run(r, coordinator, (n: NodeEntry) => true, ToLatest, -1, Document(1.0), interleave);
  }

  lemma {:induction false} DocumentOutcome()
    ensures RunOutcome(RunnerWith(Permissive), (n: NodeEntry) => true, ToLatest, -1, Document(1.0)) == Ok(Document(2.0))
  {
    DocumentUpgrades(Permissive);
  }
}
