/**
 The containerless payload walk: which dicts it reports, in which order, and when the
 nesting limit stops it.
 */
module Extraction {
  import opened Wrappers
  import opened Collections
  import opened Payload
  import opened Identity
  import opened Indexed

  /** Where a payload keeps its identity, and how versions are written. */
  datatype Codec = Codec(
    space: string, kindKey: string, versionKey: string,
    parse: string -> Option<Version>, show: Version -> string)

  function FindModel(nodes: seq<NodeEntry>, id: NodeId): (r: Option<NodeEntry>)
    ensures r.Some? ==> r.value in nodes && r.value.id == id && r.value.Model?
    ensures r.None? ==> forall n :: n in nodes && n.Model? ==> n.id != id
  {
    if nodes == [] then None
    else if nodes[0].id == id && nodes[0].Model? then Some(nodes[0])
    else FindModel(nodes[1..], id)
  }

  /** `_match`: the registered model a dict claims to be. */
  function Match(c: Codec, b: Backend, value: Json): (r: Option<NodeEntry>)
    ensures r.Some? ==> value.Object? && r.value in b.nodes && r.value.Model?
  {
    if !value.Object? then None else
      var kind, version := Child(value, Key(c.kindKey)), Child(value, Key(c.versionKey));
      if kind.None? || version.None? || !kind.value.Text? || !version.value.Text? then None else
        var parsed :- c.parse(version.value.text);
        FindModel(b.nodes, NodeId(c.space, kind.value.text, parsed))
  }

  datatype Found = Found(path: Path, depth: nat, node: NodeEntry)

  // ---- the walk ----

  /** The nested values of a container, in order. */
  function Kids(value: Json): (kids: seq<(Step, Json)>)
    ensures forall k :: k in kids ==> k.1 < value
  {
    match value
    case Object(fields) => seq(|fields|, i requires 0 <= i < |fields| => (Key(fields[i].key), fields[i].value))
    case Array(items) => seq(|items|, i requires 0 <= i < |items| => (Index(i), items[i]))
    case _ => []
  }

  /** `_walk_containerless`; an error is the path at which the nesting limit was exceeded. */
  function Walk(c: Codec, b: Backend, limit: int, value: Json, path: Path, depth: nat, nested: nat)
    : Result<seq<Found>, Path>
    decreases value, |Kids(value)| + 1
  {
    var source := Match(c, b, value);
    if source.Some? then
      if limit >= 0 && nested > limit then Err(path) else
        var below :- WalkKids(c, b, limit, value, Kids(value), path, depth, nested + 1);
        Ok([Found(path, depth, source.value)] + below)
    else
      WalkKids(c, b, limit, value, Kids(value), path, depth, nested)
  }

  function WalkKids(c: Codec, b: Backend, limit: int, ghost parent: Json, kids: seq<(Step, Json)>, path: Path,
          depth: nat, nested: nat)
    : Result<seq<Found>, Path>
    requires forall k :: k in kids ==> k.1 < parent
    decreases parent, |kids|
  {
    if kids == [] then Ok([]) else
      assert kids[0] in kids;
      var first :- Walk(c, b, limit, kids[0].1, path + [kids[0].0], depth + 1, nested);
      var rest :- WalkKids(c, b, limit, parent, kids[1..], path, depth, nested);
      Ok(first + rest)
  }

  /** `PayloadWalker.extract` without a source model. */
  function Extract(c: Codec, b: Backend, limit: int, data: Json): Result<seq<Found>, Path> {
    Walk(c, b, limit, data, [], 0, 0)
  }

  // ---- what it should list ----

  /** The dict at `path` matches a registered model. */
  predicate Matched(c: Codec, b: Backend, data: Json, path: Path) {
    Get(data, path).Some? && Match(c, b, Get(data, path).value).Some?
  }

  function NodeFor(c: Codec, b: Backend, data: Json, path: Path): NodeEntry
    requires Matched(c, b, data, path)
  {
    Match(c, b, Get(data, path).value).value
  }

  /** The number of matched dicts strictly above `path`. */
  function MatchedAbove(c: Codec, b: Backend, data: Json, path: Path): nat
    decreases |path|
  {
    if path == [] then 0 else
      (if Match(c, b, data).Some? then 1 else 0) +
      (if Child(data, path[0]).Some? then MatchedAbove(c, b, Child(data, path[0]).value, path[1..]) else 0)
  }

  /** A match nested below more than `limit` other matches (negative limits are no limit). */
  ghost predicate TooDeep(c: Codec, b: Backend, limit: int, data: Json, path: Path, nested: nat) {
    limit >= 0 && Matched(c, b, data, path) && nested + MatchedAbove(c, b, data, path) > limit
  }

  /** The place of a step among a container's entries. */
  function Place(value: Json, step: Step): nat {
    if value.Object? && step.Key? then FieldIndex(value.fields, step.key)
    else if step.Index? then step.index else 0
  }

  /** Pre-order: a container before its contents, earlier entries before later ones. */
  predicate Before(data: Json, p: Path, q: Path)
    decreases |p|
  {
    if q == [] then false
    else if p == [] then true
    else if p[0] == q[0] then Child(data, p[0]).Some? && Before(Child(data, p[0]).value, p[1..], q[1..])
    else Place(data, p[0]) < Place(data, q[0])
  }

  lemma {:induction false} KidsAreChildren(value: Json)
    requires WellFormed(value)
    ensures forall i :: 0 <= i < |Kids(value)| ==>
              Child(value, Kids(value)[i].0) == Some(Kids(value)[i].1) && Place(value, Kids(value)[i].0) == i
              && WellFormed(Kids(value)[i].1)
    ensures forall step :: !value.Text? && Child(value, step).Some? ==>
              Place(value, step) < |Kids(value)| && Kids(value)[Place(value, step)] == (step, Child(value, step).value)
  {
    var kids := Kids(value);
    if value.Object? {
      forall i | 0 <= i < |kids| ensures FieldIndex(value.fields, value.fields[i].key) == i {
      }
    }
  }

  // ---- the unlimited listing ----

  /** Every matched dict with its path, in pre-order. */
  function Listing(c: Codec, b: Backend, value: Json): seq<(Path, NodeEntry)>
    decreases value, |Kids(value)| + 1
  {
    var source := Match(c, b, value);
    (if source.Some? then [([], source.value)] else []) + ListKids(c, b, value, Kids(value))
  }

  function ListKids(c: Codec, b: Backend, ghost parent: Json, kids: seq<(Step, Json)>): seq<(Path, NodeEntry)>
    requires forall k :: k in kids ==> k.1 < parent
    decreases parent, |kids|
  {
    if kids == [] then [] else
      assert kids[0] in kids;
      Under(kids[0].0, Listing(c, b, kids[0].1)) + ListKids(c, b, parent, kids[1..])
  }

  function Under(step: Step, list: seq<(Path, NodeEntry)>): (r: seq<(Path, NodeEntry)>)
    ensures |r| == |list| && forall i :: 0 <= i < |r| ==> r[i] == ([step] + list[i].0, list[i].1)
  {
    seq(|list|, i requires 0 <= i < |list| => ([step] + list[i].0, list[i].1))
  }

  function At(path: Path, depth: nat, list: seq<(Path, NodeEntry)>): (r: seq<Found>)
    ensures |r| == |list|
    ensures forall i :: 0 <= i < |r| ==> r[i] == Found(path + list[i].0, depth + |list[i].0|, list[i].1)
  {
    seq(|list|, i requires 0 <= i < |list| => Found(path + list[i].0, depth + |list[i].0|, list[i].1))
  }

  lemma {:induction false} AtConcat(path: Path, depth: nat, a: seq<(Path, NodeEntry)>, b: seq<(Path, NodeEntry)>)
    ensures At(path, depth, a + b) == At(path, depth, a) + At(path, depth, b)
  {
  }

  lemma {:induction false} AtUnder(path: Path, depth: nat, step: Step, list: seq<(Path, NodeEntry)>)
    ensures At(path, depth, Under(step, list)) == At(path + [step], depth + 1, list)
  {
    forall i | 0 <= i < |list| ensures path + ([step] + list[i].0) == (path + [step]) + list[i].0 {
    }
  }

  /** The walk yields the listing, unless it raises. */
  lemma {:induction false} WalkListing(c: Codec, b: Backend, limit: int, value: Json, path: Path, depth: nat,
          nested: nat)
    requires Walk(c, b, limit, value, path, depth, nested).Ok?
    ensures Walk(c, b, limit, value, path, depth, nested).value == At(path, depth, Listing(c, b, value))
    decreases value, |Kids(value)| + 1
  {
    var source := Match(c, b, value);
    var own := if source.Some? then [([], source.value)] else [];
    WalkKidsListing(c, b, limit, value, Kids(value), path, depth, if source.Some? then nested + 1 else nested);
    AtConcat(path, depth, own, ListKids(c, b, value, Kids(value)));
    assert path + [] == path;
    if source.Some? {
      assert At(path, depth, own) == [Found(path, depth, source.value)];
    } else {
      assert At(path, depth, own) == [];
    }
  }

  lemma {:induction false} WalkKidsListing(c: Codec, b: Backend, limit: int, parent: Json, kids: seq<(Step, Json)>,
                                           path: Path, depth: nat, nested: nat)
    requires forall k :: k in kids ==> k.1 < parent
    requires WalkKids(c, b, limit, parent, kids, path, depth, nested).Ok?
    ensures WalkKids(c, b, limit, parent, kids, path, depth, nested).value
              == At(path, depth, ListKids(c, b, parent, kids))
    decreases parent, |kids|
  {
    if kids != [] {
      assert kids[0] in kids;
      WalkListing(c, b, limit, kids[0].1, path + [kids[0].0], depth + 1, nested);
      WalkKidsListing(c, b, limit, parent, kids[1..], path, depth, nested);
      var here := Listing(c, b, kids[0].1);
      AtUnder(path, depth, kids[0].0, here);
      AtConcat(path, depth, Under(kids[0].0, here), ListKids(c, b, parent, kids[1..]));
    }
  }

  // ---- when it raises ----

  ghost predicate SomeTooDeep(c: Codec, b: Backend, limit: int, value: Json, nested: nat) {
    exists path :: TooDeep(c, b, limit, value, path, nested)
  }

  lemma {:induction false} WalkRaises(c: Codec, b: Backend, limit: int, value: Json, path: Path, depth: nat,
          nested: nat)
    requires WellFormed(value)
    ensures Walk(c, b, limit, value, path, depth, nested).Err? <==> SomeTooDeep(c, b, limit, value, nested)
    decreases value, |Kids(value)| + 1
  {
    var source := Match(c, b, value);
    var inner := if source.Some? then nested + 1 else nested;
    KidsAreChildren(value);
    assert forall k :: k in Kids(value) ==> WellFormed(k.1);
    WalkKidsRaises(c, b, limit, value, Kids(value), path, depth, inner);
    RaisesByKids(c, b, limit, value, nested, inner);
    RaisesHereOrBelow(c, b, limit, value, path, depth, nested, inner);
  }

  lemma {:induction false} RaisesHereOrBelow(c: Codec, b: Backend, limit: int, value: Json, path: Path, depth: nat,
          nested: nat, inner: nat)
    requires inner == nested + (if Match(c, b, value).Some? then 1 else 0)
    ensures Walk(c, b, limit, value, path, depth, nested).Err? <==>
              TooDeep(c, b, limit, value, [], nested) ||
              WalkKids(c, b, limit, value, Kids(value), path, depth, inner).Err?
  {
  }

  lemma {:induction false} WalkKidsRaises(c: Codec, b: Backend, limit: int, parent: Json, kids: seq<(Step, Json)>,
                                          path: Path, depth: nat, nested: nat)
    requires forall k :: k in kids ==> k.1 < parent && WellFormed(k.1)
    ensures WalkKids(c, b, limit, parent, kids, path, depth, nested).Err? <==>
              exists i :: 0 <= i < |kids| && SomeTooDeep(c, b, limit, kids[i].1, nested)
    decreases parent, |kids|
  {
    if kids != [] {
      assert kids[0] in kids;
      WalkRaises(c, b, limit, kids[0].1, path + [kids[0].0], depth + 1, nested);
      WalkKidsRaises(c, b, limit, parent, kids[1..], path, depth, nested);
      assert forall i :: 0 <= i < |kids[1..]| ==> kids[1..][i] == kids[i + 1];
      assert forall i :: 1 <= i < |kids| ==> kids[i] == kids[1..][i - 1];
    }
  }

  lemma {:induction false} RaisesByKids(c: Codec, b: Backend, limit: int, value: Json, nested: nat, inner: nat)
    requires WellFormed(value) && inner == nested + (if Match(c, b, value).Some? then 1 else 0)
    ensures SomeTooDeep(c, b, limit, value, nested) <==>
              TooDeep(c, b, limit, value, [], nested)
              || exists i :: 0 <= i < |Kids(value)| && SomeTooDeep(c, b, limit, Kids(value)[i].1, inner)
  {
    KidsAreChildren(value);
    var kids := Kids(value);
    forall path | path != [] && TooDeep(c, b, limit, value, path, nested)
      ensures exists i :: 0 <= i < |kids| && SomeTooDeep(c, b, limit, kids[i].1, inner)
    {
      if value.Text? {
        TextHoldsOnlyText(value.text, path);
      } else {
        var i := Place(value, path[0]);
        assert TooDeep(c, b, limit, kids[i].1, path[1..], inner);
      }
    }
    forall i, path | 0 <= i < |kids| && TooDeep(c, b, limit, kids[i].1, path, inner)
      ensures TooDeep(c, b, limit, value, [kids[i].0] + path, nested)
    {
      assert ([kids[i].0] + path)[1..] == path;
    }
  }

  /** The path is the first, in pre-order, whose match is nested too deep. */
  ghost predicate FirstTooDeep(c: Codec, b: Backend, limit: int, value: Json, path: Path, nested: nat) {
    && TooDeep(c, b, limit, value, path, nested)
    && forall other :: TooDeep(c, b, limit, value, other, nested) ==> other == path || Before(value, path, other)
  }

  /** The error names the first path that is nested too deep. */
  lemma {:induction false} WalkRaisesAt(c: Codec, b: Backend, limit: int, value: Json, path: Path, depth: nat,
          nested: nat)
    returns (below: Path)
    requires WellFormed(value) && Walk(c, b, limit, value, path, depth, nested).Err?
    ensures Walk(c, b, limit, value, path, depth, nested) == Err(path + below)
    ensures FirstTooDeep(c, b, limit, value, below, nested)
    decreases value, |Kids(value)| + 1
  {
    var source := Match(c, b, value);
    if source.Some? && limit >= 0 && nested > limit {
      below := [];
      assert path + [] == path;
    } else {
      var inner := if source.Some? then nested + 1 else nested;
      var kids := Kids(value);
      KidsAreChildren(value);
      assert forall k :: k in kids ==> WellFormed(k.1);
      var k, inside := WalkKidsRaisesAt(c, b, limit, value, kids, path, depth, inner);
      below := [kids[k].0] + inside;
      assert path + [kids[k].0] + inside == path + below;
      FirstBelow(c, b, limit, value, k, inside, nested, inner);
    }
  }

  lemma {:induction false} WalkKidsRaisesAt(c: Codec, b: Backend, limit: int, parent: Json, kids: seq<(Step, Json)>,
          path: Path, depth: nat, nested: nat)
    returns (k: nat, inside: Path)
    requires forall k :: k in kids ==> k.1 < parent && WellFormed(k.1)
    requires WalkKids(c, b, limit, parent, kids, path, depth, nested).Err?
    ensures k < |kids|
    ensures WalkKids(c, b, limit, parent, kids, path, depth, nested) == Err(path + [kids[k].0] + inside)
    ensures FirstTooDeep(c, b, limit, kids[k].1, inside, nested)
    ensures forall j :: 0 <= j < k ==> !SomeTooDeep(c, b, limit, kids[j].1, nested)
    decreases parent, |kids|
  {
    assert kids[0] in kids;
    WalkRaises(c, b, limit, kids[0].1, path + [kids[0].0], depth + 1, nested);
    if Walk(c, b, limit, kids[0].1, path + [kids[0].0], depth + 1, nested).Err? {
      k := 0;
      inside := WalkRaisesAt(c, b, limit, kids[0].1, path + [kids[0].0], depth + 1, nested);
    } else {
      k, inside := WalkKidsRaisesAt(c, b, limit, parent, kids[1..], path, depth, nested);
      assert forall j :: 1 <= j < |kids| ==> kids[j] == kids[1..][j - 1];
      k := k + 1;
    }
  }

  /** The first too deep below the first child that has one is the first in the container. */
  lemma {:induction false} FirstBelow(c: Codec, b: Backend, limit: int, value: Json, k: nat, inside: Path, nested: nat,
          inner: nat)
    requires WellFormed(value) && k < |Kids(value)| && inner == nested + (if Match(c, b, value).Some? then 1 else 0)
    requires FirstTooDeep(c, b, limit, Kids(value)[k].1, inside, inner) && !TooDeep(c, b, limit, value, [], nested)
    requires forall j :: 0 <= j < k ==> !SomeTooDeep(c, b, limit, Kids(value)[j].1, inner)
    ensures FirstTooDeep(c, b, limit, value, [Kids(value)[k].0] + inside, nested)
  {
    DeepFrom(c, b, limit, value, k, inside, nested, inner);
    forall other | TooDeep(c, b, limit, value, other, nested)
      ensures other == [Kids(value)[k].0] + inside || Before(value, [Kids(value)[k].0] + inside, other)
    {
      AfterFirst(c, b, limit, value, k, inside, other, nested, inner);
    }
  }

  lemma {:induction false} DeepFrom(c: Codec, b: Backend, limit: int, value: Json, k: nat, inside: Path, nested: nat,
          inner: nat)
    requires WellFormed(value) && k < |Kids(value)| && inner == nested + (if Match(c, b, value).Some? then 1 else 0)
    requires TooDeep(c, b, limit, Kids(value)[k].1, inside, inner)
    ensures TooDeep(c, b, limit, value, [Kids(value)[k].0] + inside, nested)
  {
    KidsAreChildren(value);
    assert ([Kids(value)[k].0] + inside)[1..] == inside;
  }

  lemma {:induction false} AfterFirst(c: Codec, b: Backend, limit: int, value: Json, k: nat, inside: Path, other: Path,
          nested: nat, inner: nat)
    requires WellFormed(value) && k < |Kids(value)| && inner == nested + (if Match(c, b, value).Some? then 1 else 0)
    requires FirstTooDeep(c, b, limit, Kids(value)[k].1, inside, inner) && !TooDeep(c, b, limit, value, [], nested)
    requires forall j :: 0 <= j < k ==> !SomeTooDeep(c, b, limit, Kids(value)[j].1, inner)
    requires TooDeep(c, b, limit, value, other, nested)
    ensures other == [Kids(value)[k].0] + inside || Before(value, [Kids(value)[k].0] + inside, other)
  {
    var j := DeepBelow(c, b, limit, value, other, nested, inner);
    assert SomeTooDeep(c, b, limit, Kids(value)[j].1, inner);
    if j == k {
      assert other == [other[0]] + other[1..];
      BeforeBelow(value, k, inside, other[1..]);
    } else {
      BeforeAcross(value, k, inside, j, other);
    }
  }

  lemma {:induction false} DeepBelow(c: Codec, b: Backend, limit: int, value: Json, path: Path, nested: nat, inner: nat)
    returns (j: nat)
    requires WellFormed(value) && inner == nested + (if Match(c, b, value).Some? then 1 else 0)
    requires TooDeep(c, b, limit, value, path, nested) && !TooDeep(c, b, limit, value, [], nested)
    ensures j < |Kids(value)| && path != [] && path[0] == Kids(value)[j].0
    ensures TooDeep(c, b, limit, Kids(value)[j].1, path[1..], inner)
  {
    KidsAreChildren(value);
    if value.Text? {
      TextHoldsOnlyText(value.text, path);
    }
    j := Place(value, path[0]);
  }

  lemma {:induction false} BeforeBelow(value: Json, k: nat, p: Path, q: Path)
    requires WellFormed(value) && k < |Kids(value)| && (Before(Kids(value)[k].1, p, q) || p == q)
    ensures p != q ==> Before(value, [Kids(value)[k].0] + p, [Kids(value)[k].0] + q)
  {
    if p != q {
      KidsAreChildren(value);
      assert ([Kids(value)[k].0] + p)[1..] == p && ([Kids(value)[k].0] + q)[1..] == q;
    }
  }

  lemma {:induction false} BeforeAcross(value: Json, k: nat, p: Path, j: nat, q: Path)
    requires WellFormed(value) && k < j < |Kids(value)| && q != [] && q[0] == Kids(value)[j].0
    ensures Before(value, [Kids(value)[k].0] + p, q)
  {
    KidsAreChildren(value);
  }

  // ---- exactness and order ----

  lemma {:induction false} ListingExact(c: Codec, b: Backend, value: Json, path: Path, node: NodeEntry)
    requires WellFormed(value)
    ensures (path, node) in Listing(c, b, value) <==> Matched(c, b, value, path) && NodeFor(c, b, value, path) == node
    decreases |path|
  {
    KidsAreChildren(value);
    var kids := Kids(value);
    ListKidsMembers(c, b, value, kids, path, node);
    ListingSplits(c, b, value, path, node);
    if path == [] {
    } else if value.Text? {
      TextHoldsOnlyText(value.text, path);
    } else if Child(value, path[0]).Some? {
      ListingExact(c, b, Child(value, path[0]).value, path[1..], node);
      BelowChild(c, b, value, path);
      assert forall i :: 0 <= i < |kids| && kids[i].0 == path[0] ==> i == Place(value, path[0]);
    } else {
      assert !Matched(c, b, value, path);
    }
  }

  lemma {:induction false} BelowChild(c: Codec, b: Backend, value: Json, path: Path)
    requires path != [] && Child(value, path[0]).Some?
    ensures Matched(c, b, value, path) <==> Matched(c, b, Child(value, path[0]).value, path[1..])
    ensures Matched(c, b, value, path) ==>
              NodeFor(c, b, value, path) == NodeFor(c, b, Child(value, path[0]).value, path[1..])
  {
  }

  /** A listed path is the root's own or one below a child. */
  lemma {:induction false} ListingSplits(c: Codec, b: Backend, value: Json, path: Path, node: NodeEntry)
    ensures (path, node) in Listing(c, b, value) <==>
              (path == [] && Match(c, b, value) == Some(node)) || (path, node) in ListKids(c, b, value, Kids(value))
  {
  }

  lemma {:induction false} ListKidsMembers(c: Codec, b: Backend, parent: Json, kids: seq<(Step, Json)>, path: Path,
          node: NodeEntry)
    requires forall k :: k in kids ==> k.1 < parent
    ensures (path, node) in ListKids(c, b, parent, kids) <==>
              path != [] &&
              exists i :: 0 <= i < |kids| && kids[i].0 == path[0] && (path[1..], node) in Listing(c, b, kids[i].1)
    decreases |kids|
  {
    if kids != [] {
      assert kids[0] in kids;
      ListKidsMembers(c, b, parent, kids[1..], path, node);
      var here := Listing(c, b, kids[0].1);
      UnderMembers(kids[0].0, here, path, node);
      assert forall i :: 0 <= i < |kids[1..]| ==> kids[1..][i] == kids[i + 1];
      assert forall i :: 1 <= i < |kids| ==> kids[i] == kids[1..][i - 1];
    }
  }

  lemma {:induction false} UnderMembers(step: Step, list: seq<(Path, NodeEntry)>, path: Path, node: NodeEntry)
    ensures (path, node) in Under(step, list) <==> path != [] && path[0] == step && (path[1..], node) in list
  {
    var under := Under(step, list);
    if (path, node) in under {
      var i :| 0 <= i < |under| && under[i] == (path, node);
      assert path[1..] == list[i].0 && list[i] in list;
    }
    if path != [] && path[0] == step && (path[1..], node) in list {
      var i :| 0 <= i < |list| && list[i] == (path[1..], node);
      assert under[i] == ([step] + path[1..], node) && [step] + path[1..] == path;
    }
  }

  ghost predicate PreOrder(value: Json, list: seq<(Path, NodeEntry)>) {
    forall i, j :: 0 <= i < j < |list| ==> Before(value, list[i].0, list[j].0)
  }

  /** The paths enter the container at or after its `k`th entry. */
  ghost predicate EntersFrom(value: Json, k: nat, list: seq<(Path, NodeEntry)>) {
    forall i :: 0 <= i < |list| ==> list[i].0 != [] && Place(value, list[i].0[0]) >= k
  }

  lemma {:induction false} ListingOrdered(c: Codec, b: Backend, value: Json)
    requires WellFormed(value)
    ensures PreOrder(value, Listing(c, b, value))
    decreases value, |Kids(value)| + 1
  {
    var rest := ListKids(c, b, value, Kids(value));
    assert Kids(value)[0..] == Kids(value);
    ListKidsOrdered(c, b, value, 0);
  }

  lemma {:induction false} ListKidsOrdered(c: Codec, b: Backend, value: Json, k: nat)
    requires WellFormed(value) && k <= |Kids(value)|
    requires forall x :: x in Kids(value)[k..] ==> x.1 < value
    ensures PreOrder(value, ListKids(c, b, value, Kids(value)[k..]))
    ensures EntersFrom(value, k, ListKids(c, b, value, Kids(value)[k..]))
    decreases value, |Kids(value)| - k
  {
    var kids := Kids(value)[k..];
    if k < |Kids(value)| {
      KidsAreChildren(value);
      assert kids[0] == Kids(value)[k] && kids[1..] == Kids(value)[k + 1..] && kids[0] in kids;
      ListKidsOrdered(c, b, value, k + 1);
      ListingOrdered(c, b, kids[0].1);
      JoinOrdered(value, k, kids[0].0, kids[0].1, Listing(c, b, kids[0].1), ListKids(c, b, value, kids[1..]));
    }
  }

  lemma {:induction false} JoinOrdered(value: Json, k: nat, step: Step, child: Json, here: seq<(Path, NodeEntry)>,
          rest: seq<(Path, NodeEntry)>)
    requires Child(value, step) == Some(child) && Place(value, step) == k
    requires PreOrder(child, here) && PreOrder(value, rest) && EntersFrom(value, k + 1, rest)
    ensures PreOrder(value, Under(step, here) + rest) && EntersFrom(value, k, Under(step, here) + rest)
  {
    var all := Under(step, here) + rest;
    forall i, j | 0 <= i < j < |all| ensures Before(value, all[i].0, all[j].0) {
      if j < |here| {
        assert all[i].0[1..] == here[i].0 && all[j].0[1..] == here[j].0;
      } else if i < |here| {
        assert all[i].0[0] == step && all[j] == rest[j - |here|];
      } else {
        assert all[i] == rest[i - |here|] && all[j] == rest[j - |here|];
      }
    }
  }

  lemma {:induction false} BeforeIrreflexive(data: Json, path: Path)
    ensures !Before(data, path, path)
    decreases |path|
  {
    if path != [] && Child(data, path[0]).Some? {
      BeforeIrreflexive(Child(data, path[0]).value, path[1..]);
    }
  }

  predicate Reports(c: Codec, b: Backend, data: Json, found: Found) {
    && Matched(c, b, data, found.path) && found.node == NodeFor(c, b, data, found.path)
    && found.depth == |found.path|
  }

  /** What an extraction that does not raise returns. */
  ghost predicate ListsExactly(c: Codec, b: Backend, data: Json, found: seq<Found>) {
    && (forall path :: Matched(c, b, data, path) <==> exists i :: 0 <= i < |found| && found[i].path == path)
    && (forall i :: 0 <= i < |found| ==> Reports(c, b, data, found[i]))
    && (forall i, j :: 0 <= i < j < |found| ==>
         Before(data, found[i].path, found[j].path) && found[i].path != found[j].path)
  }

  /**
   Extraction exactness: the walk lists exactly the paths whose dict matches a registered
   model, each once, in pre-order, with its depth; it raises exactly when the limit is
   non-negative and some match has more than `limit` matched dicts above it, and names the
   first such match.
   */
  lemma {:induction false} ExtractionExact(c: Codec, b: Backend, limit: int, data: Json)
    requires WellFormed(data)
    ensures Extract(c, b, limit, data).Err? <==> SomeTooDeep(c, b, limit, data, 0)
    ensures Extract(c, b, limit, data).Err? ==> FirstTooDeep(c, b, limit, data, Extract(c, b, limit, data).error, 0)
    ensures Extract(c, b, limit, data).Ok? ==> ListsExactly(c, b, data, Extract(c, b, limit, data).value)
  {
    WalkRaises(c, b, limit, data, [], 0, 0);
    if Extract(c, b, limit, data).Ok? {
      WalkListing(c, b, limit, data, [], 0, 0);
      ListingReports(c, b, data);
      ListingComplete(c, b, data);
      ListingStrict(c, b, data);
    } else {
      var below := WalkRaisesAt(c, b, limit, data, [], 0, 0);
      assert [] + below == below;
    }
  }

  lemma {:induction false} ListingReports(c: Codec, b: Backend, data: Json)
    requires WellFormed(data)
    ensures forall i :: 0 <= i < |At([], 0, Listing(c, b, data))| ==>
              Reports(c, b, data, At([], 0, Listing(c, b, data))[i])
  {
    var list := Listing(c, b, data);
    forall i | 0 <= i < |list| ensures Reports(c, b, data, At([], 0, list)[i]) {
      assert [] + list[i].0 == list[i].0;
      assert (list[i].0, list[i].1) in list;
      ListingExact(c, b, data, list[i].0, list[i].1);
    }
  }

  lemma {:induction false} ListingComplete(c: Codec, b: Backend, data: Json)
    requires WellFormed(data)
    ensures forall path :: Matched(c, b, data, path) ==>
              exists i :: 0 <= i < |At([], 0, Listing(c, b, data))| && At([], 0, Listing(c, b, data))[i].path == path
  {
    var list := Listing(c, b, data);
    forall path | Matched(c, b, data, path)
      ensures exists i :: 0 <= i < |At([], 0, list)| && At([], 0, list)[i].path == path
    {
      ListingExact(c, b, data, path, NodeFor(c, b, data, path));
      var i :| 0 <= i < |list| && list[i] == (path, NodeFor(c, b, data, path));
      assert At([], 0, list)[i].path == [] + path == path;
    }
  }

  lemma {:induction false} ListingStrict(c: Codec, b: Backend, data: Json)
    requires WellFormed(data)
    ensures var found := At([], 0, Listing(c, b, data));
            forall i, j :: 0 <= i < j < |found| ==>
              Before(data, found[i].path, found[j].path) && found[i].path != found[j].path
  {
    var list := Listing(c, b, data);
    var found := At([], 0, list);
    ListingOrdered(c, b, data);
    forall i, j | 0 <= i < j < |found|
      ensures Before(data, found[i].path, found[j].path) && found[i].path != found[j].path
    {
      AtRoot(list, i);
      AtRoot(list, j);
      assert Before(data, list[i].0, list[j].0);
      BeforeIrreflexive(data, list[i].0);
    }
  }

  lemma {:induction false} AtRoot(list: seq<(Path, NodeEntry)>, i: nat)
    requires i < |list|
    ensures At([], 0, list)[i].path == list[i].0
  {
    assert [] + list[i].0 == list[i].0;
  }
}
