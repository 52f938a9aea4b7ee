/**
 Node and edge identity.  A version is its position in the version order: any
 countable linear order (SemVer precedence, calendar dates) embeds in the reals.
 */
module Identity {
  import opened Sorting

  type Version = real

  datatype NodeId = NodeId(space: string, kind: string, version: Version)

  datatype EdgeId = EdgeId(source: NodeId, target: NodeId, discriminator: string)

  datatype ModelRef = ModelRef(provider: string, entity: string)

  /** A stored node: a bare key, or a key hydrated with its model descriptor. */
  datatype NodeEntry =
    | KeyOnly(id: NodeId)
    | Model(id: NodeId, ref: ModelRef, fields: set<string>, references: set<NodeId>)

  function IsModel(): NodeEntry -> bool { (n: NodeEntry) => n.Model? }

  function IdsOf(nodes: seq<NodeEntry>): (ids: seq<NodeId>)
    ensures |ids| == |nodes| && forall i :: 0 <= i < |ids| ==> ids[i] == nodes[i].id
  {
    seq(|nodes|, i requires 0 <= i < |nodes| => nodes[i].id)
  }

  // ---- text ----

  /** `str(node)`; namespaces are not empty. */
  function NodeText(show: Version -> string, id: NodeId): string {
    id.space + ":" + id.kind + "@" + show(id.version)
  }

  lemma {:induction false} SplitAtLast(a: string, x: string, b: string, y: string)
    requires a + "@" + x == b + "@" + y && '@' !in x && '@' !in y
    ensures a == b && x == y
  {
    var s, t := a + "@" + x, b + "@" + y;
    assert s[|a|] == '@' && t[|b|] == '@';
    assert forall i :: |a| < i < |s| ==> s[i] == x[i - |a| - 1];
    assert forall i :: |b| < i < |t| ==> t[i] == y[i - |b| - 1];
    assert s[..|a|] == a && t[..|b|] == b && s[|a| + 1..] == x && t[|b| + 1..] == y;
  }

  lemma {:induction false} SplitAtFirst(a: string, x: string, b: string, y: string)
    requires a + ":" + x == b + ":" + y && ':' !in a && ':' !in b
    ensures a == b && x == y
  {
    var s, t := a + ":" + x, b + ":" + y;
    assert s[|a|] == ':' && t[|b|] == ':';
    assert forall i :: 0 <= i < |a| ==> s[i] == a[i];
    assert forall i :: 0 <= i < |b| ==> t[i] == b[i];
    assert s[..|a|] == a && t[..|b|] == b && s[|a| + 1..] == x && t[|b| + 1..] == y;
  }

  /** Version texts are told apart, and contain no `@`. */
  ghost predicate PlainVersions(show: Version -> string, m: NodeId, n: NodeId) {
    && '@' !in show(m.version) && '@' !in show(n.version)
    && (show(m.version) == show(n.version) ==> m.version == n.version)
  }

  /** A node's text determines its identity within one namespace, and among namespaces without a colon. */
  lemma {:induction false} NodeTextInjective(show: Version -> string, m: NodeId, n: NodeId)
    requires PlainVersions(show, m, n) && NodeText(show, m) == NodeText(show, n)
    requires m.space == n.space || (':' !in m.space && ':' !in n.space)
    ensures m == n
  {
    SplitAtLast(m.space + ":" + m.kind, show(m.version), n.space + ":" + n.kind, show(n.version));
    if m.space == n.space {
      assert (m.space + ":" + m.kind)[|m.space| + 1..] == m.kind;
      assert (n.space + ":" + n.kind)[|n.space| + 1..] == n.kind;
    } else {
      SplitAtFirst(m.space, m.kind, n.space, n.kind);
    }
  }

  // ---- order ----

  /** Code-point order on strings, as Python compares them. */
  predicate TextLess(a: string, b: string)
    decreases |a|
  {
    b != [] && (a == [] || a[0] < b[0] || (a[0] == b[0] && TextLess(a[1..], b[1..])))
  }

  predicate NodeLess(a: NodeId, b: NodeId) {
    TextLess(a.space, b.space) || (a.space == b.space &&
    (TextLess(a.kind, b.kind) || (a.kind == b.kind && a.version < b.version)))
  }

  predicate EdgeLess(a: EdgeId, b: EdgeId) {
    NodeLess(a.source, b.source) || (a.source == b.source &&
    (NodeLess(a.target, b.target) || (a.target == b.target && TextLess(a.discriminator, b.discriminator))))
  }

  predicate EntryLess(a: NodeEntry, b: NodeEntry) {
    NodeLess(a.id, b.id)
  }

  /** `EdgeId.__post_init__`: edges stay within one namespace and one kind. */
  predicate ValidEdge(e: EdgeId) {
    e.discriminator != "" && e.source.space == e.target.space && e.source.kind == e.target.kind
  }

  lemma {:induction false} TextTotal(a: string, b: string)
    ensures !TextLess(a, a)
    ensures a != b ==> TextLess(a, b) || TextLess(b, a)
    decreases |a|
  {
    if a != [] {
      TextTotal(a[1..], if b == [] then [] else b[1..]);
      if b != [] && a[0] == b[0] && a[1..] == b[1..] {
        assert a == [a[0]] + a[1..] && b == [b[0]] + b[1..];
      }
    }
  }

  lemma {:induction false} TextTransitive(a: string, b: string, c: string)
    requires TextLess(a, b) && TextLess(b, c)
    ensures TextLess(a, c)
    decreases |a|
  {
    if a != [] && a[0] == b[0] == c[0] {
      TextTransitive(a[1..], b[1..], c[1..]);
    }
  }

  lemma {:induction false} TextOrder()
    ensures StrictTotalOrder(TextLess)
  {
    forall a: string, b: string ensures !TextLess(a, a) && (a != b ==> TextLess(a, b) || TextLess(b, a)) {
      TextTotal(a, b);
    }
    forall a: string, b: string, c: string | TextLess(a, b) && TextLess(b, c) ensures TextLess(a, c) {
      TextTransitive(a, b, c);
    }
  }

  /** Node identity is a strict total order: namespace, then kind, then version. */
  lemma {:induction false} NodeOrder()
    ensures StrictTotalOrder(NodeLess)
  {
    TextOrder();
    forall a: NodeId, b: NodeId, c: NodeId | NodeLess(a, b) && NodeLess(b, c) ensures NodeLess(a, c) {
    }
    forall a: NodeId, b: NodeId | a != b ensures NodeLess(a, b) || NodeLess(b, a) {
    }
    forall a: NodeId ensures !NodeLess(a, a) {
    }
  }

  /** Within one namespace and kind, the order of nodes is the order of their versions. */
  lemma {:induction false} VersionOrder(a: NodeId, b: NodeId)
    requires a.space == b.space && a.kind == b.kind
    ensures NodeLess(a, b) <==> a.version < b.version
  {
    TextTotal(a.space, a.space);
    TextTotal(a.kind, a.kind);
  }

  /** The texts agree before the position, where the first ends or has the smaller character. */
  predicate SmallerAt(a: string, b: string, i: nat) {
    i <= |a| && i < |b| && a[..i] == b[..i] && (i == |a| || a[i] < b[i])
  }

  /** Texts compare by their first difference, a prefix being smaller. */
  lemma {:induction false} TextByFirstDifference(a: string, b: string)
    ensures TextLess(a, b) <==> exists i: nat :: SmallerAt(a, b, i)
    decreases |a|
  {
    if b != [] && (a == [] || a[0] < b[0]) {
      assert SmallerAt(a, b, 0);
    } else if b != [] && a[0] == b[0] {
      TextByFirstDifference(a[1..], b[1..]);
      if TextLess(a, b) {
        var i: nat :| SmallerAt(a[1..], b[1..], i);
        assert a[..i + 1] == [a[0]] + a[1..][..i] && b[..i + 1] == [b[0]] + b[1..][..i];
        assert SmallerAt(a, b, i + 1);
      }
      if i: nat :| SmallerAt(a, b, i) {
        assert a[..i][1..] == b[..i][1..] && a[1..][..i - 1] == a[..i][1..] && b[1..][..i - 1] == b[..i][1..];
        assert SmallerAt(a[1..], b[1..], i - 1);
      }
    } else {
      forall i: nat ensures !SmallerAt(a, b, i) {
        if i > 0 && i <= |a| && i < |b| {
          assert a[..i][0] == a[0] && b[..i][0] == b[0];
        }
      }
    }
  }

  /** Edge identity is a strict total order: source, then target, then discriminator. */
  lemma {:induction false} EdgeOrder()
    ensures StrictTotalOrder(EdgeLess)
  {
    TextOrder();
    NodeOrder();
    forall a: EdgeId, b: EdgeId, c: EdgeId | EdgeLess(a, b) && EdgeLess(b, c) ensures EdgeLess(a, c) {
    }
    forall a: EdgeId, b: EdgeId | a != b ensures EdgeLess(a, b) || EdgeLess(b, a) {
    }
    forall a: EdgeId ensures !EdgeLess(a, a) {
    }
  }

  lemma {:induction false} EntryOrder(entries: set<NodeEntry>)
    requires forall a, b :: a in entries && b in entries && a.id == b.id ==> a == b
    ensures StrictOrder(EntryLess) && TotalOn(EntryLess, entries)
  {
    NodeOrder();
    forall a: NodeEntry, b: NodeEntry, c: NodeEntry | EntryLess(a, b) && EntryLess(b, c) ensures EntryLess(a, c) {
    }
  }
}
