/** What stamping a version and splicing a migrated dict do to the versioned dicts of a payload. */
module Splicing {
  import opened Wrappers
  import opened Payload
  import opened Execution
  import opened Backends
  import opened Identity
  import opened Indexed
  import opened Extraction

  // ---- what a dict carries ----

  /** The dict carries this kind, and text that parses to this version. */
  ghost predicate Carries(c: Codec, value: Json, kind: string, version: Version) {
    && value.Object? && Child(value, Key(c.kindKey)) == Some(Text(kind))
    && Child(value, Key(c.versionKey)).Some? && Child(value, Key(c.versionKey)).value.Text?
    && c.parse(Child(value, Key(c.versionKey)).value.text) == Some(version)
  }

  lemma {:induction false} MatchedCarries(c: Codec, b: Backend, value: Json, node: NodeEntry)
    requires Match(c, b, value) == Some(node)
    ensures Carries(c, value, node.id.kind, node.id.version) && node.id.space == c.space
  {
  }

  lemma {:induction false} CarriedMatches(c: Codec, b: Backend, value: Json, id: NodeId)
    requires Carries(c, value, id.kind, id.version) && id.space == c.space
    ensures Match(c, b, value) == FindModel(b.nodes, id)
  {
    assert id == NodeId(c.space, id.kind, id.version);
  }

  lemma {:induction false} StampFacts(c: Codec, b: Backend, value: Json, version: string)
    requires value.Object? && WellFormed(value) && c.kindKey != c.versionKey
    ensures var w := Stamp(value, c.versionKey, version);
            && w.Object? && WellFormed(w)
            && Child(w, Key(c.versionKey)) == Some(Text(version))
            && Child(w, Key(c.kindKey)) == Child(value, Key(c.kindKey))
            && forall path :: path != [] ==>
                 (path[0] == Key(c.versionKey) ==> !Matched(c, b, w, path))
                 && (path[0] != Key(c.versionKey) ==> Get(w, path) == Get(value, path))
  {
    var w := Stamp(value, c.versionKey, version);
    if HasKey(value.fields, c.versionKey) {
      SetChildWellFormed(value, Key(c.versionKey), Text(version));
    }
    forall path | path != []
      ensures path[0] == Key(c.versionKey) ==> !Matched(c, b, w, path)
      ensures path[0] != Key(c.versionKey) ==> Get(w, path) == Get(value, path)
    {
      if path[0] == Key(c.versionKey) {
        TextHoldsOnlyText(version, path[1..]);
      }
    }
  }

  lemma {:induction false} SetChildWellFormed(value: Json, step: Step, child: Json)
    requires WellFormed(value) && WellFormed(child) && !value.Text? && Child(value, step).Some?
    ensures WellFormed(SetChild(value, step, child))
  {
  }

  /** A version text holds no versioned dict. */
  lemma {:induction false} VersionTextHidesNothing(c: Codec, b: Backend, value: Json, kind: string, version: Version,
          path: Path)
    requires Carries(c, value, kind, version) && path != [] && path[0] == Key(c.versionKey)
    ensures !Matched(c, b, value, path)
  {
    TextHoldsOnlyText(Child(value, Key(c.versionKey)).value.text, path[1..]);
  }

  // ---- what a splice does to the entries around it ----

  /** Splicing a dict over a dict inside `value` leaves what `value` itself matches. */
  lemma {:induction false} MatchIgnoresInside(c: Codec, b: Backend, value: Json, path: Path, replacement: Json)
    requires path != [] && ReplaceAt(value, path, replacement).Some? && replacement.Object?
    requires Get(value, path).Some? && Get(value, path).value.Object?
    ensures Match(c, b, ReplaceAt(value, path, replacement).value) == Match(c, b, value)
  {
    var w := ReplaceAt(value, path, replacement).value;
    var child := Child(value, path[0]).value;
    var inner := ReplaceAt(child, path[1..], replacement).value;
    if child.Text? {
      TextHoldsOnlyText(child.text, path[1..]);
    }
    assert !child.Text? && !inner.Text?;
    assert Child(w, path[0]) == Some(inner);
    assert forall key :: Key(key) != path[0] ==> Child(w, Key(key)) == Child(value, Key(key));
  }

  ghost predicate SameMatch(c: Codec, b: Backend, before: Json, after: Json, path: Path) {
    && (Matched(c, b, before, path) <==> Matched(c, b, after, path))
    && (Matched(c, b, before, path) ==> NodeFor(c, b, before, path) == NodeFor(c, b, after, path))
  }

  /** Outside the splice every path matches what it matched before. */
  lemma {:induction false} SpliceKeepsOutside(c: Codec, b: Backend, data: Json, path: Path, replacement: Json,
          other: Path)
    requires ReplaceAt(data, path, replacement).Some? && replacement.Object? && HoldsObject(data, path)
    requires !IsPrefix(path, other)
    ensures SameMatch(c, b, data, ReplaceAt(data, path, replacement).value, other)
  {
    if IsPrefix(other, path) {
      var below := path[|other|..];
      PrefixSplits(other, path);
      GetAboveReplaced(data, other, below, replacement);
      GetConcat(data, other, below);
      MatchIgnoresInside(c, b, Get(data, other).value, below, replacement);
    } else {
      GetApartUnchanged(data, path, replacement, other);
    }
  }

  lemma {:induction false} SpliceGivesInside(data: Json, path: Path, replacement: Json, other: Path)
    requires ReplaceAt(data, path, replacement).Some? && IsPrefix(path, other)
    ensures Get(ReplaceAt(data, path, replacement).value, other) == Get(replacement, other[|path|..])
  {
    PrefixSplits(path, other);
    GetBelowReplaced(data, path, replacement, other[|path|..]);
  }

  // ---- the same versioned dicts ----

  ghost predicate SameMatches(c: Codec, b: Backend, x: Json, y: Json) {
    forall path :: Matched(c, b, x, path) <==> Matched(c, b, y, path)
  }

  /** Strictly inside, the same paths match the same models. */
  ghost predicate SameNested(c: Codec, b: Backend, x: Json, y: Json) {
    forall path :: path != [] ==> SameMatch(c, b, x, y, path)
  }

  lemma {:induction false} SameNestedTransitive(c: Codec, b: Backend, x: Json, y: Json, z: Json)
    requires SameNested(c, b, x, y) && SameNested(c, b, y, z)
    ensures SameNested(c, b, x, z)
  {
    forall path | path != [] ensures SameMatch(c, b, x, z, path) {
      assert SameMatch(c, b, x, y, path) && SameMatch(c, b, y, z, path);
    }
  }

  /** Every path but one matches the same model in both payloads. */
  ghost predicate SameElsewhere(c: Codec, b: Backend, x: Json, y: Json, path: Path) {
    forall other :: other != path ==> SameMatch(c, b, x, y, other)
  }

  lemma {:induction false} SpliceKeepsElsewhere(c: Codec, b: Backend, data: Json, path: Path, result: Json)
    requires HoldsObject(data, path) && ReplaceAt(data, path, result).Some? && result.Object?
    requires SameNested(c, b, Get(data, path).value, result)
    ensures SameElsewhere(c, b, data, ReplaceAt(data, path, result).value, path)
  {
    var next := ReplaceAt(data, path, result).value;
    forall other | other != path ensures SameMatch(c, b, data, next, other) {
      if IsPrefix(path, other) {
        var below := other[|path|..];
        PrefixSplits(path, other);
        GetConcat(data, path, below);
        SpliceGivesInside(data, path, result, other);
        assert SameMatch(c, b, Get(data, path).value, result, below);
      } else {
        SpliceKeepsOutside(c, b, data, path, result, other);
      }
    }
  }

  lemma {:induction false} MatchedAboveSnoc(c: Codec, b: Backend, data: Json, path: Path)
    requires path != [] && Get(data, path).Some?
    ensures Get(data, path[..|path| - 1]).Some?
    ensures MatchedAbove(c, b, data, path)
         == MatchedAbove(c, b, data, path[..|path| - 1]) + (if Matched(c, b, data, path[..|path| - 1]) then 1 else 0)
    decreases |path|
  {
    if |path| > 1 {
      MatchedAboveSnoc(c, b, Child(data, path[0]).value, path[1..]);
      assert path[..|path| - 1][1..] == path[1..][..|path| - 2];
    }
  }

  lemma {:induction false} SameMatchesAbove(c: Codec, b: Backend, x: Json, y: Json, path: Path)
    requires SameMatches(c, b, x, y) && Get(x, path).Some? && Get(y, path).Some?
    ensures MatchedAbove(c, b, x, path) == MatchedAbove(c, b, y, path)
    decreases |path|
  {
    if path != [] {
      MatchedAboveSnoc(c, b, x, path);
      MatchedAboveSnoc(c, b, y, path);
      SameMatchesAbove(c, b, x, y, path[..|path| - 1]);
    }
  }

  lemma {:induction false} SameMatchesSameDepth(c: Codec, b: Backend, x: Json, y: Json, limit: int)
    requires SameMatches(c, b, x, y)
    ensures SomeTooDeep(c, b, limit, x, 0) <==> SomeTooDeep(c, b, limit, y, 0)
  {
    forall path ensures TooDeep(c, b, limit, x, path, 0) <==> TooDeep(c, b, limit, y, path, 0) {
      if Matched(c, b, x, path) {
        SameMatchesAbove(c, b, x, y, path);
      }
    }
  }
}
