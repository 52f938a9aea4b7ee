/**
 JSON payloads, containment paths into them, and the persistent update that
 splices a migrated value back (`_replace_at`).
 */
module Payload {
  import opened Wrappers

  datatype Json =
    | Object(fields: seq<Field>)
    | Array(items: seq<Json>)
    | Text(text: string)
    | Number(number: real)
    | Bool(flag: bool)
    | Null

  /** One `key: value` pair of a dict; a dict keeps its insertion order. */
  datatype Field = Field(key: string, value: Json)

  /** A path step: a dict key or a list index. */
  datatype Step = Key(key: string) | Index(index: nat)

  type Path = seq<Step>

  /** The position of `key` in a dict, or the number of fields when it is absent. */
  function FieldIndex(fields: seq<Field>, key: string): (i: nat)
    ensures i <= |fields|
    ensures i < |fields| ==> fields[i].key == key
    ensures forall j :: 0 <= j < i ==> fields[j].key != key
  {
    if fields == [] then 0
    else if fields[0].key == key then 0
    else 1 + FieldIndex(fields[1..], key)
  }

  predicate HasKey(fields: seq<Field>, key: string) {
    FieldIndex(fields, key) < |fields|
  }

  /** `value[step]`: dict lookup, list lookup, or (as in Python) a character of a string. */
  function Child(value: Json, step: Step): (r: Option<Json>)
    ensures value.Object? && step.Key? ==> (r.Some? <==> HasKey(value.fields, step.key))
    ensures value.Array? && step.Index? ==> (r.Some? <==> step.index < |value.items|)
  {
    match value
    case Object(fields) =>
      if step.Key? && HasKey(fields, step.key) then Some(fields[FieldIndex(fields, step.key)].value) else None
    case Array(items) =>
      if step.Index? && step.index < |items| then Some(items[step.index]) else None
    case Text(text) =>
      if step.Index? && step.index < |text| then Some(Text([text[step.index]])) else None
    case _ => None
  }

  /** `Path.get` */
  function Get(value: Json, path: Path): Option<Json>
    decreases |path|
  {
    if path == [] then Some(value) else
      var child :- Child(value, path[0]);
      Get(child, path[1..])
  }

  /** `container[step] = child` on a copy, for a step that is already present. */
  function SetChild(value: Json, step: Step, child: Json): (r: Json)
    requires !value.Text? && Child(value, step).Some?
    ensures Child(r, step) == Some(child)
    ensures r.Object? == value.Object? && r.Array? == value.Array?
    ensures forall other :: other != step ==> Child(r, other) == Child(value, other)
  {
    match value
    case Object(fields) =>
      var i := FieldIndex(fields, step.key);
      var updated := fields[i := Field(step.key, child)];
      assert forall key :: FieldIndex(updated, key) == FieldIndex(fields, key) by {
        forall key { SameKeysSameIndex(fields, updated, key); }
      }
      Object(updated)
    case Array(items) => Array(items[step.index := child])
  }

  lemma {:induction false} SameKeysSameIndex(a: seq<Field>, b: seq<Field>, key: string)
    requires |a| == |b| && forall i :: 0 <= i < |a| ==> a[i].key == b[i].key
    ensures FieldIndex(a, key) == FieldIndex(b, key)
  {
  }

  /** `_replace_at`; `None` stands for the KeyError, IndexError or TypeError it raises. */
  function ReplaceAt(value: Json, path: Path, replacement: Json): Option<Json>
    decreases |path|
  {
    if path == [] then Some(replacement)
    else if value.Text? then None
    else
      var child :- Child(value, path[0]);
      var inner :- ReplaceAt(child, path[1..], replacement);
      Some(SetChild(value, path[0], inner))
  }

  // ---- path relations ----

  predicate IsPrefix(p: Path, q: Path) {
    |p| <= |q| && q[..|p|] == p
  }

  /** `Path.is_descendant_of` */
  predicate IsDescendantOf(path: Path, parent: Path) {
    |path| > |parent| && path[..|parent|] == parent
  }

  /** Neither path is above or at the other. */
  predicate Apart(p: Path, q: Path) {
    !IsPrefix(p, q) && !IsPrefix(q, p)
  }

  lemma {:induction false} PrefixSplits(p: Path, q: Path)
    requires IsPrefix(p, q)
    ensures q == p + q[|p|..]
  {
  }

  // ---- lookup and update laws ----

  lemma {:induction false} GetConcat(value: Json, p: Path, q: Path)
    ensures Get(value, p + q) == (if Get(value, p).Some? then Get(Get(value, p).value, q) else None)
    decreases |p|
  {
    if p == [] {
      assert p + q == q;
    } else {
      assert (p + q)[1..] == p[1..] + q;
      if Child(value, p[0]).Some? {
        GetConcat(Child(value, p[0]).value, p[1..], q);
      }
    }
  }

  lemma {:induction false} TextHoldsOnlyText(text: string, path: Path)
    ensures Get(Text(text), path).Some? ==> Get(Text(text), path).value.Text?
    decreases |path|
  {
    if path != [] && Child(Text(text), path[0]).Some? {
      TextHoldsOnlyText(Child(Text(text), path[0]).value.text, path[1..]);
    }
  }

  /** A splice succeeds at every path that leads to a container (or to any non-string). */
  lemma {:induction false} ReplaceSucceeds(value: Json, path: Path, replacement: Json)
    requires Get(value, path).Some? && !Get(value, path).value.Text?
    ensures ReplaceAt(value, path, replacement).Some?
    decreases |path|
  {
    if path != [] {
      if value.Text? {
        TextHoldsOnlyText(value.text, path);
      }
      ReplaceSucceeds(Child(value, path[0]).value, path[1..], replacement);
    }
  }

  /** Whether a splice succeeds does not depend on the value spliced in; it implies the lookup succeeds. */
  lemma {:induction false} ReplaceImpliesGet(value: Json, path: Path, replacement: Json)
    requires ReplaceAt(value, path, replacement).Some?
    ensures Get(value, path).Some?
    ensures forall other :: ReplaceAt(value, path, other).Some?
    decreases |path|
  {
    if path != [] {
      ReplaceImpliesGet(Child(value, path[0]).value, path[1..], replacement);
    }
  }

  /** At and below the splice point the new payload is the replacement. */
  lemma {:induction false} GetBelowReplaced(value: Json, path: Path, replacement: Json, below: Path)
    requires ReplaceAt(value, path, replacement).Some?
    ensures Get(ReplaceAt(value, path, replacement).value, path + below) == Get(replacement, below)
    decreases |path|
  {
    if path == [] {
      assert path + below == below;
    } else {
      GetBelowReplaced(Child(value, path[0]).value, path[1..], replacement, below);
      assert (path + below)[1..] == path[1..] + below;
    }
  }

  /** Above the splice point the new payload is the old container with the splice pushed inside. */
  lemma {:induction false} GetAboveReplaced(value: Json, above: Path, below: Path, replacement: Json)
    requires ReplaceAt(value, above + below, replacement).Some?
    ensures Get(value, above).Some? && ReplaceAt(Get(value, above).value, below, replacement).Some?
    ensures Get(ReplaceAt(value, above + below, replacement).value, above)
         == ReplaceAt(Get(value, above).value, below, replacement)
    decreases |above|
  {
    if above == [] {
      assert above + below == below;
    } else {
      assert (above + below)[1..] == above[1..] + below;
      GetAboveReplaced(Child(value, above[0]).value, above[1..], below, replacement);
    }
  }

  lemma {:induction false} PrefixTails(p: Path, q: Path)
    requires p != [] && q != [] && p[0] == q[0]
    ensures IsPrefix(p, q) == IsPrefix(p[1..], q[1..])
  {
    if |p| <= |q| {
      assert q[1..][..|p| - 1] == q[..|p|][1..];
      assert q[..|p|] == [q[0]] + q[..|p|][1..] && p == [p[0]] + p[1..];
    }
  }

  lemma {:induction false} ApartTails(p: Path, q: Path)
    requires Apart(p, q) && p[0] == q[0]
    ensures Apart(p[1..], q[1..])
  {
    PrefixTails(p, q);
    PrefixTails(q, p);
  }

  /** Frame: a splice leaves every value unchanged whose path is apart from it. */
  lemma {:induction false} GetApartUnchanged(value: Json, path: Path, replacement: Json, other: Path)
    requires ReplaceAt(value, path, replacement).Some? && Apart(path, other)
    ensures Get(ReplaceAt(value, path, replacement).value, other) == Get(value, other)
    decreases |path|
  {
    assert other != [] && path != [];
    if path[0] == other[0] {
      ApartTails(path, other);
      GetApartUnchanged(Child(value, path[0]).value, path[1..], replacement, other[1..]);
    }
  }

  /** Writing back the value already there changes nothing. */
  lemma {:induction false} ReplaceBySame(value: Json, path: Path)
    requires Get(value, path).Some? && ReplaceAt(value, path, Get(value, path).value).Some?
    ensures ReplaceAt(value, path, Get(value, path).value).value == value
    decreases |path|
  {
    if path != [] {
      ReplaceBySame(Child(value, path[0]).value, path[1..]);
    }
  }

  lemma {:induction false} SetChildCommutes(value: Json, s: Step, a: Json, t: Step, b: Json)
    requires s != t && !value.Text? && Child(value, s).Some? && Child(value, t).Some?
    ensures SetChild(SetChild(value, s, a), t, b) == SetChild(SetChild(value, t, b), s, a)
  {
    if value.Object? {
      SetFieldsCommute(value.fields, s.key, a, t.key, b);
    } else {
      assert value.items[s.index := a][t.index := b] == value.items[t.index := b][s.index := a];
    }
  }

  lemma {:induction false} SetField(fields: seq<Field>, key: string, value: Json)
    requires HasKey(fields, key)
    ensures SetChild(Object(fields), Key(key), value) == Object(fields[FieldIndex(fields, key) := Field(key, value)])
  {
  }

  lemma {:induction false} SetFieldsCommute(fields: seq<Field>, s: string, a: Json, t: string, b: Json)
    requires s != t && HasKey(fields, s) && HasKey(fields, t)
    ensures SetChild(SetChild(Object(fields), Key(s), a), Key(t), b)
              == SetChild(SetChild(Object(fields), Key(t), b), Key(s), a)
  {
    var i, j := FieldIndex(fields, s), FieldIndex(fields, t);
    var fa, fb := fields[i := Field(s, a)], fields[j := Field(t, b)];
    SameKeysSameIndex(fields, fa, t);
    SameKeysSameIndex(fields, fb, s);
    SetField(fields, s, a);
    SetField(fields, t, b);
    SetField(fa, t, b);
    SetField(fb, s, a);
    assert fa[j := Field(t, b)] == fb[i := Field(s, a)];
  }

  lemma {:induction false} SetChildTwice(value: Json, s: Step, a: Json, b: Json)
    requires !value.Text? && Child(value, s).Some?
    ensures SetChild(SetChild(value, s, a), s, b) == SetChild(value, s, b)
  {
    if value.Object? {
      var i := FieldIndex(value.fields, s.key);
      SameKeysSameIndex(value.fields, value.fields[i := Field(s.key, a)], s.key);
    }
  }

  function ReplaceIn(value: Option<Json>, path: Path, replacement: Json): Option<Json> {
    var v :- value;
    ReplaceAt(v, path, replacement)
  }

  /** Splices at paths that are apart commute, whether or not they succeed. */
  lemma {:induction false} ReplaceCommutes(value: Json, p: Path, a: Json, q: Path, b: Json)
    requires Apart(p, q)
    ensures ReplaceIn(ReplaceAt(value, p, a), q, b) == ReplaceIn(ReplaceAt(value, q, b), p, a)
    decreases |p|
  {
    if value.Text? {
    } else if p[0] != q[0] {
      ReplaceDifferentChild(value, p, a, q, b);
      ReplaceDifferentChild(value, q, b, p, a);
      var c, d := ReplaceChild(value, p, a), ReplaceChild(value, q, b);
      if c.Some? && d.Some? {
        SetChildCommutes(value, p[0], c.value, q[0], d.value);
      }
    } else if Child(value, p[0]).Some? {
      ApartTails(p, q);
      ReplaceCommutes(Child(value, p[0]).value, p[1..], a, q[1..], b);
      ReplaceSameChild(value, p, a, q, b);
      ReplaceSameChild(value, q, b, p, a);
    }
  }

  function ReplaceChild(value: Json, path: Path, replacement: Json): Option<Json>
    requires path != []
  {
    var child :- Child(value, path[0]);
    ReplaceAt(child, path[1..], replacement)
  }

  lemma {:induction false} ReplaceDifferentChild(value: Json, p: Path, a: Json, q: Path, b: Json)
    requires p != [] && q != [] && p[0] != q[0] && !value.Text?
    ensures ReplaceIn(ReplaceAt(value, p, a), q, b) ==
            var c, d := ReplaceChild(value, p, a), ReplaceChild(value, q, b);
            if c.Some? && d.Some? then Some(SetChild(SetChild(value, p[0], c.value), q[0], d.value)) else None
  {
    var c := ReplaceChild(value, p, a);
    ReplaceByChild(value, p, a);
    if c.Some? {
      var w := SetChild(value, p[0], c.value);
      assert Child(w, q[0]) == Child(value, q[0]);
      ReplaceByChild(w, q, b);
    }
  }

  /** A splice below the root sets the child spliced. */
  lemma {:induction false} ReplaceByChild(value: Json, p: Path, a: Json)
    requires p != [] && !value.Text?
    ensures var c := ReplaceChild(value, p, a);
            ReplaceAt(value, p, a) == if c.Some? then Some(SetChild(value, p[0], c.value)) else None
  {
  }

  lemma {:induction false} ReplaceSameChild(value: Json, p: Path, a: Json, q: Path, b: Json)
    requires p != [] && q != [] && p[0] == q[0] && !value.Text? && Child(value, p[0]).Some?
    ensures ReplaceIn(ReplaceAt(value, p, a), q, b) ==
            var inner := ReplaceIn(ReplaceAt(Child(value, p[0]).value, p[1..], a), q[1..], b);
            if inner.Some? then Some(SetChild(value, p[0], inner.value)) else None
  {
    var c := ReplaceAt(Child(value, p[0]).value, p[1..], a);
    if c.Some? {
      var d := ReplaceAt(c.value, q[1..], b);
      if d.Some? {
        SetChildTwice(value, p[0], c.value, d.value);
      }
    }
  }

  // ---- dicts have distinct keys ----

  ghost predicate WellFormed(value: Json) {
    match value
    case Object(fields) =>
      && (forall i, j :: 0 <= i < j < |fields| ==> fields[i].key != fields[j].key)
      && (forall i :: 0 <= i < |fields| ==> WellFormed(fields[i].value))
    case Array(items) => forall i :: 0 <= i < |items| ==> WellFormed(items[i])
    case _ => true
  }

  lemma {:induction false} ChildWellFormed(value: Json, step: Step)
    requires WellFormed(value) && Child(value, step).Some?
    ensures WellFormed(Child(value, step).value)
  {
  }

  lemma {:induction false} ReplaceWellFormed(value: Json, path: Path, replacement: Json)
    requires WellFormed(value) && WellFormed(replacement) && ReplaceAt(value, path, replacement).Some?
    ensures WellFormed(ReplaceAt(value, path, replacement).value)
    decreases |path|
  {
    if path != [] {
      ChildWellFormed(value, path[0]);
      ReplaceWellFormed(Child(value, path[0]).value, path[1..], replacement);
    }
  }

  lemma {:induction false} GetWellFormed(value: Json, path: Path)
    requires WellFormed(value) && Get(value, path).Some?
    ensures WellFormed(Get(value, path).value)
    decreases |path|
  {
    if path != [] {
      ChildWellFormed(value, path[0]);
      GetWellFormed(Child(value, path[0]).value, path[1..]);
    }
  }
}
