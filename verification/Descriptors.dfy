/**
 Model, field and type descriptors and their canonical JSON form: printing and parsing
 back is the identity, and an absent default stays different from a null one.
 */
module Descriptors {
  import opened Wrappers
  import opened Sorting
  import opened Identity
  import P = Payload

  type Json = P.Json

  datatype TypeKind =
    | AnyType | NullType | BooleanType | IntegerType | NumberType | StringType | BytesType
    | ArrayType | ObjectType | MapType | UnionType | LiteralType | ModelType | UnknownType

  function KindText(kind: TypeKind): string {
    match kind
    case AnyType => "any"
    case NullType => "null"
    case BooleanType => "boolean"
    case IntegerType => "integer"
    case NumberType => "number"
    case StringType => "string"
    case BytesType => "bytes"
    case ArrayType => "array"
    case ObjectType => "object"
    case MapType => "map"
    case UnionType => "union"
    case LiteralType => "literal"
    case ModelType => "model"
    case UnknownType => "unknown"
  }

  const Kinds: seq<TypeKind> := [AnyType, NullType, BooleanType, IntegerType, NumberType, StringType, BytesType,
                                 ArrayType, ObjectType, MapType, UnionType, LiteralType, ModelType, UnknownType]

  /** `TypeKind(value)`: the member with that value, if any. */
  function ParseKind(s: string, kinds: seq<TypeKind>): (r: Option<TypeKind>)
    ensures r.Some? ==> r.value in kinds && KindText(r.value) == s
    ensures r.None? ==> forall kind :: kind in kinds ==> KindText(kind) != s
  {
    if kinds == [] then None else if KindText(kinds[0]) == s then Some(kinds[0]) else ParseKind(s, kinds[1..])
  }

  /** A model reference; its metadata is a dict. */
  datatype Reference = Reference(provider: string, entity: string, metadata: seq<P.Field>)

  datatype TypeRef = TypeRef(
    kind: TypeKind,
    name: Option<string>,
    item: Option<TypeRef>,
    args: seq<TypeRef>,
    fields: Shape,
    ref: Option<Reference>,
    version: Option<string>,
    values: seq<Json>)

  /** `FrozenMap | None`: no field map, or a possibly empty one. */
  datatype Shape = NoFields | Fields(types: map<string, TypeRef>)

  // ---- dicts with optional entries ----

  type Entries = seq<(string, Option<Json>)>

  /** The dict holding the entries that are present. */
  function Record(entries: Entries): seq<P.Field> {
    if entries == [] then []
    else (if entries[0].1.Some? then [P.Field(entries[0].0, entries[0].1.value)] else []) + Record(entries[1..])
  }

  /** `dict.get` */
  function Lookup(value: Json, key: string): (r: Option<Json>)
    requires value.Object?
    ensures r.Some? ==> r.value < value
  {
    var i := P.FieldIndex(value.fields, key);
    if i < |value.fields| then Some(value.fields[i].value) else None
  }

  /** An absent or null entry counts as missing. */
  function Present(value: Json, key: string): (r: Option<Json>)
    requires value.Object?
    ensures r.Some? ==> r.value < value
  {
    var found := Lookup(value, key);
    if found == Some(P.Null) then None else found
  }

  ghost predicate DistinctKeys(entries: Entries) {
    forall i, j :: 0 <= i < j < |entries| ==> entries[i].0 != entries[j].0
  }

  lemma {:induction false} RecordHas(entries: Entries, key: string)
    requires forall i :: 0 <= i < |entries| ==> entries[i].0 != key
    ensures P.FieldIndex(Record(entries), key) == |Record(entries)|
  {
    if entries != [] {
      RecordHas(entries[1..], key);
      assert entries[0].1.Some? ==> Record(entries)[1..] == Record(entries[1..]);
    }
  }

  /** Looking a key up in a record gives its entry back. */
  lemma {:induction false} RecordLookup(entries: Entries, i: nat)
    requires DistinctKeys(entries) && i < |entries|
    ensures Lookup(P.Object(Record(entries)), entries[i].0) == entries[i].1
  {
    var rest := Record(entries[1..]);
    if entries[0].1.Some? {
      assert Record(entries)[0] == P.Field(entries[0].0, entries[0].1.value) && Record(entries)[1..] == rest;
    } else {
      assert Record(entries) == rest;
    }
    if i == 0 {
      RecordHas(entries[1..], entries[0].0);
    } else {
      assert DistinctKeys(entries[1..]) && entries[0].0 != entries[i].0;
      RecordLookup(entries[1..], i - 1);
    }
  }

  // ---- printing ----

  function MaybeText(s: Option<string>): Option<Json> {
    if s.None? then None else Some(P.Text(s.value))
  }

  function ListOrNone(items: seq<Json>): Option<Json> {
    if items == [] then None else Some(P.Array(items))
  }

  function PrintReference(ref: Reference): Json {
    P.Object(Record([("provider_id", Some(P.Text(ref.provider))), ("entity_id", Some(P.Text(ref.entity))),
                     ("metadata", if ref.metadata == [] then None else Some(P.Object(ref.metadata)))]))
  }

  /** The dict a type prints to, given its printed parts. */
  function TypeRecord(kind: Option<Json>, name: Option<Json>, item: Option<Json>, args: Option<Json>,
                      fields: Option<Json>, ref: Option<Json>, version: Option<Json>, values: Option<Json>): Entries
  {
    [("kind", kind), ("name", name), ("item", item), ("args", args), ("fields", fields),
     ("ref", ref), ("version", version), ("values", values)]
  }

  function PrintedItem(t: TypeRef): Option<Json>
    decreases t, 0, 0
  {
    if t.item.None? then None else Some(PrintType(t.item.value))
  }

  function PrintedShape(t: TypeRef): Option<Json>
    decreases t, 0, 1 + if t.fields.NoFields? then 0 else |SortedKeys(t.fields.types.Keys)|
  {
    if t.fields.NoFields? then None else Some(P.Object(PrintFields(t, SortedKeys(t.fields.types.Keys))))
  }

  function PrintedRef(t: TypeRef): Option<Json> {
    if t.ref.None? then None else Some(PrintReference(t.ref.value))
  }

  /** `TypeRef.to_canonical` */
  function PrintType(t: TypeRef): Json
    decreases t, 2, 0
  {
    P.Object(Record(TypeRecord(
      Some(P.Text(KindText(t.kind))), MaybeText(t.name), PrintedItem(t), ListOrNone(PrintTypes(t.args)),
      PrintedShape(t), PrintedRef(t), MaybeText(t.version), ListOrNone(t.values))))
  }

  function PrintTypes(ts: seq<TypeRef>): (r: seq<Json>)
    ensures |r| == |ts|
    decreases ts, 3, 0
  {
    if ts == [] then [] else [PrintType(ts[0])] + PrintTypes(ts[1..])
  }

  function SortedKeys(keys: set<string>): (r: seq<string>)
    ensures Sorted(TextLess, r) && forall k :: k in r <==> k in keys
  {
    TextOrder();
    SortSet(TextLess, keys)
  }

  function PrintFields(t: TypeRef, keys: seq<string>): (r: seq<P.Field>)
    requires t.fields.Fields? && forall k :: k in keys ==> k in t.fields.types
    ensures |r| == |keys|
    decreases t, 0, |keys|
  {
    if keys == [] then [] else [P.Field(keys[0], PrintType(t.fields.types[keys[0]]))] + PrintFields(t, keys[1..])
  }

  // ---- parsing ----

  /** How text is read: `str` of a JSON value, and the version codec. */
  datatype Reader = Reader(str: Json -> string, show: Version -> string, parse: string -> Option<Version>)

  /** `str` of a string is that string. */
  ghost predicate ReadsText(reader: Reader) {
    forall s :: reader.str(P.Text(s)) == s
  }

  /** The version of the node parses back from its text. */
  ghost predicate ReadsVersion(reader: Reader, id: NodeId) {
    reader.parse(reader.show(id.version)) == Some(id.version)
  }

  /** The reader is faithful on the nodes given. */
  ghost predicate Faithful(reader: Reader, ids: set<NodeId>) {
    ReadsText(reader) && forall id :: id in ids ==> ReadsVersion(reader, id)
  }

  function TextAt(reader: Reader, value: Json, key: string): Option<string>
    requires value.Object?
  {
    var found := Present(value, key);
    if found.None? then None else Some(reader.str(found.value))
  }

  /** `tuple(value.get(key, ()))`; `None` when it raises. */
  function ListAt(value: Json, key: string): Option<seq<Json>>
    requires value.Object?
  {
    match Lookup(value, key)
    case None => Some([])
    case Some(list) => if list.Array? then Some(list.items) else None
  }

  /** `dict(value.get(key, {}))`; `None` when it raises. */
  function DictAt(value: Json, key: string): Option<seq<P.Field>>
    requires value.Object?
  {
    match Lookup(value, key)
    case None => Some([])
    case Some(dict) => if dict.Object? then Some(dict.fields) else None
  }

  /** `ModelRef.from_canonical`, with the older key names as fallbacks; `None` when it raises. */
  function ParseReference(reader: Reader, value: Json): Option<Reference> {
    if !value.Object? then None else
      var provider := if Lookup(value, "provider_id").Some? then Present(value, "provider_id")
          else Present(value, "provider");
      var entity := if Lookup(value, "entity_id").Some? then Present(value, "entity_id")
          else Present(value, "model_id");
      if provider.None? || entity.None? then None else
        var metadata :- DictAt(value, "metadata");
        Some(Reference(reader.str(provider.value), reader.str(entity.value), metadata))
  }

  /** `TypeKind(value["kind"])`; `None` when it raises. */
  function KindAt(value: Json): Option<TypeKind>
    requires value.Object?
  {
    match Lookup(value, "kind")
    case Some(Text(text)) => ParseKind(text, Kinds)
    case _ => None
  }

  /** A type from its parsed parts. */
  function TypeFrom(kind: Option<TypeKind>, name: Option<string>, item: Option<Option<TypeRef>>,
          args: Option<seq<TypeRef>>, fields: Option<Shape>, ref: Option<Option<Reference>>, version: Option<string>,
          values: Option<seq<Json>>)
    : Option<TypeRef>
  {
    if kind.None? || item.None? || args.None? || fields.None? || ref.None? || values.None? then None
    else Some(TypeRef(kind.value, name, item.value, args.value, fields.value, ref.value, version, values.value))
  }

  /** `TypeRef.from_canonical`; `None` when it raises. */
  function ParseType(reader: Reader, value: Json): Option<TypeRef>
    decreases value, 2
  {
    if !value.Object? then None else
      TypeFrom(KindAt(value), TextAt(reader, value, "name"), ParseItem(reader, value), ParseArgs(reader, value),
        ParseTypeFields(reader, value), ParseRefAt(reader, value), TextAt(reader, value, "version"),
        ListAt(value, "values"))
  }

  function ParseItem(reader: Reader, value: Json): Option<Option<TypeRef>>
    requires value.Object?
    decreases value, 0
  {
    var item := Present(value, "item");
    if item.None? then Some(None) else
      var parsed :- ParseType(reader, item.value);
      Some(Some(parsed))
  }

  function ParseRefAt(reader: Reader, value: Json): Option<Option<Reference>>
    requires value.Object?
  {
    var ref := Present(value, "ref");
    if ref.None? then Some(None) else
      var parsed :- ParseReference(reader, ref.value);
      Some(Some(parsed))
  }

  function ParseArgs(reader: Reader, value: Json): Option<seq<TypeRef>>
    requires value.Object?
    decreases value, 1
  {
    match Lookup(value, "args")
    case None => Some([])
    case Some(list) => if list.Array? then ParseTypes(reader, list, 0) else None
  }

  function ParseTypes(reader: Reader, list: Json, i: nat): Option<seq<TypeRef>>
    requires list.Array? && i <= |list.items|
    decreases list, 0, |list.items| - i
  {
    if i == |list.items| then Some([]) else
      var first :- ParseType(reader, list.items[i]);
      var rest :- ParseTypes(reader, list, i + 1);
      Some([first] + rest)
  }

  function ParseTypeFields(reader: Reader, value: Json): Option<Shape>
    requires value.Object?
    decreases value, 1
  {
    match Present(value, "fields")
    case None => Some(NoFields)
    case Some(dict) =>
      if !dict.Object? then None else
        var types :- ParseFields(reader, dict, 0);
        Some(Fields(types))
  }

  function ParseFields(reader: Reader, dict: Json, i: nat): Option<map<string, TypeRef>>
    requires dict.Object? && i <= |dict.fields|
    decreases dict, 0, |dict.fields| - i
  {
    if i == |dict.fields| then Some(map[]) else
      var first :- ParseType(reader, dict.fields[i].value);
      var rest :- ParseFields(reader, dict, i + 1);
      Some(map[dict.fields[i].key := first] + rest)
  }

  // ---- round trips ----

  lemma {:induction false} KindRoundTrip(kind: TypeKind)
    ensures ParseKind(KindText(kind), Kinds) == Some(kind)
  {
    var parsed := ParseKind(KindText(kind), Kinds);
    assert kind in Kinds;
    KindTextInjective(kind, parsed.value);
  }

  lemma {:induction false} KindTextInjective(a: TypeKind, b: TypeKind)
    requires KindText(a) == KindText(b)
    ensures a == b
  {
    var s, t := KindText(a), KindText(b);
    assert |s| == |t| && s[0] == t[0] && s[1] == t[1] && s[2] == t[2];
  }

  lemma {:induction false} TypeLookups(kind: Option<Json>, name: Option<Json>, item: Option<Json>, args: Option<Json>,
                                       fields: Option<Json>, ref: Option<Json>,
                                       version: Option<Json>, values: Option<Json>)
    ensures var value := P.Object(Record(TypeRecord(kind, name, item, args, fields, ref, version, values)));
            && Lookup(value, "kind") == kind && Lookup(value, "name") == name
            && Lookup(value, "item") == item && Lookup(value, "args") == args
            && Lookup(value, "fields") == fields && Lookup(value, "ref") == ref
            && Lookup(value, "version") == version && Lookup(value, "values") == values
  {
    var entries := TypeRecord(kind, name, item, args, fields, ref, version, values);
    TypeKeysDistinct(entries);
    RecordLookup(entries, 0);
    RecordLookup(entries, 1);
    RecordLookup(entries, 2);
    RecordLookup(entries, 3);
    RecordLookup(entries, 4);
    RecordLookup(entries, 5);
    RecordLookup(entries, 6);
    RecordLookup(entries, 7);
  }

  lemma {:induction false} TypeKeysDistinct(entries: Entries)
    requires |entries| == 8 && entries[0].0 == "kind" && entries[1].0 == "name" && entries[2].0 == "item"
    requires entries[3].0 == "args"
    requires entries[4].0 == "fields" && entries[5].0 == "ref" && entries[6].0 == "version" && entries[7].0 == "values"
    ensures DistinctKeys(entries)
  {
    forall i, j | 0 <= i < j < 8 ensures entries[i].0 != entries[j].0 {
      assert |entries[i].0| != |entries[j].0| || entries[i].0[0] != entries[j].0[0];
    }
  }

  lemma {:induction false} ReferenceRoundTrip(reader: Reader, ref: Reference)
    requires ReadsText(reader)
    ensures ParseReference(reader, PrintReference(ref)) == Some(ref)
  {
    var entries: Entries := [("provider_id", Some(P.Text(ref.provider))), ("entity_id", Some(P.Text(ref.entity))),
                             ("metadata", if ref.metadata == [] then None else Some(P.Object(ref.metadata)))];
    assert "provider_id"[0] != "entity_id"[0] && "provider_id"[0] != "metadata"[0] && "entity_id"[0] != "metadata"[0];
    assert DistinctKeys(entries);
    RecordLookup(entries, 0);
    RecordLookup(entries, 1);
    RecordLookup(entries, 2);
    assert PrintReference(ref) == P.Object(Record(entries));
  }

  lemma {:induction false} PrintTypesAt(ts: seq<TypeRef>, i: nat)
    requires i < |ts|
    ensures PrintTypes(ts)[i] == PrintType(ts[i])
  {
    if i > 0 {
      PrintTypesAt(ts[1..], i - 1);
    }
  }

  lemma {:induction false} PrintFieldsAt(t: TypeRef, keys: seq<string>, i: nat)
    requires t.fields.Fields? && (forall k :: k in keys ==> k in t.fields.types) && i < |keys|
    ensures PrintFields(t, keys)[i] == P.Field(keys[i], PrintType(t.fields.types[keys[i]]))
  {
    if i > 0 {
      PrintFieldsAt(t, keys[1..], i - 1);
    }
  }

  /** The entries of a map for the listed keys. */
  function Selected<V>(m: map<string, V>, keys: seq<string>): (r: map<string, V>)
    requires forall k :: k in keys ==> k in m
    ensures (forall k :: k in r <==> k in keys) && forall k :: k in r ==> r[k] == m[k]
  {
    if keys == [] then map[] else map[keys[0] := m[keys[0]]] + Selected(m, keys[1..])
  }

  lemma {:induction false} SelectedStep<V>(m: map<string, V>, keys: seq<string>, i: nat)
    requires (forall k :: k in keys ==> k in m) && i < |keys|
    ensures Selected(m, keys[i..]) == map[keys[i] := m[keys[i]]] + Selected(m, keys[i + 1..])
  {
    assert keys[i..][1..] == keys[i + 1..];
  }

  lemma {:induction false} SelectedAll<V>(m: map<string, V>, keys: seq<string>)
    requires forall k :: k in keys <==> k in m
    ensures Selected(m, keys) == m
  {
  }

  lemma {:induction false} ParseTypesStep(reader: Reader, list: Json, i: nat, first: TypeRef, rest: seq<TypeRef>)
    requires list.Array? && i < |list.items| && ParseType(reader, list.items[i]) == Some(first)
    requires ParseTypes(reader, list, i + 1) == Some(rest)
    ensures ParseTypes(reader, list, i) == Some([first] + rest)
  {
  }

  lemma {:induction false} ParseTypesEnd(reader: Reader, list: Json)
    requires list.Array?
    ensures ParseTypes(reader, list, |list.items|) == Some([])
  {
  }

  lemma {:induction false} ArgsRoundTrip(reader: Reader, t: TypeRef, i: nat)
    requires ReadsText(reader) && i <= |t.args|
    ensures ParseTypes(reader, P.Array(PrintTypes(t.args)), i) == Some(t.args[i..])
    decreases t, 0, |t.args| - i
  {
    if i < |t.args| {
      PrintTypesAt(t.args, i);
      TypeRoundTrip(reader, t.args[i]);
      ArgsRoundTrip(reader, t, i + 1);
      ParseTypesStep(reader, P.Array(PrintTypes(t.args)), i, t.args[i], t.args[i + 1..]);
      assert t.args[i..] == [t.args[i]] + t.args[i + 1..];
    } else {
      ParseTypesEnd(reader, P.Array(PrintTypes(t.args)));
      assert t.args[i..] == [];
    }
  }

  lemma {:induction false} FieldsRoundTrip(reader: Reader, t: TypeRef, keys: seq<string>, i: nat)
    requires ReadsText(reader) && t.fields.Fields? && (forall k :: k in keys ==> k in t.fields.types) && i <= |keys|
    ensures ParseFields(reader, P.Object(PrintFields(t, keys)), i) == Some(Selected(t.fields.types, keys[i..]))
    decreases t, 0, |keys| - i
  {
    if i < |keys| {
      PrintFieldsAt(t, keys, i);
      TypeRoundTrip(reader, t.fields.types[keys[i]]);
      FieldsRoundTrip(reader, t, keys, i + 1);
      SelectedStep(t.fields.types, keys, i);
    }
  }

  /** The entries of a printed type, by key. */
  lemma {:induction false} TypeParts(t: TypeRef)
    ensures var value := PrintType(t);
            && Lookup(value, "kind") == Some(P.Text(KindText(t.kind))) && Lookup(value, "name") == MaybeText(t.name)
            && Lookup(value, "item") == PrintedItem(t) && Lookup(value, "args") == ListOrNone(PrintTypes(t.args))
            && Lookup(value, "fields") == PrintedShape(t) && Lookup(value, "ref") == PrintedRef(t)
            && Lookup(value, "version") == MaybeText(t.version) && Lookup(value, "values") == ListOrNone(t.values)
  {
    TypeLookups(Some(P.Text(KindText(t.kind))), MaybeText(t.name), PrintedItem(t), ListOrNone(PrintTypes(t.args)),
                PrintedShape(t), PrintedRef(t), MaybeText(t.version), ListOrNone(t.values));
  }

  lemma {:induction false} ShapeRoundTrip(reader: Reader, t: TypeRef)
    requires ReadsText(reader)
    ensures ParseTypeFields(reader, PrintType(t)) == Some(t.fields)
    decreases t, 1
  {
    TypeParts(t);
    if t.fields.Fields? {
      var keys := SortedKeys(t.fields.types.Keys);
      FieldsRoundTrip(reader, t, keys, 0);
      assert keys[0..] == keys;
      SelectedAll(t.fields.types, keys);
      var dict := P.Object(PrintFields(t, keys));
      assert Present(PrintType(t), "fields") == Some(dict);
      assert ParseFields(reader, dict, 0) == Some(t.fields.types);
    }
  }

  lemma {:induction false} ItemRoundTrip(reader: Reader, t: TypeRef)
    requires ReadsText(reader)
    ensures ParseItem(reader, PrintType(t)) == Some(t.item)
    decreases t, 1
  {
    TypeParts(t);
    if t.item.Some? {
      assert Present(PrintType(t), "item") == Some(PrintType(t.item.value));
      TypeRoundTrip(reader, t.item.value);
    }
  }

  lemma {:induction false} ArgListRoundTrip(reader: Reader, t: TypeRef)
    requires ReadsText(reader)
    ensures ParseArgs(reader, PrintType(t)) == Some(t.args)
    decreases t, 1
  {
    TypeParts(t);
    ArgsRoundTrip(reader, t, 0);
    assert t.args[0..] == t.args;
  }

  lemma {:induction false} TextAtPrinted(reader: Reader, value: Json, key: string, s: Option<string>)
    requires ReadsText(reader) && value.Object? && Lookup(value, key) == MaybeText(s)
    ensures TextAt(reader, value, key) == s
  {
  }

  lemma {:induction false} LeavesRoundTrip(reader: Reader, t: TypeRef)
    requires ReadsText(reader)
    ensures TextAt(reader, PrintType(t), "name") == t.name && TextAt(reader, PrintType(t), "version") == t.version
    ensures ListAt(PrintType(t), "values") == Some(t.values)
  {
    TypeParts(t);
    TextAtPrinted(reader, PrintType(t), "name", t.name);
    TextAtPrinted(reader, PrintType(t), "version", t.version);
  }

  lemma {:induction false} RefRoundTrip(reader: Reader, t: TypeRef)
    requires ReadsText(reader)
    ensures ParseRefAt(reader, PrintType(t)) == Some(t.ref)
  {
    TypeParts(t);
    if t.ref.Some? {
      assert Present(PrintType(t), "ref") == Some(PrintReference(t.ref.value));
      ReferenceRoundTrip(reader, t.ref.value);
    }
  }

  /** Parsing a printed type gives the type back. */
  lemma {:induction false} TypeRoundTrip(reader: Reader, t: TypeRef)
    requires ReadsText(reader)
    ensures ParseType(reader, PrintType(t)) == Some(t)
    decreases t, 2
  {
    TypeParts(t);
    LeavesRoundTrip(reader, t);
    RefRoundTrip(reader, t);
    KindRoundTrip(t.kind);
    ItemRoundTrip(reader, t);
    ArgListRoundTrip(reader, t);
    ShapeRoundTrip(reader, t);
  }

  // ---- what a dict means ----

  /** The kind each text names. */
  lemma {:induction false} KindsByText()
    ensures ParseKind("any", Kinds) == Some(AnyType) && ParseKind("null", Kinds) == Some(NullType)
    ensures ParseKind("boolean", Kinds) == Some(BooleanType) && ParseKind("integer", Kinds) == Some(IntegerType)
    ensures ParseKind("number", Kinds) == Some(NumberType) && ParseKind("string", Kinds) == Some(StringType)
    ensures ParseKind("bytes", Kinds) == Some(BytesType) && ParseKind("array", Kinds) == Some(ArrayType)
    ensures ParseKind("object", Kinds) == Some(ObjectType) && ParseKind("map", Kinds) == Some(MapType)
    ensures ParseKind("union", Kinds) == Some(UnionType) && ParseKind("literal", Kinds) == Some(LiteralType)
    ensures ParseKind("model", Kinds) == Some(ModelType) && ParseKind("unknown", Kinds) == Some(UnknownType)
  {
    forall kind ensures ParseKind(KindText(kind), Kinds) == Some(kind) {
      KindRoundTrip(kind);
    }
    assert KindText(AnyType) == "any" && KindText(NullType) == "null";
    assert KindText(BooleanType) == "boolean" && KindText(IntegerType) == "integer";
    assert KindText(NumberType) == "number" && KindText(StringType) == "string";
    assert KindText(BytesType) == "bytes" && KindText(ArrayType) == "array";
    assert KindText(ObjectType) == "object" && KindText(MapType) == "map";
    assert KindText(UnionType) == "union" && KindText(LiteralType) == "literal";
    assert KindText(ModelType) == "model" && KindText(UnknownType) == "unknown";
  }

  /** The entry is absent or null. */
  predicate Absent(value: Json, key: string)
    requires value.Object?
  {
    Lookup(value, key) == None || Lookup(value, key) == Some(P.Null)
  }

  /** The entry is absent and so is the text, or it reads as the text. */
  predicate MeansText(reader: Reader, value: Json, key: string, s: Option<string>)
    requires value.Object?
  {
    if Absent(value, key) then s.None? else s == Some(reader.str(Lookup(value, key).value))
  }

  predicate MeansItem(reader: Reader, value: Json, item: Option<TypeRef>)
    requires value.Object?
  {
    if Absent(value, "item") then item.None?
    else item.Some? && ParseType(reader, Lookup(value, "item").value) == item
  }

  predicate MeansArgs(reader: Reader, value: Json, args: seq<TypeRef>)
    requires value.Object?
  {
    match Lookup(value, "args")
    case None => args == []
    case Some(list) =>
      && list.Array? && |list.items| == |args|
      && forall i :: 0 <= i < |args| ==> ParseType(reader, list.items[i]) == Some(args[i])
  }

  predicate MeansRef(reader: Reader, value: Json, ref: Option<Reference>)
    requires value.Object?
  {
    if Absent(value, "ref") then ref.None?
    else ref.Some? && ParseReference(reader, Lookup(value, "ref").value) == ref
  }

  predicate MeansValues(value: Json, values: seq<Json>)
    requires value.Object?
  {
    match Lookup(value, "values")
    case None => values == []
    case Some(list) => list == P.Array(values)
  }

  /** The map has a type for each key, the one its entry reads as. */
  ghost predicate MeansEntries(reader: Reader, fields: seq<P.Field>, types: map<string, TypeRef>) {
    && (forall key :: key in types <==> P.HasKey(fields, key))
    && forall i :: 0 <= i < |fields| ==>
         fields[i].key in types && ParseType(reader, fields[i].value) == Some(types[fields[i].key])
  }

  /** A dict of types: one for each key. */
  ghost predicate MeansFields(reader: Reader, value: Json, shape: Shape)
    requires value.Object?
  {
    if Absent(value, "fields") then shape.NoFields? else
      var dict := Lookup(value, "fields").value;
      dict.Object? && shape.Fields? && MeansEntries(reader, dict.fields, shape.types)
  }

  /** What the entries of a dict say of the type it stands for, null entries counting as absent. */
  ghost predicate MeansType(reader: Reader, value: Json, t: TypeRef) {
    && value.Object?
    && (exists text :: Lookup(value, "kind") == Some(P.Text(text)) && ParseKind(text, Kinds) == Some(t.kind))
    && MeansText(reader, value, "name", t.name) && MeansText(reader, value, "version", t.version)
    && MeansItem(reader, value, t.item) && MeansArgs(reader, value, t.args)
    && MeansFields(reader, value, t.fields) && MeansRef(reader, value, t.ref) && MeansValues(value, t.values)
  }

  /** The list from the position on reads as these types, one by one. */
  predicate ReadsTypes(reader: Reader, items: seq<Json>, i: nat, args: seq<TypeRef>) {
    |items| == i + |args| && forall k :: i <= k < |items| ==> ParseType(reader, items[k]) == Some(args[k - i])
  }

  lemma {:induction false} ReadsTypesStep(reader: Reader, items: seq<Json>, i: nat, args: seq<TypeRef>)
    requires args != []
    ensures ReadsTypes(reader, items, i, args) <==>
              i < |items| && ParseType(reader, items[i]) == Some(args[0]) && ReadsTypes(reader, items, i + 1, args[1..])
  {
    if |items| == i + |args| {
      forall k | i < k < |items|
        ensures ParseType(reader, items[k]) == Some(args[k - i]) <==>
                  ParseType(reader, items[k]) == Some(args[1..][k - (i + 1)])
      {
      }
    }
  }

  lemma {:induction false} ParseTypesMeans(reader: Reader, list: Json, i: nat, args: seq<TypeRef>)
    requires list.Array? && i <= |list.items|
    ensures ParseTypes(reader, list, i) == Some(args) <==> ReadsTypes(reader, list.items, i, args)
    decreases |list.items| - i
  {
    if args != [] {
      ReadsTypesStep(reader, list.items, i, args);
      if i < |list.items| {
        ParseTypesMeans(reader, list, i + 1, args[1..]);
        ParseTypesFirst(reader, list, i, args);
      } else {
        ParseTypesEnd(reader, list);
      }
    } else if i < |list.items| {
      ParseTypesNonEmpty(reader, list, i);
    }
  }

  lemma {:induction false} ParseTypesNonEmpty(reader: Reader, list: Json, i: nat)
    requires list.Array? && i < |list.items|
    ensures ParseTypes(reader, list, i) != Some([])
  {
  }

  lemma {:induction false} ParseTypesFirst(reader: Reader, list: Json, i: nat, args: seq<TypeRef>)
    requires list.Array? && i < |list.items| && args != []
    ensures ParseTypes(reader, list, i) == Some(args) <==>
              ParseType(reader, list.items[i]) == Some(args[0]) && ParseTypes(reader, list, i + 1) == Some(args[1..])
  {
    assert args == [args[0]] + args[1..];
    var first, rest := ParseType(reader, list.items[i]), ParseTypes(reader, list, i + 1);
    if first.Some? && rest.Some? {
      ParseTypesStep(reader, list, i, first.value, rest.value);
      assert ([first.value] + rest.value)[1..] == rest.value;
    }
  }

  lemma {:induction false} ArgsMean(reader: Reader, value: Json, args: seq<TypeRef>)
    requires value.Object?
    ensures ParseArgs(reader, value) == Some(args) <==> MeansArgs(reader, value, args)
  {
    var list := Lookup(value, "args");
    if list.Some? && list.value.Array? {
      ParseTypesMeans(reader, list.value, 0, args);
      ArgsAtZero(reader, list.value.items, args);
    }
  }

  lemma {:induction false} ArgsAtZero(reader: Reader, items: seq<Json>, args: seq<TypeRef>)
    ensures ReadsTypes(reader, items, 0, args) <==>
              |items| == |args| && forall i :: 0 <= i < |args| ==> ParseType(reader, items[i]) == Some(args[i])
  {
  }

  /** No key occurs twice in the dict. */
  ghost predicate UniqueKeys(fields: seq<P.Field>) {
    forall i, j :: 0 <= i < j < |fields| ==> fields[i].key != fields[j].key
  }

  /** The dict's entries from the position on read as the map's, and the map has no others. */
  ghost predicate ReadsEntries(reader: Reader, fields: seq<P.Field>, i: nat, types: map<string, TypeRef>) {
    && (forall k :: i <= k < |fields| ==> fields[k].key in types)
    && (forall k :: i <= k < |fields| && fields[k].key in types ==>
          ParseType(reader, fields[k].value) == Some(types[fields[k].key]))
    && forall key :: key in types ==> exists k :: i <= k < |fields| && fields[k].key == key
  }

  lemma {:induction false} ParseFieldsReads(reader: Reader, dict: Json, i: nat)
    requires dict.Object? && i <= |dict.fields| && UniqueKeys(dict.fields) && ParseFields(reader, dict, i).Some?
    ensures ReadsEntries(reader, dict.fields, i, ParseFields(reader, dict, i).value)
    decreases |dict.fields| - i
  {
    if i < |dict.fields| {
      ParseFieldsReads(reader, dict, i + 1);
      ParseFieldsFirst(reader, dict, i);
      ReadsEntriesStep(reader, dict.fields, i, ParseFields(reader, dict, i + 1).value);
    }
  }

  lemma {:induction false} ParseFieldsFirst(reader: Reader, dict: Json, i: nat)
    requires dict.Object? && i < |dict.fields| && ParseFields(reader, dict, i).Some?
    ensures ParseType(reader, dict.fields[i].value).Some? && ParseFields(reader, dict, i + 1).Some?
    ensures ParseFields(reader, dict, i).value ==
              map[dict.fields[i].key := ParseType(reader, dict.fields[i].value).value]
              + ParseFields(reader, dict, i + 1).value
  {
  }

  lemma {:induction false} ReadsEntriesStep(reader: Reader, fields: seq<P.Field>, i: nat, rest: map<string, TypeRef>)
    requires i < |fields| && UniqueKeys(fields) && ReadsEntries(reader, fields, i + 1, rest)
    requires ParseType(reader, fields[i].value).Some?
    ensures ReadsEntries(reader, fields, i, map[fields[i].key := ParseType(reader, fields[i].value).value] + rest)
  {
    var types := map[fields[i].key := ParseType(reader, fields[i].value).value] + rest;
    assert fields[i].key !in rest;
    forall k | i <= k < |fields|
      ensures fields[k].key in types && ParseType(reader, fields[k].value) == Some(types[fields[k].key])
    {
      assert k > i ==> fields[k].key in rest && fields[k].key != fields[i].key;
    }
    forall key | key in types ensures exists k :: i <= k < |fields| && fields[k].key == key {
      if key !in rest {
        assert fields[i].key == key;
      }
    }
  }

  lemma {:induction false} FieldsReadParse(reader: Reader, dict: Json, i: nat)
    requires dict.Object? && i <= |dict.fields|
    requires forall k :: i <= k < |dict.fields| ==> ParseType(reader, dict.fields[k].value).Some?
    ensures ParseFields(reader, dict, i).Some?
    decreases |dict.fields| - i
  {
    if i < |dict.fields| {
      FieldsReadParse(reader, dict, i + 1);
    }
  }

  lemma {:induction false} ReadsOnce(reader: Reader, fields: seq<P.Field>, x: map<string, TypeRef>,
          y: map<string, TypeRef>)
    requires ReadsEntries(reader, fields, 0, x) && ReadsEntries(reader, fields, 0, y)
    ensures x == y
  {
    forall key ensures (key in x <==> key in y) && (key in x ==> x[key] == y[key]) {
      if key in x {
        var k :| 0 <= k < |fields| && fields[k].key == key;
      }
      if key in y {
        var k :| 0 <= k < |fields| && fields[k].key == key;
      }
    }
  }

  lemma {:induction false} EntriesMean(reader: Reader, fields: seq<P.Field>, types: map<string, TypeRef>)
    ensures ReadsEntries(reader, fields, 0, types) <==> MeansEntries(reader, fields, types)
  {
    forall key ensures P.HasKey(fields, key) <==> exists k :: 0 <= k < |fields| && fields[k].key == key {
      if P.HasKey(fields, key) {
        assert fields[P.FieldIndex(fields, key)].key == key;
      }
    }
    if forall key :: key in types <==> P.HasKey(fields, key) {
      forall key | key in types ensures exists k :: 0 <= k < |fields| && fields[k].key == key {
        assert P.HasKey(fields, key);
      }
    }
    if ReadsEntries(reader, fields, 0, types) {
      forall key ensures key in types <==> P.HasKey(fields, key) {
      }
    }
  }

  lemma {:induction false} DictMeans(reader: Reader, dict: Json, types: map<string, TypeRef>)
    requires dict.Object? && UniqueKeys(dict.fields)
    ensures ParseFields(reader, dict, 0) == Some(types) <==> ReadsEntries(reader, dict.fields, 0, types)
  {
    if ReadsEntries(reader, dict.fields, 0, types) {
      FieldsReadParse(reader, dict, 0);
      ParseFieldsReads(reader, dict, 0);
      ReadsOnce(reader, dict.fields, ParseFields(reader, dict, 0).value, types);
    } else if ParseFields(reader, dict, 0).Some? {
      ParseFieldsReads(reader, dict, 0);
    }
  }

  /** What `MeansFields` says of a dict that is there. */
  lemma {:induction false} MeansDict(reader: Reader, value: Json, types: map<string, TypeRef>)
    requires value.Object? && !Absent(value, "fields") && Lookup(value, "fields").value.Object?
    ensures MeansFields(reader, value, Fields(types)) <==>
              ReadsEntries(reader, Lookup(value, "fields").value.fields, 0, types)
  {
    EntriesMean(reader, Lookup(value, "fields").value.fields, types);
  }

  lemma {:induction false} ParsesDict(reader: Reader, value: Json, types: map<string, TypeRef>)
    requires value.Object? && !Absent(value, "fields") && Lookup(value, "fields").value.Object?
    ensures ParseTypeFields(reader, value) == Some(Fields(types)) <==>
              ParseFields(reader, Lookup(value, "fields").value, 0) == Some(types)
  {
  }

  lemma {:induction false} NoShape(reader: Reader, value: Json, shape: Shape)
    requires value.Object?
    requires Absent(value, "fields") || !Lookup(value, "fields").value.Object? || shape.NoFields?
    ensures ParseTypeFields(reader, value) == Some(shape) <==> MeansFields(reader, value, shape)
  {
  }

  lemma {:induction false} FieldsMean(reader: Reader, value: Json, shape: Shape)
    requires value.Object?
    requires Present(value, "fields").Some? && Present(value, "fields").value.Object? ==>
               UniqueKeys(Present(value, "fields").value.fields)
    ensures ParseTypeFields(reader, value) == Some(shape) <==> MeansFields(reader, value, shape)
  {
    if Absent(value, "fields") || !Lookup(value, "fields").value.Object? || shape.NoFields? {
      NoShape(reader, value, shape);
    } else {
      MeansDict(reader, value, shape.types);
      ParsesDict(reader, value, shape.types);
      DictMeans(reader, Lookup(value, "fields").value, shape.types);
    }
  }

  /**
   `TypeRef.from_canonical`: a dict parses as a type if and only if its entries mean that type,
   `kind` by its text, the others under their keys; a null `name`, `item`, `fields`, `ref` or
   `version` counts as absent.
   */
  lemma {:induction false} ParseTypeExact(reader: Reader, value: Json, t: TypeRef)
    requires value.Object? && Present(value, "fields").Some? && Present(value, "fields").value.Object? ==>
               UniqueKeys(Present(value, "fields").value.fields)
    ensures ParseType(reader, value) == Some(t) <==> MeansType(reader, value, t)
  {
    if value.Object? {
      PartsMean(reader, value, t);
      ParsedParts(reader, value, t);
    }
  }

  lemma {:induction false} TextMeans(reader: Reader, value: Json, key: string, s: Option<string>)
    requires value.Object?
    ensures TextAt(reader, value, key) == s <==> MeansText(reader, value, key, s)
  {
  }

  lemma {:induction false} ItemMeans(reader: Reader, value: Json, item: Option<TypeRef>)
    requires value.Object?
    ensures ParseItem(reader, value) == Some(item) <==> MeansItem(reader, value, item)
  {
  }

  lemma {:induction false} RefMeans(reader: Reader, value: Json, ref: Option<Reference>)
    requires value.Object?
    ensures ParseRefAt(reader, value) == Some(ref) <==> MeansRef(reader, value, ref)
  {
  }

  lemma {:induction false} ValuesMean(value: Json, values: seq<Json>)
    requires value.Object?
    ensures ListAt(value, "values") == Some(values) <==> MeansValues(value, values)
  {
  }

  /** The type's parts are what the readers of the single entries give. */
  predicate HasParts(reader: Reader, value: Json, t: TypeRef)
    requires value.Object?
  {
    && KindAt(value) == Some(t.kind)
    && TextAt(reader, value, "name") == t.name && TextAt(reader, value, "version") == t.version
    && ParseItem(reader, value) == Some(t.item) && ParseArgs(reader, value) == Some(t.args)
    && ParseTypeFields(reader, value) == Some(t.fields) && ParseRefAt(reader, value) == Some(t.ref)
    && ListAt(value, "values") == Some(t.values)
  }

  lemma {:induction false} TypeFromParts(kind: Option<TypeKind>, name: Option<string>, item: Option<Option<TypeRef>>,
          args: Option<seq<TypeRef>>, fields: Option<Shape>, ref: Option<Option<Reference>>, version: Option<string>,
          values: Option<seq<Json>>, t: TypeRef)
    ensures TypeFrom(kind, name, item, args, fields, ref, version, values) == Some(t) <==>
              && kind == Some(t.kind) && name == t.name && item == Some(t.item) && args == Some(t.args)
              && fields == Some(t.fields) && ref == Some(t.ref) && version == t.version && values == Some(t.values)
  {
  }

  lemma {:induction false} ParsedParts(reader: Reader, value: Json, t: TypeRef)
    requires value.Object?
    ensures ParseType(reader, value) == Some(t) <==> HasParts(reader, value, t)
  {
    TypeFromParts(KindAt(value), TextAt(reader, value, "name"), ParseItem(reader, value), ParseArgs(reader, value),
      ParseTypeFields(reader, value), ParseRefAt(reader, value), TextAt(reader, value, "version"),
      ListAt(value, "values"), t);
  }

  lemma {:induction false} KindMeans(value: Json, kind: TypeKind)
    requires value.Object?
    ensures KindAt(value) == Some(kind) <==>
              exists text :: Lookup(value, "kind") == Some(P.Text(text)) && ParseKind(text, Kinds) == Some(kind)
  {
    if KindAt(value) == Some(kind) {
      assert Lookup(value, "kind") == Some(P.Text(Lookup(value, "kind").value.text));
    }
  }

  lemma {:induction false} PartsMean(reader: Reader, value: Json, t: TypeRef)
    requires value.Object? && Present(value, "fields").Some? && Present(value, "fields").value.Object? ==>
               UniqueKeys(Present(value, "fields").value.fields)
    requires value.Object?
    ensures HasParts(reader, value, t) <==> MeansType(reader, value, t)
  {
    KindMeans(value, t.kind);
    ArgsMean(reader, value, t.args);
    FieldsMean(reader, value, t.fields);
    TextMeans(reader, value, "name", t.name);
    TextMeans(reader, value, "version", t.version);
    ItemMeans(reader, value, t.item);
    RefMeans(reader, value, t.ref);
    ValuesMean(value, t.values);
  }

  /** A null provider raises, also next to one under the older key. */
  lemma {:induction false} NullProviderRaises(reader: Reader, value: Json)
    requires value.Object?
    requires Lookup(value, "provider_id") == Some(P.Null) || Lookup(value, "entity_id") == Some(P.Null)
    ensures ParseReference(reader, value).None?
  {
  }

  /** A reference written under the older key names reads the same. */
  lemma {:induction false} OlderReferenceReads(reader: Reader, provider: string, entity: string)
    requires ReadsText(reader)
    ensures var fields := [P.Field("provider", P.Text(provider)), P.Field("model_id", P.Text(entity))];
            ParseReference(reader, P.Object(fields)) == Some(Reference(provider, entity, []))
  {
    var fields := [P.Field("provider", P.Text(provider)), P.Field("model_id", P.Text(entity))];
    assert |"provider"| != |"provider_id"| && |"provider"| != |"entity_id"| && |"model_id"| != |"entity_id"|;
    assert |"model_id"| != |"provider_id"| && "provider"[0] != "model_id"[0] && "metadata"[0] != "provider"[0];
    assert "metadata"[1] != "model_id"[1];
    assert fields[1..][0].key == "model_id" && fields[1..][1..] == [];
    assert P.FieldIndex(fields[1..], "model_id") == 0 && P.FieldIndex(fields, "model_id") == 1;
    assert P.FieldIndex(fields, "provider_id") == 2 && P.FieldIndex(fields, "entity_id") == 2;
    assert P.FieldIndex(fields, "metadata") == 2;
  }

  // ---- fields ----

  /** A field; `default` is `None` when no default is declared, `Some(Null)` when it is null. */
  datatype FieldDescriptor = FieldDescriptor(name: string, typeRef: TypeRef, required: bool,
      default: Option<Json>, references: seq<NodeId>)

  function FieldReferences(f: FieldDescriptor): set<NodeId> {
    set id | id in f.references
  }

  function PrintNode(reader: Reader, id: NodeId): Json {
    P.Object(Record([("namespace", Some(P.Text(id.space))), ("kind", Some(P.Text(id.kind))),
        ("version", Some(P.Text(reader.show(id.version))))]))
  }

  function PrintNodes(reader: Reader, ids: seq<NodeId>): (r: seq<Json>)
    ensures |r| == |ids|
  {
    if ids == [] then [] else [PrintNode(reader, ids[0])] + PrintNodes(reader, ids[1..])
  }

  function FieldEntries(reader: Reader, f: FieldDescriptor): Entries {
    [("name", Some(P.Text(f.name))),
     ("required", Some(P.Bool(f.required))),
     ("type_ref", Some(PrintType(f.typeRef))),
     ("references", ListOrNone(PrintNodes(reader, f.references))),
     ("default", f.default)]
  }

  /** `FieldDescriptor.to_canonical` */
  function PrintField(reader: Reader, f: FieldDescriptor): Json {
    P.Object(Record(FieldEntries(reader, f)))
  }

  function ParseNode(reader: Reader, value: Json): Option<NodeId> {
    if !value.Object? then None else
      var space :- Lookup(value, "namespace");
      var kind :- Lookup(value, "kind");
      var text :- Lookup(value, "version");
      var version :- reader.parse(reader.str(text));
      Some(NodeId(reader.str(space), reader.str(kind), version))
  }

  function ParseNodes(reader: Reader, items: seq<Json>): Option<seq<NodeId>> {
    if items == [] then Some([]) else
      var first :- ParseNode(reader, items[0]);
      var rest :- ParseNodes(reader, items[1..]);
      Some([first] + rest)
  }

  /** `bool(value)` */
  predicate Truthy(value: Json) {
    match value
    case Object(fields) => fields != []
    case Array(items) => items != []
    case Text(text) => text != ""
    case Number(number) => number != 0.0
    case Bool(flag) => flag
    case Null => false
  }

  /** False are null, false, zero and what is empty, and nothing else. */
  lemma {:induction false} TruthyExact(value: Json)
    ensures !Truthy(value) <==>
              value in {P.Null, P.Bool(false), P.Number(0.0), P.Text(""), P.Array([]), P.Object([])}
  {
  }

  /** `FieldDescriptor.from_canonical`; `None` when it raises. */
  function ParseField(reader: Reader, value: Json): Option<FieldDescriptor> {
    if !value.Object? then None else
      FieldFrom(reader, Lookup(value, "name"), TypeAt(reader, value), Lookup(value, "required"),
          Lookup(value, "default"), NodesAt(reader, value))
  }

  function TypeAt(reader: Reader, value: Json): Option<TypeRef>
    requires value.Object?
  {
    var found :- Lookup(value, "type_ref");
    ParseType(reader, found)
  }

  function NodesAt(reader: Reader, value: Json): Option<seq<NodeId>>
    requires value.Object?
  {
    var items :- ListAt(value, "references");
    ParseNodes(reader, items)
  }

  /** A field from its parsed parts. */
  function FieldFrom(reader: Reader, name: Option<Json>, typeRef: Option<TypeRef>, required: Option<Json>,
          default: Option<Json>, references: Option<seq<NodeId>>)
    : Option<FieldDescriptor>
  {
    if name.None? || typeRef.None? || references.None? then None
    else Some(FieldDescriptor(reader.str(name.value), typeRef.value, required.Some? && Truthy(required.value),
             default, references.value))
  }

  lemma {:induction false} NodeRoundTrip(reader: Reader, id: NodeId)
    requires ReadsText(reader) && ReadsVersion(reader, id)
    ensures ParseNode(reader, PrintNode(reader, id)) == Some(id)
  {
    var entries: Entries := [("namespace", Some(P.Text(id.space))), ("kind", Some(P.Text(id.kind))),
        ("version", Some(P.Text(reader.show(id.version))))];
    assert "namespace"[0] != "kind"[0] && "namespace"[0] != "version"[0] && "kind"[0] != "version"[0];
    assert DistinctKeys(entries);
    RecordLookup(entries, 0);
    RecordLookup(entries, 1);
    RecordLookup(entries, 2);
    assert PrintNode(reader, id) == P.Object(Record(entries));
  }

  lemma {:induction false} NodesRoundTrip(reader: Reader, ids: seq<NodeId>)
    requires ReadsText(reader) && forall id :: id in ids ==> ReadsVersion(reader, id)
    ensures ParseNodes(reader, PrintNodes(reader, ids)) == Some(ids)
  {
    if ids != [] {
      NodeRoundTrip(reader, ids[0]);
      NodesRoundTrip(reader, ids[1..]);
      assert PrintNodes(reader, ids)[0] == PrintNode(reader, ids[0]);
      assert PrintNodes(reader, ids)[1..] == PrintNodes(reader, ids[1..]);
      assert ids == [ids[0]] + ids[1..];
    }
  }

  lemma {:induction false} FieldLookups(reader: Reader, f: FieldDescriptor)
    ensures var entries := FieldEntries(reader, f);
            forall i :: 0 <= i < 5 ==> Lookup(PrintField(reader, f), entries[i].0) == entries[i].1
  {
    var keys := ["name", "required", "type_ref", "references", "default"];
    var entries := FieldEntries(reader, f);
    assert forall i :: 0 <= i < 5 ==> entries[i].0 == keys[i];
    forall i, j | 0 <= i < j < 5 ensures keys[i] != keys[j] {
      assert |keys[i]| != |keys[j]| || keys[i][0] != keys[j][0];
    }
    forall i | 0 <= i < 5 ensures Lookup(PrintField(reader, f), entries[i].0) == entries[i].1 {
      RecordLookup(entries, i);
    }
  }

  lemma {:induction false} FieldLeaves(reader: Reader, f: FieldDescriptor)
    ensures var value := PrintField(reader, f);
            && Lookup(value, "name") == Some(P.Text(f.name)) && Lookup(value, "required") == Some(P.Bool(f.required))
            && Lookup(value, "default") == f.default
  {
    FieldLookups(reader, f);
    var entries := FieldEntries(reader, f);
    assert entries[0].0 == "name" && entries[1].0 == "required" && entries[4].0 == "default";
  }

  lemma {:induction false} FieldTypeRoundTrip(reader: Reader, f: FieldDescriptor)
    requires ReadsText(reader)
    ensures TypeAt(reader, PrintField(reader, f)) == Some(f.typeRef)
  {
    FieldLookups(reader, f);
    assert FieldEntries(reader, f)[2].0 == "type_ref";
    TypeRoundTrip(reader, f.typeRef);
  }

  lemma {:induction false} FieldNodesRoundTrip(reader: Reader, f: FieldDescriptor)
    requires Faithful(reader, FieldReferences(f))
    ensures NodesAt(reader, PrintField(reader, f)) == Some(f.references)
  {
    FieldLookups(reader, f);
    assert FieldEntries(reader, f)[3].0 == "references";
    NodesRoundTrip(reader, f.references);
  }

  /** Parsing a printed field gives the field back, an absent default staying absent and a null one null. */
  lemma {:induction false} FieldRoundTrip(reader: Reader, f: FieldDescriptor)
    requires Faithful(reader, FieldReferences(f))
    ensures ParseField(reader, PrintField(reader, f)) == Some(f)
  {
    FieldLeaves(reader, f);
    FieldTypeRoundTrip(reader, f);
    FieldNodesRoundTrip(reader, f);
    FieldRebuilt(reader, f);
    ParseFieldParts(reader, PrintField(reader, f));
  }

  lemma {:induction false} FieldRebuilt(reader: Reader, f: FieldDescriptor)
    requires ReadsText(reader)
    ensures FieldFrom(reader, Some(P.Text(f.name)), Some(f.typeRef), Some(P.Bool(f.required)),
              f.default, Some(f.references)) == Some(f)
  {
  }

  lemma {:induction false} ParseFieldParts(reader: Reader, value: Json)
    requires value.Object?
    ensures ParseField(reader, value) ==
              FieldFrom(reader, Lookup(value, "name"), TypeAt(reader, value), Lookup(value, "required"),
                                                   Lookup(value, "default"), NodesAt(reader, value))
  {
  }

  /** A field of which only name and type are written is optional, without default and references. */
  lemma {:induction false} BareFieldReads(reader: Reader, name: string, typeRef: TypeRef)
    requires ReadsText(reader)
    ensures ParseField(reader, P.Object([P.Field("name", P.Text(name)), P.Field("type_ref", PrintType(typeRef))]))
              == Some(FieldDescriptor(name, typeRef, false, None, []))
  {
    var fields := [P.Field("name", P.Text(name)), P.Field("type_ref", PrintType(typeRef))];
    assert |"name"| != |"type_ref"| && "required"[0] != "name"[0] && "required"[0] != "type_ref"[0];
    assert "default"[0] != "name"[0] && "default"[0] != "type_ref"[0];
    assert "references"[0] != "name"[0] && "references"[0] != "type_ref"[0];
    assert fields[1..][0].key == "type_ref" && fields[1..][1..] == [];
    assert P.FieldIndex(fields[1..], "type_ref") == 0 && P.FieldIndex(fields, "type_ref") == 1;
    assert P.FieldIndex(fields, "required") == 2 && P.FieldIndex(fields, "default") == 2;
    assert P.FieldIndex(fields, "references") == 2;
    TypeRoundTrip(reader, typeRef);
  }

  // ---- models ----

  datatype ModelDescriptor = ModelDescriptor(ref: Reference, fields: map<string, FieldDescriptor>)

  /** The nodes a model's fields reference. */
  function ModelReferences(m: ModelDescriptor): set<NodeId> {
    set name, id | name in m.fields && id in m.fields[name].references :: id
  }

  /**
   References are listed by the text of their namespace, kind and version; ties, which may be
   listed either way, by identity.
   */
  predicate TextOrderLess(reader: Reader, a: NodeId, b: NodeId) {
    TextLess(a.space, b.space) || (a.space == b.space &&
    (TextLess(a.kind, b.kind) || (a.kind == b.kind &&
    (TextLess(reader.show(a.version), reader.show(b.version)) ||
     (reader.show(a.version) == reader.show(b.version) && a.version < b.version)))))
  }

  function ByText(reader: Reader): (NodeId, NodeId) -> bool {
    (a: NodeId, b: NodeId) => TextOrderLess(reader, a, b)
  }

  lemma {:induction false} ByTextOrder(reader: Reader, ids: set<NodeId>)
    ensures StrictOrder(ByText(reader)) && TotalOn(ByText(reader), ids)
  {
    TextOrder();
    forall a: NodeId, b: NodeId, c: NodeId | TextOrderLess(reader, a, b) && TextOrderLess(reader, b, c)
      ensures TextOrderLess(reader, a, c)
    {
    }
    forall a: NodeId, b: NodeId | a != b ensures TextOrderLess(reader, a, b) || TextOrderLess(reader, b, a) {
    }
  }

  function PrintModelFields(reader: Reader, fields: map<string, FieldDescriptor>, keys: seq<string>): (r: seq<P.Field>)
    requires forall k :: k in keys ==> k in fields
    ensures |r| == |keys|
  {
    if keys == [] then [] else
      [P.Field(keys[0], PrintField(reader, fields[keys[0]]))] + PrintModelFields(reader, fields, keys[1..])
  }

  function ModelEntries(reader: Reader, m: ModelDescriptor): Entries
  {
    ByTextOrder(reader, ModelReferences(m));
    [("ref", Some(PrintReference(m.ref))),
     ("fields", Some(P.Object(PrintModelFields(reader, m.fields, SortedKeys(m.fields.Keys))))),
     ("references", Some(P.Array(PrintNodes(reader, SortSet(ByText(reader), ModelReferences(m))))))]
  }

  /** `ModelDescriptor.to_canonical` */
  function PrintModel(reader: Reader, m: ModelDescriptor): Json
  {
    P.Object(Record(ModelEntries(reader, m)))
  }

  function ParseModelFields(reader: Reader, fields: seq<P.Field>): Option<map<string, FieldDescriptor>> {
    if fields == [] then Some(map[]) else
      var first :- ParseField(reader, fields[0].value);
      var rest :- ParseModelFields(reader, fields[1..]);
      Some(map[fields[0].key := first] + rest)
  }

  /** `ModelDescriptor.from_canonical`; `None` when it raises. */
  function ParseModel(reader: Reader, value: Json): Option<ModelDescriptor> {
    if !value.Object? then None else
      var refValue :- Lookup(value, "ref");
      var ref :- ParseReference(reader, refValue);
      var entries :- DictAt(value, "fields");
      var fields :- ParseModelFields(reader, entries);
      Some(ModelDescriptor(ref, fields))
  }

  ghost predicate FaithfulFields(reader: Reader, fields: map<string, FieldDescriptor>) {
    forall k :: k in fields ==> Faithful(reader, FieldReferences(fields[k]))
  }

  lemma {:induction false} FieldsAreFaithful(reader: Reader, m: ModelDescriptor)
    requires Faithful(reader, ModelReferences(m))
    ensures FaithfulFields(reader, m.fields)
  {
    forall k, id | k in m.fields && id in FieldReferences(m.fields[k]) ensures ReadsVersion(reader, id) {
      assert id in ModelReferences(m);
    }
  }

  lemma {:induction false} ModelFieldsRoundTrip(reader: Reader, fields: map<string, FieldDescriptor>, keys: seq<string>)
    requires FaithfulFields(reader, fields) && forall k :: k in keys ==> k in fields
    ensures ParseModelFields(reader, PrintModelFields(reader, fields, keys)) == Some(Selected(fields, keys))
  {
    if keys != [] {
      FieldRoundTrip(reader, fields[keys[0]]);
      ModelFieldsRoundTrip(reader, fields, keys[1..]);
      assert PrintModelFields(reader, fields, keys)[1..] == PrintModelFields(reader, fields, keys[1..]);
    }
  }

  lemma {:induction false} ModelLookups(reader: Reader, m: ModelDescriptor)
    ensures var entries := ModelEntries(reader, m);
            forall i :: 0 <= i < 3 ==> Lookup(PrintModel(reader, m), entries[i].0) == entries[i].1
  {
    var entries := ModelEntries(reader, m);
    assert |"ref"| != |"fields"| && |"ref"| != |"references"| && |"fields"| != |"references"|;
    assert DistinctKeys(entries);
    RecordLookup(entries, 0);
    RecordLookup(entries, 1);
    RecordLookup(entries, 2);
  }

  /** Parsing a printed model gives the model back, whatever the order its fields were declared in. */
  lemma {:induction false} ModelRoundTrip(reader: Reader, m: ModelDescriptor)
    requires Faithful(reader, ModelReferences(m))
    ensures ParseModel(reader, PrintModel(reader, m)) == Some(m)
  {
    ModelLookups(reader, m);
    var entries := ModelEntries(reader, m);
    assert entries[0].0 == "ref" && entries[1].0 == "fields";
    var keys := SortedKeys(m.fields.Keys);
    ReferenceRoundTrip(reader, m.ref);
    FieldsAreFaithful(reader, m);
    ModelFieldsRoundTrip(reader, m.fields, keys);
    SelectedAll(m.fields, keys);
  }

  /** The printed references are exactly the fields' references. */
  lemma {:induction false} ModelReferencesExact(reader: Reader, m: ModelDescriptor)
    requires Faithful(reader, ModelReferences(m))
    ensures var listed := ListAt(PrintModel(reader, m), "references");
            && listed.Some? && ParseNodes(reader, listed.value).Some?
            && forall id :: id in ParseNodes(reader, listed.value).value <==> id in ModelReferences(m)
  {
    ModelLookups(reader, m);
    assert ModelEntries(reader, m)[2].0 == "references";
    ByTextOrder(reader, ModelReferences(m));
    NodesRoundTrip(reader, SortSet(ByText(reader), ModelReferences(m)));
  }
}
