/** The writer schema of an Avro file and `_list_enums`, which collects the
    (entity type, field name) pairs whose declared type union holds an enum.
    The schema is the parsed JSON value that Avro readers expose: a type
    expression is a type name, a list (a union) or a dict. */
module Schema {
  import opened Common

  /** The name of the reserved record type that carries job metadata. */
  const SENTINEL := "Metadata"

  /** The key of the top-level schema field whose type lists the entity types. */
  const OBJECT_FIELD := "object"

  /** A JSON type expression. A dict is modelled by the three keys the
      translator reads: `name`, `type` (here `tag`) and `fields`; a key that
      is missing is `None`. */
  datatype TypeExpr =
    | Primitive(text: string)
    | Union(members: seq<TypeExpr>)
    | Compound(name: Option<string>, tag: Option<TypeExpr>, fields: Option<seq<FieldDef>>)

  /** A field of a record schema: Avro requires both keys. */
  datatype FieldDef = FieldDef(name: string, typ: TypeExpr)

  /** The keys of a dict, each a string, in the order the dict lists them. */
  function DictKeys(t: TypeExpr): seq<TypeExpr>
    requires t.Compound?
  {
    (if t.name.Some? then [Primitive("name")] else [])
    + (if t.tag.Some? then [Primitive("type")] else [])
    + (if t.fields.Some? then [Primitive("fields")] else [])
  }

  /** What a Python `for` loop yields when it walks a type expression: a list
      yields its members, a string its one-character strings and a dict its
      keys. Only a list can yield anything but strings. */
  function Iterate(t: TypeExpr): (items: seq<TypeExpr>)
    ensures !t.Union? ==> forall u :: u in items ==> u.Primitive?
  {
    match t
    case Union(ms) => ms
    case Primitive(s) => seq(|s|, i requires 0 <= i < |s| => Primitive([s[i]]))
    case Compound(_, _, _) => DictKeys(t)
  }

  /** `next(f for f in fields if f['name'] == name)`: the position of the
      first field with that name, or `None` where Python raises StopIteration. */
  function FindField(fields: seq<FieldDef>, name: string): (r: Option<nat>)
    ensures r.None? ==> forall f :: f in fields ==> f.name != name
    ensures r.Some? ==> r.value < |fields| && fields[r.value].name == name
    ensures r.Some? ==> forall j :: 0 <= j < r.value ==> fields[j].name != name
  {
    if fields == [] then None
    else if fields[0].name == name then Some(0)
    else match FindField(fields[1..], name)
      case None => None
      case Some(i) => Some(i + 1)
  }

  /** The members of the `object` field's type: `schema['fields']` must exist,
      some field must be named `object`, and its type is then iterated. */
  function ObjectUnion(schema: TypeExpr): Result<seq<TypeExpr>> {
    if !(schema.Compound? && schema.fields.Some?) then Err(MalformedSchema)
    else match FindField(schema.fields.value, OBJECT_FIELD)
      case None => Err(NoObjectField)
      case Some(i) => Ok(Iterate(schema.fields.value[i].typ))
  }

  /** `t['name']` succeeds: `t` is a dict with a `name` key. */
  predicate HasName(t: TypeExpr) {
    t.Compound? && t.name.Some?
  }

  /** The filter `t['name'] != 'Metadata'` of a member known to have a name. */
  predicate IsEntityType(t: TypeExpr) {
    !HasName(t) || t.name.value != SENTINEL
  }

  /** A dict member whose `type` is the string `enum`. */
  predicate IsEnumMarker(u: TypeExpr) {
    u.Compound? && u.tag == Some(Primitive("enum"))
  }

  /** Some member of the field type's iteration is an enum marker. */
  predicate DeclaresEnum(typ: TypeExpr) {
    exists u :: u in Iterate(typ) && IsEnumMarker(u)
  }

  /** Probing the field type cannot fail: every dict member has a `type` key
      (`enum['type']` raises KeyError otherwise). */
  predicate DictMembersTagged(typ: TypeExpr) {
    forall u :: u in Iterate(typ) && u.Compound? ==> u.tag.Some?
  }

  /** An entity type that the enum scan walks without error. */
  predicate WellFormedEntity(t: TypeExpr) {
    && t.Compound? && t.name.Some? && t.fields.Some?
    && forall fd :: fd in t.fields.value ==> DictMembersTagged(fd.typ)
  }

  /** A union the enum scan accepts: every member has a name, and every
      member other than the sentinel is a well-formed entity type. */
  predicate WellFormedUnion(union: seq<TypeExpr>) {
    && (forall u :: u in union ==> HasName(u))
    && (forall u :: u in union && IsEntityType(u) ==> WellFormedEntity(u))
  }

  /** Type `t` is named `entityType` and declares a field `field` whose type
      union holds an enum. */
  predicate DeclaresEnumField(t: TypeExpr, entityType: string, field: string) {
    && t.Compound? && t.name == Some(entityType) && t.fields.Some?
    && exists fd :: fd in t.fields.value && fd.name == field && DeclaresEnum(fd.typ)
  }

  /** The enum pairs contributed by the fields of one entity type. */
  function EnumsOfFields(entityType: string, fields: seq<FieldDef>): (r: Result<set<(string, string)>>)
    ensures r.Ok? <==> forall fd :: fd in fields ==> DictMembersTagged(fd.typ)
    ensures r.Ok? ==> forall p :: p in r.value ==> p.0 == entityType
  {
    if fields == [] then Ok({})
    else if !DictMembersTagged(fields[0].typ) then Err(MalformedSchema)
    else
      var rest :- EnumsOfFields(entityType, fields[1..]);
      assert forall fd :: fd in fields ==> fd == fields[0] || fd in fields[1..];
      Ok((if DeclaresEnum(fields[0].typ) then {(entityType, fields[0].name)} else {}) + rest)
  }

  /** The enum pairs contributed by a list of entity types, in order. */
  function EnumsOfTypes(types: seq<TypeExpr>): (r: Result<set<(string, string)>>)
    ensures r.Ok? <==> forall t :: t in types ==> WellFormedEntity(t)
  {
    if types == [] then Ok({})
    else
      var t := types[0];
      assert t in types;
      if !(t.Compound? && t.name.Some? && t.fields.Some?) then Err(MalformedSchema)
      else
        var here :- EnumsOfFields(t.name.value, t.fields.value);
        var rest :- EnumsOfTypes(types[1..]);
        assert forall u :: u in types ==> u == t || u in types[1..];
        Ok(here + rest)
  }

  /** `_list_enums(schema)`: find the `object` field, drop the union members
      named `Metadata`, and collect the enum pairs of the remaining types. */
  function ListEnums(schema: TypeExpr): (r: Result<set<(string, string)>>)
    ensures !(schema.Compound? && schema.fields.Some?) ==> r == Err(MalformedSchema)
    ensures schema.Compound? && schema.fields.Some? && FindField(schema.fields.value, OBJECT_FIELD).None?
      ==> r == Err(NoObjectField)
    ensures ObjectUnion(schema).Ok? ==> (r.Ok? <==> WellFormedUnion(ObjectUnion(schema).value))
  {
    var union :- ObjectUnion(schema);
    if exists u :: u in union && !HasName(u) then Err(MalformedSchema)
    else EnumsOfTypes(Filter(union, IsEntityType))
  }

  lemma {:induction false} EnumsOfFieldsMembership(entityType: string, fields: seq<FieldDef>, field: string)
    requires EnumsOfFields(entityType, fields).Ok?
    ensures (entityType, field) in EnumsOfFields(entityType, fields).value
        <==> exists fd :: fd in fields && fd.name == field && DeclaresEnum(fd.typ)
  {
    if fields != [] {
      EnumsOfFieldsMembership(entityType, fields[1..], field);
      assert forall fd :: fd in fields <==> fd == fields[0] || fd in fields[1..];
    }
  }

  lemma {:induction false} EnumsOfTypesMembership(types: seq<TypeExpr>, entityType: string, field: string)
    requires EnumsOfTypes(types).Ok?
    ensures (entityType, field) in EnumsOfTypes(types).value
        <==> exists t :: t in types && DeclaresEnumField(t, entityType, field)
  {
    if types != [] {
      var t := types[0];
      var here := EnumsOfFields(t.name.value, t.fields.value).value;
      var rest := EnumsOfTypes(types[1..]).value;
      assert EnumsOfTypes(types).value == here + rest;
      EnumsOfTypesMembership(types[1..], entityType, field);
      EnumsOfFieldsMembership(t.name.value, t.fields.value, field);
      assert (entityType, field) in here <==> DeclaresEnumField(t, entityType, field);
      assert forall u :: u in types <==> u == t || u in types[1..];
    }
  }

  /** The enum index holds `(T, f)` exactly when `T` is a member of the
      `object` union other than `Metadata` and its field `f` has an enum
      marker in its type union. */
  lemma EnumIndexMembership(schema: TypeExpr, entityType: string, field: string)
    requires ListEnums(schema).Ok?
    ensures (entityType, field) in ListEnums(schema).value
        <==> entityType != SENTINEL
             && exists u :: u in ObjectUnion(schema).value && DeclaresEnumField(u, entityType, field)
  {
    var union := ObjectUnion(schema).value;
    var types := Filter(union, IsEntityType);
    EnumsOfTypesMembership(types, entityType, field);
    assert forall u :: DeclaresEnumField(u, entityType, field) ==> (IsEntityType(u) <==> entityType != SENTINEL);
  }

  /** A schema whose fields include none named `object` is rejected. */
  lemma MissingObjectFieldFails(fields: seq<FieldDef>, name: Option<string>, tag: Option<TypeExpr>)
    requires forall f :: f in fields ==> f.name != OBJECT_FIELD
    ensures ListEnums(Compound(name, tag, Some(fields))) == Err(NoObjectField)
  {
  }

  /** A field typed by a bare type name or a bare dict (not a union) never
      marks an enum and never makes the scan fail. */
  lemma BareFieldTypeContributesNothing(typ: TypeExpr)
    requires !typ.Union?
    ensures !DeclaresEnum(typ) && DictMembersTagged(typ)
  {
  }
}
