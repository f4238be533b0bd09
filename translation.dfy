/** The `Translator` class shared by function/main.py and
    function/avro-import.py: the options overlay, `make_op` with its three
    value and key transforms, `_translate_record` and `translate`. The two
    copies differ only in whether the key `name` is renamed, which is the
    `renameName` flag of a `Translator` here. */
module Translation {
  import opened Common
  import opened Schema
  import opened Padding

  const DECODE_ENUMS := "b64-decode-enums"
  const PREFIX_OBJECT_IDS := "prefix-object-ids"
  const OBJECT_ID := "object_id"
  const NAME_KEY := "name"
  const NAME_SUFFIX := "_name"
  const DRS_PREFIX := "drs://"
  const ADD_UPDATE_ATTRIBUTE := "AddUpdateAttribute"

  /** The caller's option dict; keys other than the two flags are kept and never read. */
  type Options = map<string, Value>

  /** The defaults `Translator.__init__` lays the caller's options over. */
  function Defaults(): Options {
    map[DECODE_ENUMS := Bool(false), PREFIX_OBJECT_IDS := Bool(false)]
  }

  /** `{**defaults, **options}`, with a missing option dict read as `{}`. */
  function Overlay(given: Option<Options>): (opts: Options)
    ensures opts.Keys == {DECODE_ENUMS, PREFIX_OBJECT_IDS} + (if given.Some? then given.value.Keys else {})
    ensures given.Some? ==> forall k :: k in given.value ==> opts[k] == given.value[k]
    ensures opts[DECODE_ENUMS]
      == if given.Some? && DECODE_ENUMS in given.value then given.value[DECODE_ENUMS] else Bool(false)
    ensures opts[PREFIX_OBJECT_IDS]
      == if given.Some? && PREFIX_OBJECT_IDS in given.value then given.value[PREFIX_OBJECT_IDS] else Bool(false)
  {
    var supplied := if given.Some? then given.value else map[];
    Defaults() + supplied
  }

  /** A constructed translator: its options (fixed at construction) and
      whether it renames the key `name` (main.py) or not (avro-import.py). */
  datatype Translator = Translator(options: Options, renameName: bool) {
    /** Both flags are present, as `__init__` guarantees. */
    predicate Valid() {
      DECODE_ENUMS in options && PREFIX_OBJECT_IDS in options
    }

    predicate DecodesEnums()
      requires Valid()
    {
      Truthy(options[DECODE_ENUMS])
    }

    predicate PrefixesObjectIds()
      requires Valid()
    {
      Truthy(options[PREFIX_OBJECT_IDS])
    }
  }

  /** `Translator(options)`: each flag is on exactly when the caller supplied
      a truthy value for it; a missing option dict behaves like `{}`. */
  function NewTranslator(given: Option<Options>, renameName: bool): (t: Translator)
    ensures t.Valid() && t.renameName == renameName
    ensures t.DecodesEnums()
      == (given.Some? && DECODE_ENUMS in given.value && Truthy(given.value[DECODE_ENUMS]))
    ensures t.PrefixesObjectIds()
      == (given.Some? && PREFIX_OBJECT_IDS in given.value && Truthy(given.value[PREFIX_OBJECT_IDS]))
  {
    Translator(Overlay(given), renameName)
  }

  /** `Translator(None)` is `Translator({})`. */
  lemma MissingOptionsAsEmpty(renameName: bool)
    ensures NewTranslator(None, renameName) == NewTranslator(Some(map[]), renameName)
  {
    assert Defaults() + map[] == Defaults();
  }

  /** A reference from a record to another entity. */
  datatype Relation = Relation(dstName: string, dstId: string)

  /** One decoded input record. `attributes` is its `object` dict, as a list
      of key/value pairs in the dict's key order. */
  datatype Record = Record(name: string, id: string, attributes: seq<(string, Value)>, relations: seq<Relation>)

  /** `{op, attributeName, addUpdateAttribute}`. */
  datatype Op = Op(op: string, attributeName: string, addUpdateAttribute: Value)

  /** `{name, entityType, operations}`. */
  datatype Entity = Entity(name: string, entityType: string, operations: seq<Op>)

  /** An Avro reader: the writer schema and the records it yields, in order. */
  datatype Reader = Reader(writerSchema: TypeExpr, records: seq<Record>)

  /** The filter `record['name'] != 'Metadata'`. */
  predicate IsEntityRecord(r: Record) {
    r.name != SENTINEL
  }

  /** The filter `value is not None`. */
  predicate HasValue(item: (string, Value)) {
    item.1 != Null
  }

  /** The key and value `make_op` receives for a relation. */
  function RelationItem(rel: Relation): (string, Value) {
    (rel.dstName, Ref(rel.dstName, rel.dstId))
  }

  function RelationItems(rels: seq<Relation>): seq<(string, Value)> {
    seq(|rels|, j requires 0 <= j < |rels| => RelationItem(rels[j]))
  }

  /** `_make_add_update_op(key, value)`. */
  function MakeAddUpdateOp(key: string, value: Value): Op {
    Op(ADD_UPDATE_ATTRIBUTE, key, value)
  }

  /** The attribute name `make_op` emits for `key`. */
  function EmittedKey(renameName: bool, entityType: string, key: string): string {
    if renameName && key == NAME_KEY then entityType + NAME_SUFFIX else key
  }

  /** `_b64_decode(value).decode("utf-8")`; `len` or `+` on a value that is
      not a string raises TypeError. */
  function DecodeValue(decode: Decoder, v: Value): Result<Value> {
    match v
    case Str(s) =>
      (match B64DecodeUtf8(decode, s)
       case Some(text) => Ok(Str(text))
       case None => Err(DecodeFailure))
    case _ => Err(WrongValueType)
  }

  /** `'drs://' + value`; TypeError unless the value is a string. */
  function PrefixValue(v: Value): Result<Value> {
    match v
    case Str(s) => Ok(Str(DRS_PREFIX + s))
    case _ => Err(WrongValueType)
  }

  /** Enum decoding applies to `key` of an `entityType` record. */
  predicate DecodesHere(t: Translator, enums: set<(string, string)>, entityType: string, key: string)
    requires t.Valid()
  {
    t.DecodesEnums() && (entityType, key) in enums
  }

  /** The `drs://` prefix applies to `key`. */
  predicate PrefixesHere(t: Translator, key: string)
    requires t.Valid()
  {
    t.PrefixesObjectIds() && key == OBJECT_ID
  }

  /** `make_op(key, value)`: decode, then prefix, then rename, then build the op.
      Both checks look at the original key. */
  function MakeOp(t: Translator, decode: Decoder, enums: set<(string, string)>,
                  entityType: string, key: string, value: Value): (r: Result<Op>)
    requires t.Valid()
    ensures r.Ok? ==> r.value.op == ADD_UPDATE_ATTRIBUTE
    ensures r.Ok? ==> r.value.attributeName == EmittedKey(t.renameName, entityType, key)
    // neither transform applies: the value passes through unchanged
    ensures !DecodesHere(t, enums, entityType, key) && !PrefixesHere(t, key)
      ==> r.Ok? && r.value.addUpdateAttribute == value
    // decoding applies: only a string whose padded text the decoder accepts survives,
    // and the prefix, where it applies too, goes in front of the decoded text
    ensures DecodesHere(t, enums, entityType, key) && !value.Str? ==> r == Err(WrongValueType)
    ensures DecodesHere(t, enums, entityType, key) && value.Str? && decode(Pad(value.s)).None?
      ==> r == Err(DecodeFailure)
    ensures DecodesHere(t, enums, entityType, key) && value.Str? && decode(Pad(value.s)).Some?
      ==> r.Ok? && r.value.addUpdateAttribute
             == if PrefixesHere(t, key) then Str(DRS_PREFIX + decode(Pad(value.s)).value)
                else Str(decode(Pad(value.s)).value)
    // only the prefix applies
    ensures !DecodesHere(t, enums, entityType, key) && PrefixesHere(t, key)
      ==> if value.Str? then r.Ok? && r.value.addUpdateAttribute == Str(DRS_PREFIX + value.s)
          else r == Err(WrongValueType)
  {
    var decoded :- if DecodesHere(t, enums, entityType, key) then DecodeValue(decode, value) else Ok(value);
    var prefixed :- if PrefixesHere(t, key) then PrefixValue(decoded) else Ok(decoded);
    Ok(MakeAddUpdateOp(EmittedKey(t.renameName, entityType, key), prefixed))
  }

  /** `[make_op(key, value) for key, value in items]`, failing at the first
      failing item. */
  function MakeOps(t: Translator, decode: Decoder, enums: set<(string, string)>,
                   entityType: string, items: seq<(string, Value)>): (r: Result<seq<Op>>)
    requires t.Valid()
    ensures r.Ok? ==> |r.value| == |items|
  {
    if items == [] then Ok([])
    else
      var op :- MakeOp(t, decode, enums, entityType, items[0].0, items[0].1);
      var rest :- MakeOps(t, decode, enums, entityType, items[1..]);
      Ok([op] + rest)
  }

  /** `_translate_record`: the attribute ops of the non-null values, in key
      order, then one op per relation, in order. */
  function TranslateRecord(t: Translator, decode: Decoder, enums: set<(string, string)>, rec: Record): (r: Result<Entity>)
    requires t.Valid()
    ensures r.Ok? ==> |r.value.operations| == |Filter(rec.attributes, HasValue)| + |rec.relations|
  {
    var attributeOps :- MakeOps(t, decode, enums, rec.name, Filter(rec.attributes, HasValue));
    var relationOps :- MakeOps(t, decode, enums, rec.name, RelationItems(rec.relations));
    Ok(Entity(rec.id, rec.name, attributeOps + relationOps))
  }

  /** The list comprehension of `translate`: one entity per record not named
      `Metadata`, failing at the first record that fails. */
  function TranslateRecords(t: Translator, decode: Decoder, enums: set<(string, string)>,
                            records: seq<Record>): (r: Result<seq<Entity>>)
    requires t.Valid()
    ensures r.Ok? ==> |r.value| <= |records|
  {
    if records == [] then Ok([])
    else if !IsEntityRecord(records[0]) then TranslateRecords(t, decode, enums, records[1..])
    else
      var entity :- TranslateRecord(t, decode, enums, records[0]);
      var rest :- TranslateRecords(t, decode, enums, records[1..]);
      Ok([entity] + rest)
  }

  /** `Translator.translate(reader)`: `None` for a missing reader; otherwise
      the enum index is built once from the writer schema, then the records
      are translated with it. */
  function Translate(t: Translator, decode: Decoder, reader: Option<Reader>): (r: Result<Option<seq<Entity>>>)
    requires t.Valid()
    ensures reader.None? <==> r == Ok(None)
  {
    match reader
    case None => Ok(None)
    case Some(rd) =>
      var enums :- ListEnums(rd.writerSchema);
      var entities :- TranslateRecords(t, decode, enums, rd.records);
      Ok(Some(entities))
  }

  // ---------------------------------------------------------------------
  // Properties of the translation

  /** `MakeOps` succeeds exactly when every item's op succeeds, produces
      those ops in item order, and otherwise reports the first failure. */
  lemma {:induction false} MakeOpsSpec(t: Translator, decode: Decoder, enums: set<(string, string)>,
                                       entityType: string, items: seq<(string, Value)>)
    requires t.Valid()
    ensures var r := MakeOps(t, decode, enums, entityType, items);
      && (r.Ok? ==>
            forall i :: 0 <= i < |items| ==>
              MakeOp(t, decode, enums, entityType, items[i].0, items[i].1) == Ok(r.value[i]))
      && (r.Err? ==>
            exists i :: 0 <= i < |items|
              && MakeOp(t, decode, enums, entityType, items[i].0, items[i].1) == Err(r.error)
              && forall j :: 0 <= j < i ==> MakeOp(t, decode, enums, entityType, items[j].0, items[j].1).Ok?)
  {
    if items != [] {
      MakeOpsSpec(t, decode, enums, entityType, items[1..]);
      var first := MakeOp(t, decode, enums, entityType, items[0].0, items[0].1);
      var rest := MakeOps(t, decode, enums, entityType, items[1..]);
      if first.Ok? && rest.Err? {
        var i :| 0 <= i < |items[1..]|
          && MakeOp(t, decode, enums, entityType, items[1..][i].0, items[1..][i].1) == Err(rest.error)
          && forall j :: 0 <= j < i ==> MakeOp(t, decode, enums, entityType, items[1..][j].0, items[1..][j].1).Ok?;
        assert MakeOp(t, decode, enums, entityType, items[i + 1].0, items[i + 1].1) == Err(rest.error);
        assert forall j :: 0 <= j < i + 1 ==> MakeOp(t, decode, enums, entityType, items[j].0, items[j].1).Ok? by {
          forall j | 0 <= j < i + 1
            ensures MakeOp(t, decode, enums, entityType, items[j].0, items[j].1).Ok?
          {
            if j > 0 { assert items[j] == items[1..][j - 1]; }
          }
        }
      }
    }
  }

  /** The operations of a translated record: its attribute ops for the
      non-null values, in key order, then its relation ops, in order; the
      record fails exactly when one of them fails. */
  lemma RecordOperations(t: Translator, decode: Decoder, enums: set<(string, string)>, rec: Record)
    requires t.Valid()
    ensures var r := TranslateRecord(t, decode, enums, rec);
      var attrs := Filter(rec.attributes, HasValue);
      && (r.Ok? ==>
            && r.value.name == rec.id
            && r.value.entityType == rec.name
            && |r.value.operations| == |attrs| + |rec.relations|
            && (forall i :: 0 <= i < |attrs|
                  ==> MakeOp(t, decode, enums, rec.name, attrs[i].0, attrs[i].1) == Ok(r.value.operations[i]))
            && (forall j :: 0 <= j < |rec.relations|
                  ==> MakeOp(t, decode, enums, rec.name, rec.relations[j].dstName, RelationItem(rec.relations[j]).1)
                      == Ok(r.value.operations[|attrs| + j])))
    ensures FailsExactlyWhenAnOpFails(t, decode, enums, rec)
  {
    var attrs := Filter(rec.attributes, HasValue);
    var rels := RelationItems(rec.relations);
    MakeOpsSpec(t, decode, enums, rec.name, attrs);
    MakeOpsSpec(t, decode, enums, rec.name, rels);
    assert forall j :: 0 <= j < |rec.relations| ==> rels[j] == RelationItem(rec.relations[j]);
    RecordFailure(t, decode, enums, rec);
  }

  /** A record fails exactly when the op of one of its non-null values or of
      one of its relations fails. */
  predicate FailsExactlyWhenAnOpFails(t: Translator, decode: Decoder, enums: set<(string, string)>, rec: Record)
    requires t.Valid()
  {
    var attrs := Filter(rec.attributes, HasValue);
    TranslateRecord(t, decode, enums, rec).Err? <==>
      || (exists i :: 0 <= i < |attrs| && MakeOp(t, decode, enums, rec.name, attrs[i].0, attrs[i].1).Err?)
      || (exists j :: 0 <= j < |rec.relations|
            && MakeOp(t, decode, enums, rec.name, rec.relations[j].dstName, RelationItem(rec.relations[j]).1).Err?)
  }

  lemma RecordFailure(t: Translator, decode: Decoder, enums: set<(string, string)>, rec: Record)
    requires t.Valid()
    ensures FailsExactlyWhenAnOpFails(t, decode, enums, rec)
  {
    var attrs := Filter(rec.attributes, HasValue);
    var rels := RelationItems(rec.relations);
    MakeOpsFails(t, decode, enums, rec.name, attrs);
    RelationOpsFail(t, decode, enums, rec.name, rec.relations);
    assert TranslateRecord(t, decode, enums, rec).Err?
       <==> MakeOps(t, decode, enums, rec.name, attrs).Err? || MakeOps(t, decode, enums, rec.name, rels).Err?;
  }

  /** A list of ops fails exactly when one of its items' ops fails. */
  lemma {:induction false} MakeOpsFails(t: Translator, decode: Decoder, enums: set<(string, string)>,
                                        entityType: string, items: seq<(string, Value)>)
    requires t.Valid()
    ensures MakeOps(t, decode, enums, entityType, items).Err?
        <==> exists i :: 0 <= i < |items| && MakeOp(t, decode, enums, entityType, items[i].0, items[i].1).Err?
  {
    if items != [] {
      MakeOpsFails(t, decode, enums, entityType, items[1..]);
      if MakeOp(t, decode, enums, entityType, items[0].0, items[0].1).Ok? {
        if MakeOps(t, decode, enums, entityType, items[1..]).Err? {
          var i :| 0 <= i < |items[1..]| && MakeOp(t, decode, enums, entityType, items[1..][i].0, items[1..][i].1).Err?;
          assert items[i + 1] == items[1..][i];
        } else {
          forall i | 0 <= i < |items|
            ensures MakeOp(t, decode, enums, entityType, items[i].0, items[i].1).Ok?
          {
            if i > 0 { assert items[i] == items[1..][i - 1]; }
          }
        }
      }
    }
  }

  /** The relation ops of a record fail exactly when one relation's op fails. */
  lemma RelationOpsFail(t: Translator, decode: Decoder, enums: set<(string, string)>,
                        entityType: string, rels: seq<Relation>)
    requires t.Valid()
    ensures MakeOps(t, decode, enums, entityType, RelationItems(rels)).Err?
        <==> exists j :: 0 <= j < |rels|
               && MakeOp(t, decode, enums, entityType, rels[j].dstName, RelationItem(rels[j]).1).Err?
  {
    var items := RelationItems(rels);
    MakeOpsFails(t, decode, enums, entityType, items);
    assert forall j :: 0 <= j < |rels| ==> items[j] == RelationItem(rels[j]);
  }

  /** The records that yield an entity: those not named `Metadata`, in order. */
  function Kept(records: seq<Record>): seq<Record> {
    Filter(records, IsEntityRecord)
  }

  /** One step of `Kept`: the first record, if kept, then the kept rest. */
  lemma KeptStep(records: seq<Record>)
    requires records != []
    ensures Kept(records) == if IsEntityRecord(records[0]) then [records[0]] + Kept(records[1..]) else Kept(records[1..])
  {
    if !IsEntityRecord(records[0]) {
      assert Kept(records) == [] + Kept(records[1..]);
    }
  }

  /** One step of `TranslateRecords`: a skipped first record, or the first
      record's entity in front of the rest's, the first error winning. */
  lemma TranslateRecordsStep(t: Translator, decode: Decoder, enums: set<(string, string)>, records: seq<Record>)
    requires t.Valid() && records != []
    ensures TranslateRecords(t, decode, enums, records)
      == if !IsEntityRecord(records[0]) then TranslateRecords(t, decode, enums, records[1..])
         else match TranslateRecord(t, decode, enums, records[0])
           case Err(e) => Err(e)
           case Ok(x) =>
             (match TranslateRecords(t, decode, enums, records[1..])
              case Err(e) => Err(e)
              case Ok(xs) => Ok([x] + xs))
  {
  }

  /** The entity list is the kept records translated one by one, each with
      the same enum index; a failure is that of the first kept record that
      fails. */
  lemma {:induction false} TranslateRecordsSpec(t: Translator, decode: Decoder, enums: set<(string, string)>,
                                                records: seq<Record>)
    requires t.Valid()
    ensures var r := TranslateRecords(t, decode, enums, records); var kept := Kept(records);
      && (r.Ok? ==>
            && |r.value| == |kept|
            && forall i :: 0 <= i < |kept| ==> TranslateRecord(t, decode, enums, kept[i]) == Ok(r.value[i]))
      && (r.Err? ==>
            exists i :: 0 <= i < |kept|
              && TranslateRecord(t, decode, enums, kept[i]) == Err(r.error)
              && forall j :: 0 <= j < i ==> TranslateRecord(t, decode, enums, kept[j]).Ok?)
  {
    TranslateRecordsOk(t, decode, enums, records);
    TranslateRecordsErr(t, decode, enums, records);
  }

  /** The successful half of `TranslateRecordsSpec`. */
  lemma {:induction false} TranslateRecordsOk(t: Translator, decode: Decoder, enums: set<(string, string)>,
                                              records: seq<Record>)
    requires t.Valid()
    ensures var r := TranslateRecords(t, decode, enums, records); var kept := Kept(records);
      r.Ok? ==>
        && |r.value| == |kept|
        && forall i :: 0 <= i < |kept| ==> TranslateRecord(t, decode, enums, kept[i]) == Ok(r.value[i])
  {
    if records != [] {
      var rest := records[1..];
      var r := TranslateRecords(t, decode, enums, records);
      var rr := TranslateRecords(t, decode, enums, rest);
      TranslateRecordsOk(t, decode, enums, rest);
      KeptStep(records);
      TranslateRecordsStep(t, decode, enums, records);
      if IsEntityRecord(records[0]) && r.Ok? {
        var kept := Kept(records);
        var keptRest := Kept(rest);
        var first := TranslateRecord(t, decode, enums, records[0]);
        assert r == Ok([first.value] + rr.value);
        forall i | 0 <= i < |kept|
          ensures TranslateRecord(t, decode, enums, kept[i]) == Ok(r.value[i])
        {
          if i > 0 { assert kept[i] == keptRest[i - 1]; }
        }
      }
    }
  }

  /** The failing half of `TranslateRecordsSpec`: the error of the first kept
      record that fails. */
  lemma {:induction false} TranslateRecordsErr(t: Translator, decode: Decoder, enums: set<(string, string)>,
                                               records: seq<Record>)
    requires t.Valid()
    ensures var r := TranslateRecords(t, decode, enums, records);
      r.Err? ==> exists i :: FirstError(t, decode, enums, Kept(records), i, r.error)
  {
    if records != [] {
      var rest := records[1..];
      var r := TranslateRecords(t, decode, enums, records);
      var rr := TranslateRecords(t, decode, enums, rest);
      TranslateRecordsErr(t, decode, enums, rest);
      KeptStep(records);
      TranslateRecordsStep(t, decode, enums, records);
      if IsEntityRecord(records[0]) {
        var kept := Kept(records);
        var keptRest := Kept(rest);
        var first := TranslateRecord(t, decode, enums, records[0]);
        if first.Err? {
          assert FirstError(t, decode, enums, kept, 0, first.error);
        } else if rr.Err? {
          FirstErrorShift(t, decode, enums, records[0], keptRest, rr.error);
        }
      }
    }
  }

  /** The kept record at index `i` is the first to fail, with error `e`. */
  predicate FirstError(t: Translator, decode: Decoder, enums: set<(string, string)>,
                       kept: seq<Record>, i: int, e: Error)
    requires t.Valid()
  {
    && 0 <= i < |kept|
    && TranslateRecord(t, decode, enums, kept[i]) == Err(e)
    && forall j :: 0 <= j < i ==> TranslateRecord(t, decode, enums, kept[j]).Ok?
  }

  /** A record that translates in front of a failing list moves the first
      failure one place on. */
  lemma FirstErrorShift(t: Translator, decode: Decoder, enums: set<(string, string)>,
                        first: Record, kept: seq<Record>, e: Error)
    requires t.Valid() && TranslateRecord(t, decode, enums, first).Ok?
    requires exists i :: FirstError(t, decode, enums, kept, i, e)
    ensures exists i :: FirstError(t, decode, enums, [first] + kept, i, e)
  {
    var i :| FirstError(t, decode, enums, kept, i, e);
    var whole := [first] + kept;
    assert whole[i + 1] == kept[i];
    forall j | 0 <= j < i + 1
      ensures TranslateRecord(t, decode, enums, whole[j]).Ok?
    {
      if j > 0 { assert whole[j] == kept[j - 1]; }
    }
    assert FirstError(t, decode, enums, whole, i + 1, e);
  }

  /** Translating a stream in two parts is translating the first part and
      then the second: the entities of a prefix of the stream never change
      once it has been read, and a failure in it ends the run whatever
      follows. */
  lemma {:induction false} TranslateRecordsAppend(t: Translator, decode: Decoder, enums: set<(string, string)>,
                                                  first: seq<Record>, later: seq<Record>)
    requires t.Valid()
    ensures TranslateRecords(t, decode, enums, first + later)
      == match TranslateRecords(t, decode, enums, first)
         case Err(e) => Err(e)
         case Ok(xs) =>
           (match TranslateRecords(t, decode, enums, later)
            case Err(e) => Err(e)
            case Ok(ys) => Ok(xs + ys))
  {
    if first == [] {
      assert first + later == later;
      var ys := TranslateRecords(t, decode, enums, later);
      if ys.Ok? {
        assert [] + ys.value == ys.value;
      }
    } else {
      var whole := first + later;
      assert whole[0] == first[0];
      assert whole[1..] == first[1..] + later;
      TranslateRecordsAppend(t, decode, enums, first[1..], later);
      if IsEntityRecord(first[0]) {
        var head := TranslateRecord(t, decode, enums, first[0]);
        var xs := TranslateRecords(t, decode, enums, first[1..]);
        var ys := TranslateRecords(t, decode, enums, later);
        if head.Ok? && xs.Ok? && ys.Ok? {
          assert [head.value] + (xs.value + ys.value) == ([head.value] + xs.value) + ys.value;
        }
      }
    }
  }

  /** `translate(reader)`: the enum index is computed once, before any
      record, and a schema failure ends the run; otherwise the output is one
      entity per record not named `Metadata`, in input order, each carrying
      its record's id and type, and a failing record fails the whole run. */
  lemma TranslateRun(t: Translator, decode: Decoder, rd: Reader)
    requires t.Valid()
    ensures var r := Translate(t, decode, Some(rd)); var index := ListEnums(rd.writerSchema);
      var kept := Kept(rd.records);
      && (index.Err? ==> r == Err(index.error))
      && (index.Ok? && r.Ok? ==>
            && r.value.Some?
            && |r.value.value| == |kept|
            && forall i :: 0 <= i < |kept| ==>
                 && TranslateRecord(t, decode, index.value, kept[i]) == Ok(r.value.value[i])
                 && r.value.value[i].name == kept[i].id
                 && r.value.value[i].entityType == kept[i].name != SENTINEL)
      && (index.Ok? && r.Err? ==>
            exists i :: 0 <= i < |kept| && TranslateRecord(t, decode, index.value, kept[i]) == Err(r.error))
  {
    var index := ListEnums(rd.writerSchema);
    if index.Ok? {
      var kept := Kept(rd.records);
      TranslateRecordsSpec(t, decode, index.value, rd.records);
      forall i | 0 <= i < |kept|
        ensures kept[i].name != SENTINEL
      {
        assert kept[i] in kept;
      }
      forall i | 0 <= i < |kept| && TranslateRecord(t, decode, index.value, kept[i]).Ok?
        ensures TranslateRecord(t, decode, index.value, kept[i]).value.name == kept[i].id
        ensures TranslateRecord(t, decode, index.value, kept[i]).value.entityType == kept[i].name
      {
        RecordOperations(t, decode, index.value, kept[i]);
      }
    }
  }

  /** No entity of the output comes from a `Metadata` record. */
  lemma NoSentinelEntity(t: Translator, decode: Decoder, rd: Reader, entities: seq<Entity>)
    requires t.Valid()
    requires Translate(t, decode, Some(rd)) == Ok(Some(entities))
    ensures forall e :: e in entities ==> e.entityType != SENTINEL
  {
    TranslateRun(t, decode, rd);
  }

  /** A relation becomes the op `dst_name: {entityType: dst_name, entityName:
      dst_id}` unless a transform applies to `dst_name`; then the dict meets
      `len`/`+` and the run fails. */
  lemma RelationOp(t: Translator, decode: Decoder, enums: set<(string, string)>, entityType: string, rel: Relation)
    requires t.Valid()
    ensures var r := MakeOp(t, decode, enums, entityType, rel.dstName, RelationItem(rel).1);
      && (r.Ok? <==> !DecodesHere(t, enums, entityType, rel.dstName) && !PrefixesHere(t, rel.dstName))
      && (r.Ok? ==> r.value == Op(ADD_UPDATE_ATTRIBUTE, EmittedKey(t.renameName, entityType, rel.dstName),
                                  Ref(rel.dstName, rel.dstId)))
      && (r.Err? ==> r.error == WrongValueType)
  {
  }

  /** With both flags off, no record can fail, and every value, enum-typed or
      not, reaches its op unchanged. */
  lemma FlagsOffPassThrough(t: Translator, decode: Decoder, enums: set<(string, string)>, rec: Record)
    requires t.Valid() && !t.DecodesEnums() && !t.PrefixesObjectIds()
    ensures var r := TranslateRecord(t, decode, enums, rec); var attrs := Filter(rec.attributes, HasValue);
      && r.Ok?
      && (forall i :: 0 <= i < |attrs| ==>
            r.value.operations[i]
              == Op(ADD_UPDATE_ATTRIBUTE, EmittedKey(t.renameName, rec.name, attrs[i].0), attrs[i].1))
      && (forall j :: 0 <= j < |rec.relations| ==>
            r.value.operations[|attrs| + j]
              == Op(ADD_UPDATE_ATTRIBUTE, EmittedKey(t.renameName, rec.name, rec.relations[j].dstName),
                    Ref(rec.relations[j].dstName, rec.relations[j].dstId)))
  {
    RecordOperations(t, decode, enums, rec);
  }

  /** With both flags off, a run fails only for a schema the enum scan rejects. */
  lemma FlagsOffOnlySchemaFails(t: Translator, decode: Decoder, rd: Reader)
    requires t.Valid() && !t.DecodesEnums() && !t.PrefixesObjectIds()
    ensures Translate(t, decode, Some(rd)).Err? <==> ListEnums(rd.writerSchema).Err?
  {
    var index := ListEnums(rd.writerSchema);
    TranslateRun(t, decode, rd);
    if index.Ok? && Translate(t, decode, Some(rd)).Err? {
      var kept := Kept(rd.records);
      var i :| 0 <= i < |kept| && TranslateRecord(t, decode, index.value, kept[i]).Err?;
      FlagsOffPassThrough(t, decode, index.value, kept[i]);
    }
  }

  /** An enum-typed value whose padded text the decoder rejects, in any
      record not named `Metadata`, fails the whole run: no entity list is
      returned at all. */
  lemma DecodeFailureAbortsRun(t: Translator, decode: Decoder, rd: Reader, rec: Record, key: string, text: string)
    requires t.Valid() && t.DecodesEnums()
    requires ListEnums(rd.writerSchema).Ok? && (rec.name, key) in ListEnums(rd.writerSchema).value
    requires rec in rd.records && rec.name != SENTINEL
    requires (key, Str(text)) in rec.attributes
    requires decode(Pad(text)).None?
    ensures Translate(t, decode, Some(rd)).Err?
  {
    var index := ListEnums(rd.writerSchema).value;
    var kept := Kept(rd.records);
    TranslateRun(t, decode, rd);
    assert rec in kept;
    var attrs := Filter(rec.attributes, HasValue);
    assert (key, Str(text)) in attrs;
    var i :| 0 <= i < |attrs| && attrs[i] == (key, Str(text));
    RecordOperations(t, decode, index, rec);
    assert MakeOp(t, decode, index, rec.name, attrs[i].0, attrs[i].1) == Err(DecodeFailure);
    var k :| 0 <= k < |kept| && kept[k] == rec;
  }

  /** The attribute name of every op: the emitted form of its object key,
      or of the relation's `dst_name`. */
  lemma OperationNames(t: Translator, decode: Decoder, enums: set<(string, string)>, rec: Record)
    requires t.Valid() && TranslateRecord(t, decode, enums, rec).Ok?
    ensures var ops := TranslateRecord(t, decode, enums, rec).value.operations;
      var attrs := Filter(rec.attributes, HasValue);
      && |ops| == |attrs| + |rec.relations|
      && (forall i :: 0 <= i < |attrs| ==> ops[i].attributeName == EmittedKey(t.renameName, rec.name, attrs[i].0))
      && (forall j :: 0 <= j < |rec.relations|
            ==> ops[|attrs| + j].attributeName == EmittedKey(t.renameName, rec.name, rec.relations[j].dstName))
      && (forall o :: o in ops ==> o.op == ADD_UPDATE_ATTRIBUTE)
  {
    RecordOperations(t, decode, enums, rec);
    var ops := TranslateRecord(t, decode, enums, rec).value.operations;
    forall o | o in ops
      ensures o.op == ADD_UPDATE_ATTRIBUTE
    {
      var i :| 0 <= i < |ops| && ops[i] == o;
      var attrs := Filter(rec.attributes, HasValue);
      if i < |attrs| {
        assert MakeOp(t, decode, enums, rec.name, attrs[i].0, attrs[i].1) == Ok(ops[i]);
      } else {
        var j := i - |attrs|;
        var rel := rec.relations[j];
        assert MakeOp(t, decode, enums, rec.name, rel.dstName, RelationItem(rel).1) == Ok(ops[|attrs| + j]);
      }
    }
  }

  /** Two translators that agree on both flags and on renaming behave alike. */
  predicate SameBehaviour(t1: Translator, t2: Translator)
    requires t1.Valid() && t2.Valid()
  {
    && t1.DecodesEnums() == t2.DecodesEnums()
    && t1.PrefixesObjectIds() == t2.PrefixesObjectIds()
    && t1.renameName == t2.renameName
  }

  lemma {:induction false} SameBehaviourSameOps(t1: Translator, t2: Translator, decode: Decoder,
                                                enums: set<(string, string)>, entityType: string,
                                                items: seq<(string, Value)>)
    requires t1.Valid() && t2.Valid() && SameBehaviour(t1, t2)
    ensures MakeOps(t1, decode, enums, entityType, items) == MakeOps(t2, decode, enums, entityType, items)
  {
    if items != [] {
      SameBehaviourSameOps(t1, t2, decode, enums, entityType, items[1..]);
    }
  }

  lemma {:induction false} SameBehaviourSameEntities(t1: Translator, t2: Translator, decode: Decoder,
                                                     enums: set<(string, string)>, records: seq<Record>)
    requires t1.Valid() && t2.Valid() && SameBehaviour(t1, t2)
    ensures TranslateRecords(t1, decode, enums, records) == TranslateRecords(t2, decode, enums, records)
  {
    if records != [] {
      var rec := records[0];
      SameBehaviourSameOps(t1, t2, decode, enums, rec.name, Filter(rec.attributes, HasValue));
      SameBehaviourSameOps(t1, t2, decode, enums, rec.name, RelationItems(rec.relations));
      SameBehaviourSameEntities(t1, t2, decode, enums, records[1..]);
    }
  }

  /** Option keys other than the two flags are kept by the overlay but never
      read: adding or changing one leaves every translation as it was. */
  lemma ExtraOptionIgnored(given: Options, key: string, v: Value, renameName: bool,
                           decode: Decoder, reader: Option<Reader>)
    requires key != DECODE_ENUMS && key != PREFIX_OBJECT_IDS
    ensures key in NewTranslator(Some(given[key := v]), renameName).options
    ensures Translate(NewTranslator(Some(given[key := v]), renameName), decode, reader)
         == Translate(NewTranslator(Some(given), renameName), decode, reader)
  {
    var t1 := NewTranslator(Some(given[key := v]), renameName);
    var t2 := NewTranslator(Some(given), renameName);
    if reader.Some? && ListEnums(reader.value.writerSchema).Ok? {
      SameBehaviourSameEntities(t1, t2, decode, ListEnums(reader.value.writerSchema).value, reader.value.records);
    }
  }
}
