/** The translator of function/main.py: the shared translation with the key
    `name` renamed to `<entityType>_name`. */
module MainPy {
  import opened Common
  import opened Schema
  import opened Padding
  import opened Translation

  /** `Translator(options)` as main.py defines it. */
  function NewMainTranslator(options: Option<Options>): (t: Translator)
    ensures t.Valid() && t.renameName
    ensures t.options.Keys == {DECODE_ENUMS, PREFIX_OBJECT_IDS} + (if options.Some? then options.value.Keys else {})
  {
    NewTranslator(options, true)
  }

  /** Every attribute name main.py emits: the key `name` becomes
      `<entityType>_name`, every other key (and every other `dst_name`) is
      kept. */
  lemma RenamedNames(options: Option<Options>, decode: Decoder, enums: set<(string, string)>, rec: Record)
    requires TranslateRecord(NewMainTranslator(options), decode, enums, rec).Ok?
    ensures var ops := TranslateRecord(NewMainTranslator(options), decode, enums, rec).value.operations;
      var attrs := Filter(rec.attributes, HasValue);
      && (forall i :: 0 <= i < |attrs| ==>
            ops[i].attributeName == if attrs[i].0 == NAME_KEY then rec.name + NAME_SUFFIX else attrs[i].0)
      && (forall j :: 0 <= j < |rec.relations| ==>
            ops[|attrs| + j].attributeName
              == if rec.relations[j].dstName == NAME_KEY then rec.name + NAME_SUFFIX else rec.relations[j].dstName)
  {
    OperationNames(NewMainTranslator(options), decode, enums, rec);
  }

  /** The renamed name of any key is never `name` itself. */
  lemma EmittedNeverName(entityType: string, key: string)
    ensures EmittedKey(true, entityType, key) != NAME_KEY
  {
    if key == NAME_KEY {
      assert |entityType + NAME_SUFFIX| > |NAME_KEY|;
    }
  }

  /** No op of a record main.py translates is named `name`. */
  lemma RecordHasNoNameOp(options: Option<Options>, decode: Decoder, enums: set<(string, string)>, rec: Record)
    requires TranslateRecord(NewMainTranslator(options), decode, enums, rec).Ok?
    ensures forall o :: o in TranslateRecord(NewMainTranslator(options), decode, enums, rec).value.operations
              ==> o.attributeName != NAME_KEY
  {
    var t := NewMainTranslator(options);
    var ops := TranslateRecord(t, decode, enums, rec).value.operations;
    var attrs := Filter(rec.attributes, HasValue);
    OperationNames(t, decode, enums, rec);
    forall k | 0 <= k < |ops|
      ensures ops[k].attributeName != NAME_KEY
    {
      if k < |attrs| {
        EmittedNeverName(rec.name, attrs[k].0);
      } else {
        EmittedNeverName(rec.name, rec.relations[k - |attrs|].dstName);
      }
    }
  }

  /** No op main.py emits, attribute or relation, is named `name`, so none
      collides with the entity's own `name`. */
  lemma NoAttributeNamedName(options: Option<Options>, decode: Decoder, rd: Reader, entities: seq<Entity>)
    requires Translate(NewMainTranslator(options), decode, Some(rd)) == Ok(Some(entities))
    ensures forall e, o :: e in entities && o in e.operations ==> o.attributeName != NAME_KEY
  {
    var t := NewMainTranslator(options);
    var index := ListEnums(rd.writerSchema).value;
    var kept := Kept(rd.records);
    TranslateRun(t, decode, rd);
    forall e | e in entities
      ensures forall o :: o in e.operations ==> o.attributeName != NAME_KEY
    {
      var i :| 0 <= i < |entities| && entities[i] == e;
      RecordHasNoNameOp(options, decode, index, kept[i]);
    }
  }

  /** The enum and `object_id` checks look at the key before renaming: an
      enum-typed `name` is decoded and emitted as `<entityType>_name`. */
  lemma EnumNameDecodedThenRenamed(options: Option<Options>, decode: Decoder, enums: set<(string, string)>,
                                   entityType: string, text: string, decoded: string)
    requires NewMainTranslator(options).DecodesEnums() && (entityType, NAME_KEY) in enums
    requires decode(Pad(text)) == Some(decoded)
    ensures MakeOp(NewMainTranslator(options), decode, enums, entityType, NAME_KEY, Str(text))
         == Ok(Op(ADD_UPDATE_ATTRIBUTE, entityType + NAME_SUFFIX, Str(decoded)))
  {
  }

  /** Renaming does not rule out duplicate names: in a record whose object
      holds non-null values under both `name` and `<entityType>_name`, the
      two attribute ops are distinct and named alike. */
  lemma RenameCanDuplicateNames(options: Option<Options>, decode: Decoder, enums: set<(string, string)>,
                                rec: Record, i: nat, j: nat)
    requires TranslateRecord(NewMainTranslator(options), decode, enums, rec).Ok?
    requires i < |Filter(rec.attributes, HasValue)| && j < |Filter(rec.attributes, HasValue)|
    requires Filter(rec.attributes, HasValue)[i].0 == NAME_KEY
    requires Filter(rec.attributes, HasValue)[j].0 == rec.name + NAME_SUFFIX
    ensures var ops := TranslateRecord(NewMainTranslator(options), decode, enums, rec).value.operations;
      i != j && ops[i].attributeName == ops[j].attributeName == rec.name + NAME_SUFFIX
  {
    RenamedNames(options, decode, enums, rec);
    EmittedNeverName(rec.name, NAME_KEY);
  }

  /** Such a record exists whenever both flags are off: the object
      `{"name": "a", "sample_name": "b"}` of a `sample` record yields two ops
      named `sample_name`. */
  lemma DuplicateNamesExample(options: Option<Options>, decode: Decoder, enums: set<(string, string)>)
    requires !NewMainTranslator(options).DecodesEnums() && !NewMainTranslator(options).PrefixesObjectIds()
    ensures var rec := Record("sample", "S1", [(NAME_KEY, Str("a")), ("sample" + NAME_SUFFIX, Str("b"))], []);
      var r := TranslateRecord(NewMainTranslator(options), decode, enums, rec);
      && r.Ok? && |r.value.operations| == 2
      && r.value.operations[0].attributeName == r.value.operations[1].attributeName == "sample_name"
  {
    var rec := Record("sample", "S1", [(NAME_KEY, Str("a")), ("sample" + NAME_SUFFIX, Str("b"))], []);
    var attrs := Filter(rec.attributes, HasValue);
    assert attrs == rec.attributes;
    FlagsOffPassThrough(NewMainTranslator(options), decode, enums, rec);
  }
}
