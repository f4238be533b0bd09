/** The translator of function/avro-import.py: the shared translation
    without renaming, and the module-level `translate(reader, options)`. */
module AvroImport {
  import opened Common
  import opened Schema
  import opened Padding
  import Translation

  /** `Translator(options)` as avro-import.py defines it. */
  function NewImportTranslator(options: Option<Translation.Options>): (t: Translation.Translator)
    ensures t.Valid() && !t.renameName
    ensures t.options.Keys
         == {Translation.DECODE_ENUMS, Translation.PREFIX_OBJECT_IDS}
            + (if options.Some? then options.value.Keys else {})
  {
    Translation.NewTranslator(options, false)
  }

  /** `translate(reader, options)`: a missing option dict becomes `{}` and a
      fresh translator translates the reader. */
  function Translate(reader: Option<Translation.Reader>, options: Option<Translation.Options>,
                     decode: Decoder): (r: Result<Option<seq<Translation.Entity>>>)
    ensures reader.None? <==> r == Ok(None)
  {
    var given := if options.None? then map[] else options.value;
    Translation.Translate(NewImportTranslator(Some(given)), decode, reader)
  }

  /** `translate(reader, None)` is `Translator({}).translate(reader)`, with
      both flags off. */
  lemma MissingOptions(reader: Option<Translation.Reader>, decode: Decoder)
    ensures Translate(reader, None, decode)
         == Translation.Translate(NewImportTranslator(Some(map[])), decode, reader)
    ensures !NewImportTranslator(Some(map[])).DecodesEnums()
    ensures !NewImportTranslator(Some(map[])).PrefixesObjectIds()
  {
  }

  /** Every entity `translate` returns comes from a record not named
      `Metadata`, one per such record, in input order, built with the one
      enum index of the writer schema. */
  lemma OneEntityPerRecord(rd: Translation.Reader, options: Option<Translation.Options>, decode: Decoder,
                           entities: seq<Translation.Entity>)
    requires Translate(Some(rd), options, decode) == Ok(Some(entities))
    ensures ListEnums(rd.writerSchema).Ok?
    ensures var kept := Translation.Kept(rd.records);
      && |entities| == |kept|
      && forall i :: 0 <= i < |kept| ==>
           && entities[i].name == kept[i].id
           && entities[i].entityType == kept[i].name != SENTINEL
           && Translation.TranslateRecord(NewImportTranslator(Some(if options.None? then map[] else options.value)),
                                          decode, ListEnums(rd.writerSchema).value, kept[i])
              == Ok(entities[i])
  {
    var given := if options.None? then map[] else options.value;
    Translation.TranslateRun(NewImportTranslator(Some(given)), decode, rd);
  }

  /** No renaming: every attribute name is the original object key, `name`
      included, and every relation op is named by its `dst_name`. */
  lemma NamesKept(options: Option<Translation.Options>, decode: Decoder, enums: set<(string, string)>,
                  rec: Translation.Record)
    requires Translation.TranslateRecord(NewImportTranslator(options), decode, enums, rec).Ok?
    ensures var ops := Translation.TranslateRecord(NewImportTranslator(options), decode, enums, rec).value.operations;
      var attrs := Filter(rec.attributes, Translation.HasValue);
      && (forall i :: 0 <= i < |attrs| ==> ops[i].attributeName == attrs[i].0)
      && (forall j :: 0 <= j < |rec.relations| ==> ops[|attrs| + j].attributeName == rec.relations[j].dstName)
  {
    Translation.OperationNames(NewImportTranslator(options), decode, enums, rec);
  }
}
