# Avro record to Rawls upsert translator, in Dafny

This project models the translator at the heart of the Avro import
function. The translator reads a stream of Avro records and turns each one
into a Rawls upsert entity: `{name, entityType, operations}`, where every
operation is `{op: "AddUpdateAttribute", attributeName, addUpdateAttribute}`.
The translator has four parts:

- **Options overlay.** `Translator.__init__` lays the caller's options over
  the defaults `b64-decode-enums: False` and `prefix-object-ids: False`.
  A missing option dict counts as `{}`. The flags are read with Python
  truthiness.
- **Enum index.** `_list_enums` reads the writer schema and collects the
  `(entityType, fieldName)` pairs whose field type union holds a dict member
  with `type == 'enum'`. It looks only at the members of the `object` field's
  union, and skips the `Metadata` member.
- **Translation.** `translate` drops records named `Metadata` and turns each
  other record into one entity. The entity's operations are one op per
  non-null value of `object`, in key order, then one op per relation, in
  order. Every op goes through `make_op`, which does three things in order:
  1. base64 and UTF-8 decoding of enum-typed values;
  2. a `drs://` prefix on `object_id`;
  3. in main.py only, renaming the key `name` to `<entityType>_name`.
- **Padding.** `_b64_decode` appends `-len % 4` `=` characters before
  decoding.

The repository holds the translator twice: in function/main.py and in
function/avro-import.py. The two copies differ only in the rename. The model
has one translation (module `Translation`) with a `renameName` flag.
Module `MainPy` instantiates it with renaming and module `AvroImport` without.
`_list_enums` and `_b64_decode` are the same in both files. `Schema.ListEnums`
models both copies (main.py:149-156 and avro-import.py:141-148).
`Padding.Pad` also models both (main.py:145-146 and avro-import.py:137-138).

Files:

- `common.dfy`: values, outcomes, Python truthiness, and the
  order-keeping filter of a list comprehension.
- `schema.dfy`: the writer schema as JSON type expressions, and `_list_enums`.
- `padding.dfy`: the base64 padding of `_b64_decode`.
- `translation.dfy`: the options, `make_op`, `_translate_record` and
  `translate`, with their properties.
- `main_py.dfy`: main.py's translator, which renames `name`.
- `avro_import.dfy`: avro-import.py's translator and its module-level
  `translate(reader, options)`.

Relations go through the same `make_op` as attributes (main.py:134-136,
avro-import.py:126-128), so the decode, prefix and rename steps apply to them
too:

- In main.py, a relation whose `dst_name` is `name` is emitted as
  `<entityType>_name`.
- A relation whose `dst_name` is `object_id`, with prefixing on, fails the
  run. The same happens to a relation whose `(entityType, dst_name)` is in the
  enum index, with decoding on. In both cases the relation value is a dict, and
  `+` on a dict raises TypeError.

`Translation.RelationOp` states this.

Every Python exception is an `Err` of the whole run, in one of four kinds:

- `NoObjectField`: the schema has no field named `object`.
- `MalformedSchema`: the schema has the wrong shape.
- `WrongValueType`: a transform met a value that is not a string.
- `DecodeFailure`: the decoder rejected a value.

No partial entity list is ever returned.

## Model

| member | source | states |
|---|---|---|
| `Common.Filter` | function/main.py:132-133 | the filtered list holds exactly the elements that pass the test (here `value is not None`), and is no longer than the input |
| `Common.FilterAppend` | function/main.py:115-116 | filtering keeps order: filtering a concatenation gives the filtered first part followed by the filtered second part |
| `Schema.Iterate` | function/main.py:155 | walking a field type that is not a list yields only strings, so a bare type name or a bare dict holds no dict member |
| `Schema.FindField` | function/main.py:150 | returns the position of the first field named `object`, with no earlier field of that name; `None` (StopIteration) exactly when no field has that name |
| `Schema.EnumsOfFields` | function/main.py:154-155 | the scan of one type's fields succeeds exactly when every dict member of every field type has a `type` key; every pair it yields carries that type's name |
| `Schema.EnumsOfTypes` | function/main.py:152-155 | the scan of the entity types succeeds exactly when each one is a dict with `name` and `fields` whose field unions are all probeable |
| `Schema.ListEnums` | function/main.py:149-156 | a schema that is not a dict with `fields` fails with MalformedSchema, and one with no field named `object` fails with NoObjectField; otherwise the index exists exactly when every union member has a name and every non-`Metadata` member is a well-formed record type |
| `Schema.EnumIndexMembership` | function/main.py:151-155 | `(T, f)` is in the index exactly when `T` is not `Metadata` and some member of the `object` union is named `T` and has a field `f` whose type union holds a dict with `type == 'enum'` |
| `Schema.MissingObjectFieldFails` | function/main.py:150 | a schema with no field named `object` is rejected with `NoObjectField` |
| `Schema.BareFieldTypeContributesNothing` | function/main.py:155 | a field whose type is a bare string or a bare dict neither marks an enum nor makes the scan fail |
| `Padding.PadCount` | function/main.py:146 | the pad count `-len % 4` is between 0 and 3, makes the length a multiple of 4, and is 0 exactly when the length already is a multiple of 4 |
| `Padding.Pad` | function/main.py:145-146 | the padded text starts with the input, continues only with `=`, has a length that is a multiple of 4 and less than 4 beyond the input, and is the input itself when its length is already a multiple of 4 |
| `Padding.PadIdempotent` | function/main.py:146 | padding already padded text changes nothing |
| `Translation.Overlay` | function/main.py:104-108 | the merged options hold both flag keys and every caller key; caller values win; a flag the caller did not supply is `False`; a missing dict behaves as `{}` |
| `Translation.NewTranslator` | function/main.py:104-108 | each flag is on exactly when the caller supplied a truthy value for it; otherwise it is off |
| `Translation.MissingOptionsAsEmpty` | function/main.py:105-106 | `Translator(None)` is `Translator({})` |
| `Translation.ExtraOptionIgnored` | function/main.py:108 | an option key other than the two flags is kept in the options but never changes any translation |
| `Translation.MakeOp` | function/main.py:123-130 | every op has `op == 'AddUpdateAttribute'` and the emitted key. The value passes through unchanged when neither transform applies. Decoding applies only to enum pairs with the flag on: a non-string fails, a rejected padded text fails, and otherwise the decoded text is used. The `drs://` prefix applies only to `object_id` with its flag on, after any decoding, and fails on a non-string |
| `Translation.MakeOps` | function/main.py:132-136 | a successful mapping yields exactly one op per item |
| `Translation.MakeOpsSpec` | function/main.py:132-136 | the op list succeeds exactly when every item's op succeeds. Op `i` is item `i`'s op. Otherwise the error is that of the first failing item |
| `Translation.MakeOpsFails` | function/main.py:132-136 | the op list fails exactly when the op of some item fails |
| `Translation.TranslateRecord` | function/main.py:119-142 | an entity has exactly `#non-null values + #relations` operations |
| `Translation.RecordOperations` | function/main.py:119-142 | the entity has `name = record['id']` and `entityType = record['name']`. Its operations are the ops of the non-null values in key order, then the relation ops in order. The record fails exactly when one of those ops fails |
| `Translation.RelationOpsFail` | function/main.py:134-136 | the relation ops of a record fail exactly when the op of some relation fails |
| `Translation.TranslateRecords` | function/main.py:115-116 | the entity list is never longer than the record stream |
| `Translation.TranslateRecordsSpec` | function/main.py:115-116 | the list has one entity per record not named `Metadata`, in input order. Every entity is built with the same enum index. A failure is that of the first failing kept record |
| `Translation.TranslateRecordsOk` | function/main.py:115-116 | on success, entity `i` is kept record `i` translated, and there are as many entities as kept records |
| `Translation.TranslateRecordsErr` | function/main.py:115-116 | on failure, the error is that of a kept record before which every kept record translates |
| `Translation.FirstErrorShift` | function/main.py:115-116 | a record that translates, placed in front of a list whose first failure has error `e`, leaves `e` as the first failure of the longer list |
| `Translation.TranslateRecordsAppend` | function/main.py:115-116 | translating a stream in two parts equals translating the first part and then the second: the result for a prefix never changes as more records arrive, and a failure in the prefix decides the run |
| `Translation.Translate` | function/main.py:110-112 | `translate(None)` returns `None`, and only a missing reader does |
| `Translation.TranslateRun` | function/main.py:110-117 | an enum-index failure ends the run before any record. Otherwise a successful run returns one entity per non-`Metadata` record, in input order, with that record's id and type. A failed run names a kept record that fails |
| `Translation.NoSentinelEntity` | function/main.py:116 | no output entity has entity type `Metadata` |
| `Translation.RelationOp` | function/main.py:134-136 | a relation op succeeds exactly when no transform applies to its `dst_name`. It then is `{dst_name: {entityType: dst_name, entityName: dst_id}}` under the emitted key. Otherwise it fails with a type error |
| `Translation.FlagsOffPassThrough` | function/main.py:124-127 | with both flags off a record never fails, and every value, enum-typed or not, reaches its op unchanged |
| `Translation.FlagsOffOnlySchemaFails` | function/main.py:124-127 | with both flags off a run fails exactly when the enum scan rejects the schema |
| `Translation.DecodeFailureAbortsRun` | function/main.py:124-125 | an enum-typed value that the decoder rejects after padding, in any record not named `Metadata`, makes the whole run fail with no entity list |
| `Translation.OperationNames` | function/main.py:159-164 | every op is an `AddUpdateAttribute` op. Attribute op `i` is named by the emitted form of the `i`-th non-null key. Relation op `j` is named by the emitted form of `dst_name` |
| `MainPy.NewMainTranslator` | function/main.py:103-108 | main.py's translator renames `name`, and its options hold both flag keys plus every caller key |
| `MainPy.RenamedNames` | function/main.py:128-129 | the key `name` is emitted as `<entityType>_name`; every other key and `dst_name` is emitted unchanged |
| `MainPy.EmittedNeverName` | function/main.py:128-129 | after renaming, no key is emitted as `name` |
| `MainPy.RecordHasNoNameOp` | function/main.py:128-136 | no op of a translated record, attribute or relation, is named `name` |
| `MainPy.NoAttributeNamedName` | function/main.py:128-129 | no op of any entity main.py returns is named `name` |
| `MainPy.EnumNameDecodedThenRenamed` | function/main.py:124-129 | the enum check uses the key before renaming: an enum-typed `name` is decoded, then emitted as `<entityType>_name` |
| `MainPy.RenameCanDuplicateNames` | function/main.py:128-129 | in any translated record holding non-null values under both `name` and `<entityType>_name`, two distinct attribute ops are both named `<entityType>_name` |
| `MainPy.DuplicateNamesExample` | function/main.py:128-129 | with both flags off, the `sample` record with object `{"name": "a", "sample_name": "b"}` translates to exactly two ops, both named `sample_name` |
| `AvroImport.NewImportTranslator` | function/avro-import.py:97-102 | avro-import.py's translator does not rename, and its options hold both flag keys plus every caller key |
| `AvroImport.Translate` | function/avro-import.py:90-94 | `translate(reader, options)` returns `None` exactly for a missing reader |
| `AvroImport.MissingOptions` | function/avro-import.py:90-102 | `translate(reader, None)` is `Translator({}).translate(reader)`, and both flags are then off |
| `AvroImport.OneEntityPerRecord` | function/avro-import.py:104-111 | a successful run had a valid enum index and returns one entity per non-`Metadata` record, in input order, with that record's id and type; entity `i` is kept record `i` translated, without renaming, with the writer schema's enum index |
| `AvroImport.NamesKept` | function/avro-import.py:117-122 | there is no renaming: each attribute op is named by its original key, `name` included, and each relation op by its `dst_name` |

## Left out

- The HTTP handlers `avro_to_rawls` are I/O plumbing and are not modelled: request parsing, URL fetching, `json.dumps` and timestamps. Their own `True` defaults for the two flags (main.py:37) are not modelled either.
- The bucket writers and `handle_exception` are not modelled. They are cloud storage, environment and gzip I/O.
- `fastavro.reader` is a value here: the writer schema plus the finite list of records it yields. Errors raised while reading the Avro file are not modelled. Laziness is captured only by `Translation.TranslateRecordsAppend`.
- `base64.b64decode` followed by `.decode("utf-8")` is a library call. It is the `decode` parameter, applied to the padded text. Only the padding is modelled. Python's decoder is non-validating: it drops characters outside the alphabet. So a concrete decoding such as `aGVsbG8` to `hello` is not proved.
- Records are typed. A record missing `name`, `id`, `object` or `relations`, or a relation missing `dst_name` or `dst_id`, raises KeyError in Python. The model cannot express these cases. Neither can it express an `object` or `relations` of the wrong container type.
- A record's `object` is a list of key/value pairs. A Python dict's keys are distinct, but the model does not need that, so it does not require it.
- Values are strings, integers, booleans, null and relation references. Floats, bytes, arrays, maps and nested records are not modelled. Under a transform, each of them would fail like any other value that is not a string.
- A schema dict is modelled by its `name`, `type` and `fields` keys only. Other keys, such as `namespace`, `symbols` and `doc`, are not modelled. This matters in one edge case only: a bare dict used as the type of the `object` field with none of the three keys yields no members here, whereas Python would fail on its other keys.
- Python's exception types and messages are folded into the four error kinds. Which Python exception is raised first is kept only up to that folding.
