# somedb in Dafny

This project models the core of somedb. somedb is a small embedded database
written in Rust. It keeps every entity type in one file of the database
directory. The file is named after a fingerprint of the type's schema and
holds the whole table as one framed binary block.

The model covers:

- **The framed codec.**
  - `byte_reader.dfy` models `ByteReader`: a class whose cursor methods are proved against pure `Cursor` functions.
  - `storable.dfy` models `Storable`. Every value is a 4-byte big-endian length followed by its payload. Integers are fixed-width big-endian, `String` is UTF-8, and `Vec<T>` is back-to-back framed elements. Derived records are their fields in declaration order.
  - `bytes.dfy` holds the byte-level helpers: big-endian numbers and the UTF-8 well-formedness test.
- **The table container.**
  - `entity_meta.dfy` models the versioned `EntityMeta`.
  - `legacy_entity_meta.dfy` models the older unversioned one.
- **Schema fingerprints.** `type_hash.dfy` models `TypeHash`: the digest input, and the 28-character base64url spelling used as a file name.
- **Id policy.** `id.dfy` models `IdType` for the integer types.
- **Entities.** `entity.dfy` gives an entity type its record shape, id field and id policy, with `get_id`/`set_id`.
- **The database.** `db.dfy` models `Database`. It is a class holding the directory, as a map from file names to bytes, and the registry of stored types. Each method is proved against a pure operation on the database state.
- **Queries.** `query.dfy` models the query pipeline: `DbQuery`, `DbQueryMut`, `filter`/`map`, `collect_vec` and `save_to_db`.
- **The expression evaluator.** `gen_query.dfy` models the typed expression trees of `gen_query.rs` and its `filter` loop.
- **Errors.** `errors.dfy` models `DbError`, `DbResult` and the panics of the source.

Parameters stand for what the model does not compute:

- The crate `VERSION` string is the `version` parameter.
- The SHA-1 routine is the `digest` parameter, a function from the bytes fed to it, concatenated, to 20-byte hashes (see the line on src/sha.rs under "Left out").
- A panic of the source (an `unwrap` on bad input, an index out of range, arithmetic overflow) is an `Err`/`None` result, with two exceptions that are preconditions instead:
  - `TypeHash::new` indexes the field types by the field names' positions and panics when there are fewer types than names (src/type_hash.rs:44). `TypeHash.New`, `TypeHash.Preimage` and `TypeHash.FramedPreimage` require `|fieldNames| <= |fieldTypes|`.
  - `get_enc` indexes its 64-entry table and panics on a digit of 64 or more (src/type_hash.rs:12). `TypeHash.GetEnc` requires `d < 64`.
  - Every call in the model meets both. A record's field fingerprints are computed one per field type, and a well-formed record has as many types as names. The digits come from 6-bit slices of the hash.

## Model

| member | source | states |
|---|---|---|
| DbErrors.ErrorEqMeansSameKind | src/db.rs:362-373 | `DbError` equality is equality of kinds, except that an I/O error equals nothing, itself included; it is symmetric |
| Bytes.FromBEToBE | somedb/src/storable.rs:30-36 | reading back `w` big-endian bytes of a number below 256^w gives the number |
| Bytes.ToBEFromBE | somedb/src/storable.rs:30-36 | writing back the number read from any bytes gives the same bytes |
| Bytes.U32BERoundTrip | somedb/src/storable.rs:5-10 | the 4-byte length prefix reads back as the length for every length below 2^32 |
| Bytes.AsciiIsUtf8 | somedb/src/storable.rs:49-54 | ASCII text is well-formed UTF-8, so type names encode as `String` |
| Reader.Frame | somedb/src/storable.rs:5-10 | a framed payload is 4 bytes longer than the payload |
| Reader.ByteReader.constructor | src/byte_reader.rs:9-15 | a new reader spans the whole source: `start = 0`, `end = src.len()` |
| Reader.ByteReader.IsAtEnd | src/byte_reader.rs:39-41 | at end exactly when `start == end` |
| Reader.ByteReader.ReadLen | src/byte_reader.rs:30-33 | advances `start` by 4 and returns the big-endian u32 there; fails with `LoadError` when fewer than 4 source bytes are left |
| Reader.ByteReader.ReaderForBlock | src/byte_reader.rs:17-28 | at end, returns a copy and changes nothing; otherwise returns the child `[start+4, start+4+len)` and moves `start` past it, or fails when the source is too short |
| Reader.ByteReader.ReadByteSlice | src/byte_reader.rs:35-37 | returns exactly `src[start..end]`, or fails when that range is not inside the source |
| Reader.TakeBlockProgress | src/byte_reader.rs:21-22 | a successful block take moves `start` forward by at least 4, and the child starts where the length ends: the measure that ends every decode loop |
| Reader.TakeFramed | src/byte_reader.rs:17-33 | on a framed payload, the block take returns a child holding exactly the payload and a parent positioned after it |
| Reader.HoldsSplit | src/byte_reader.rs:17-28 | a reader holding `a + b` has `a` at its start and `b` after it |
| Reader.UncheckedChildEnd | src/byte_reader.rs:21-27 | the child's end is not checked against the parent's: a length of 9 with no payload yields a child ending past the parent and a parent past its own end |
| Storable.IntBytes | somedb/src/storable.rs:30-32 | an integer is written in exactly its type's width |
| Storable.Encoded | somedb/src/storable.rs:5-10 | `encoded` is a 4-byte prefix followed by `inner_encoded` itself |
| Storable.Decode | somedb/src/storable.rs:34-72 | the decoding loop over a reader gives what `Decoded` specifies for its starting view |
| Storable.DecodeItems | somedb/src/storable.rs:66-72 | the `while !reader.is_at_end()` loop takes one block per element until the reader is exhausted, as `DecodedItems` specifies |
| Storable.DecodeFields | somedb-macros/src/lib.rs:49-54 | a derived record takes one block per field in declaration order, as `DecodedFields` specifies |
| Storable.IntRoundTrip | somedb/src/storable.rs:30-36 | decoding the bytes of an in-range integer gives the integer back (two's complement for signed types) |
| Storable.IntFromBytesRoundTrip | somedb/src/storable.rs:34-36 | every byte string of the type's width is the encoding of the integer read from it |
| Storable.IntFromBytesInRange | somedb/src/storable.rs:34-36 | an integer read from bytes of the right width lies in its type's range |
| Storable.EmptyVecEncoded | somedb/src/storable.rs:62-64 | an empty `Vec` encodes as four zero bytes |
| Storable.InnerEncodedParts | somedb/src/storable.rs:62-64 | a `Vec` or record payload is the concatenation of its framed elements or fields, with no count |
| Storable.DecodedInnerEncoded | somedb/src/storable.rs:49-72 | decoding the payload of any well-typed value below 2^32 bytes gives the value back |
| Storable.DecodedItemsEncoded | somedb/src/storable.rs:66-72 | the element loop recovers every remaining element from their framed concatenation |
| Storable.DecodedFieldsEncoded | somedb-macros/src/lib.rs:42-54 | the field sequence recovers every remaining field in order |
| Storable.TakeEncoded | somedb/src/storable.rs:5-10 | taking one block from `encoded(v) + rest` yields the payload of `v` and leaves `rest` |
| Storable.EncodedRoundTrip | somedb/src/storable.rs:5-72 | `decode(encode(v)) == v` through a fresh reader, whatever bytes follow |
| Storable.DecodedHasType | somedb/src/storable.rs:34-72 | whatever decodes successfully is a value of the type asked for: in-range integers, well-formed UTF-8 |
| Storable.DecodedItemsHaveType | somedb/src/storable.rs:66-72 | every decoded element has the element type |
| Storable.DecodedFieldsHaveType | somedb-macros/src/lib.rs:42-54 | a decoded record has one field per declared field, each of its declared type |
| Storable.LeafTypeHash | somedb/src/storable.rs:26-48 | an integer type and `String` digest their type name alone, as `from_str` does |
| Storable.VecTypeHash | somedb/src/storable.rs:58-60 | `Vec<T>` digests `"Vec"`, `"inner"` and the fingerprint of `T`, back to back |
| Storable.OneFieldTypeHash | somedb-macros/src/lib.rs:28-39 | a derived record with one field digests its type name, the field name and the field type's fingerprint, back to back |
| Storable.VecInputCollides | somedb/src/storable.rs:58-60 | as written, `Vec<T>` and a record named `Ve` with the one field `cinner: T` are distinct types with the same fingerprint, whatever the digest |
| Storable.RecordInputCollides | somedb-macros/src/lib.rs:28-39 | as written, the records `path::A { bc: T }` and `path::Ab { c: T }` are distinct types with the same fingerprint, in any module and whatever the digest |
| Meta.MetaTypeHashEmpty | src/entity_meta.rs:16-18 | the container's fingerprint is `new("", [], [])`: the digest of no bytes, the same as `from_str("")`, whatever the entity type |
| TypeHash.OneFieldPreimage | src/type_hash.rs:35-50 | with one field, `new` feeds the digest the type name, the field name and the field fingerprint, back to back |
| TypeHash.New | src/type_hash.rs:35-50 | the `while` loop feeds the digest the type name, then each field name followed by its field type's 20 bytes |
| TypeHash.FromStrIsFieldless | src/type_hash.rs:54-57 | `from_str` is `new` with no fields |
| TypeHash.PreimageCollides | src/type_hash.rs:40-46 | the unframed input collides: type `A` with field `bc` and type `Ab` with field `c` feed the digest the same bytes |
| TypeHash.NewFramed | src/type_hash.rs:35-50 | the corrected loop feeds every name framed by its length |
| TypeHash.FramedPreimageInjective | src/type_hash.rs:35-50 | distinct type descriptions give distinct framed digest inputs |
| TypeHash.GetDec | src/type_hash.rs:15-25 | whatever `get_dec` does not panic on yields a 6-bit digit |
| TypeHash.GetDecGetEnc | src/type_hash.rs:4-25 | the table has 64 entries and `get_dec` inverts it |
| TypeHash.DecEnc | src/type_hash.rs:11-25 | `get_dec(get_enc(d)) == d` for every `d < 64` |
| TypeHash.EncodeChunk3 | src/type_hash.rs:79-81 | a full 3-byte chunk spells four characters |
| TypeHash.EncodeChunk2 | src/type_hash.rs:74-77 | the 2-byte tail spells four characters |
| TypeHash.Encode | src/type_hash.rs:67-85 | a fingerprint spells 28 characters |
| TypeHash.DecodeChunk3 | src/type_hash.rs:99-102 | a full group decodes back to its 3 bytes |
| TypeHash.DecodeChunk2 | src/type_hash.rs:93-97 | a `=`-padded group decodes back to its 2 bytes |
| TypeHash.DecodeEncode | src/type_hash.rs:87-119 | `decode(encode(h)) == h` |
| TypeHash.EncodeInjective | src/type_hash.rs:67-85 | distinct fingerprints get distinct names |
| TypeHash.EncodeAlphabet | src/type_hash.rs:4-81 | every character of a name is in the alphabet, none is `.`, and the last is `=` |
| TypeHash.DecodeRejects | src/type_hash.rs:23 | a name with a character outside the alphabet and `=` does not decode |
| Id.Generate | src/id.rs:26-28 | `generate(x) == x + 1`, or `Overflow` |
| Id.InitialInRange | src/id.rs:30-32 | `initial() == 0` is a value of every id type |
| Id.FirstGenerated | src/lib.rs:22-24 | the first generated id is 1 |
| Id.GenerateStaysInRange | src/id.rs:26-28 | `generate` succeeds exactly below the type's maximum, and then stays in range |
| Id.GenerateIncreasing | src/id.rs:26-28 | `generate` is strictly increasing and above its input, so generated ids are distinct |
| Entity.EntityType.GetId | somedb-macros/src/lib.rs:190-192 | a row's id is a value of the id type |
| Entity.EntityType.SetId | somedb-macros/src/lib.rs:194-196 | setting the id keeps the value a row of the type |
| Entity.GetIdSetId | somedb-macros/src/lib.rs:190-196 | after `set_id(x)`, `get_id()` is `x` and every other field is unchanged |
| Entity.SetIdGetId | somedb-macros/src/lib.rs:190-196 | setting a row's own id changes nothing |
| Meta.Decode | src/entity_meta.rs:28-36 | three block takes: the version, then `last_id`, then the rows; `InvalidFileVersion` on a version mismatch; inner errors propagate |
| Meta.RowsHaveType | src/entity_meta.rs:20-26 | the rows of a valid table form a value of type `Vec<T>` |
| Meta.ContainerRoundTrip | src/entity_meta.rs:20-36 | decoding the encoding of a valid table gives it back |
| Meta.VersionMismatch | src/entity_meta.rs:29-31 | a file whose first block is another version fails with `InvalidFileVersion` |
| Meta.DecodedValid | src/entity_meta.rs:32-35 | whatever decodes is a valid table: the id in range, the rows of the entity type |
| LegacyMeta.LegacyDecode | somedb/src/entity_meta.rs:21-26 | two block takes, `last_id` then the rows, as `LegacyDecoded` specifies |
| LegacyMeta.VersionedIsLegacyWithVersion | src/entity_meta.rs:20-26 | the current encoding is the older one with the framed version in front |
| LegacyMeta.LegacyRoundTrip | somedb/src/entity_meta.rs:14-26 | decoding the older encoding gives the table back |
| Db.SplitJoin | src/db.rs:50 | `split('.')` loses nothing: joining the pieces gives the name, and no piece holds a `.` |
| Db.SplitAt | src/db.rs:50 | a name `a.b` with no `.` in `a` splits as `a` followed by the pieces of `b` |
| Db.ScanName | src/db.rs:48-63 | the corrected scan registers only names of the form `<fingerprint>.sdb` |
| Db.ScanAgrees | src/db.rs:48-63 | the corrected scan decides as the original wherever the original does not panic |
| Db.ReadmePanics | src/db.rs:51 | the original scan panics on a name without `.`, such as `README`; the corrected scan skips it |
| Db.ScanFileName | src/db.rs:50-223 | the name `<encode(h)>.sdb` splits into two pieces, passes the filter and decodes back to `h` |
| Db.StoredTypesAsWritten | src/db.rs:47-64 | the original directory scan fails exactly when some name makes it panic |
| Db.StoredTypes | src/db.rs:47-64 | every registered fingerprint comes from a scanned name |
| Db.OpenWithReadme | src/db.rs:47-64 | a directory with a `README` and a table file cannot be opened as written; the corrected scan registers the table |
| Db.RawRead | src/db.rs:140-147 | the first block of the table file is decoded as the container; a missing file is an I/O error; what is read is a valid table |
| Db.AddType | src/db.rs:201-217 | `add_new_type` registers the fingerprint and creates the table file |
| Db.FirstIndexFrom | src/db.rs:165-169 | finds the first index from a start position with the id, or reports that none has it |
| Db.FirstIndex | src/db.rs:165-169 | finds the first row with the id; none exactly when no row has it |
| Db.FindFirst | src/db.rs:153-155 | `find` gives a row with the id exactly when one exists |
| Db.RemoveId | src/db.rs:186 | `retain` keeps only rows whose id differs, never more rows than before |
| Db.NewRow | src/db.rs:93-95 | with generated ids, the row gets `generate(last_id)`, or `Overflow` at the maximum; with manual ids it is stored as given |
| Db.LastId | src/db.rs:112-115 | `write_all` records the last row's id, or `initial()` for no rows |
| Db.ReadAllOp | src/db.rs:130-138 | `read_all` returns rows of the entity type |
| Db.UnregisteredType | src/db.rs:130-196 | on an unregistered type, `read_all`, `read_all_ids`, `find_by_id`, `update_entity`, `delte_entity_by_id` and `delete_entity_store` return `TypeNotFound` and change nothing |
| Db.ReadTableOverwrite | src/db.rs:122-147 | reading after a write over any old content gives the table written: stale trailing bytes are harmless |
| Db.ReadAfterWrite | src/db.rs:122-147 | `raw_read_all` after `raw_write_all` to an existing file gives the table written |
| Db.EmptyTableValid | src/db.rs:210-213 | the empty table of a new type is valid |
| Db.EnsureRegisteredEmpty | src/db.rs:201-217 | the first `store` of a type registers it with an empty table whose `last_id` is `initial()` |
| Db.EnsureRegisteredKnown | src/db.rs:78-80 | a registered type is left as it is |
| Db.StoreAppends | src/db.rs:75-103 | a successful `store` appends the returned row and records its id as `last_id`; a generated id is `last_id + 1`, a manual row is stored as given |
| Db.StoreDuplicate | src/db.rs:84-91 | with manual ids, a duplicate id is refused with `IdExists` and a registered type's files are untouched |
| Db.GeneratedIdFresh | src/db.rs:93-98 | a generated id is held by no row and is the largest id in the table |
| Db.WriteAllThenRead | src/db.rs:105-120 | `write_all` then `read_all` gives exactly the rows written |
| Db.WriteAllWrites | src/db.rs:105-120 | `write_all` registers the type and leaves the table it writes in the file, with `LastId` as `last_id` |
| Db.StoreGenerates | src/db.rs:93-103 | `store` with generated ids on a registered table below the id type's maximum succeeds with the id `last_id + 1` |
| Db.AppendKeepsIdsBounded | src/db.rs:93-100 | appending a row whose id is above `last_id` and recording that id as `last_id` keeps every id at or below `last_id` |
| Db.StoreKeepsIdsBounded | src/db.rs:75-103 | `store` writes a table that keeps every id at or below `last_id` (`IdsBounded`) when the table read did |
| Db.ReplaceKeepsIdsBounded | src/db.rs:165-171 | replacing a row by one with the same id keeps `IdsBounded` |
| Db.UpdateKeepsIdsBounded | src/db.rs:157-176 | `update_entity` writes a table that keeps `IdsBounded` when the table read did |
| Db.DeleteKeepsIdsBounded | src/db.rs:178-190 | `delte_entity_by_id` writes a table that keeps `IdsBounded` when the table read did |
| Db.AppendKeepsIdsDistinct | src/db.rs:84-100 | appending a row whose id no row has keeps the ids distinct (`IdsDistinct`) |
| Db.StoreKeepsIdsDistinct | src/db.rs:75-103 | `store` writes a table whose ids are distinct when the table read had distinct ids and, with generated ids, kept `IdsBounded` |
| Db.ReplaceKeepsIdsDistinct | src/db.rs:165-171 | replacing a row by one with the same id keeps the ids distinct |
| Db.UpdateKeepsIdsDistinct | src/db.rs:157-176 | `update_entity` writes a table whose ids are distinct when the table read had distinct ids |
| Db.RemoveIdKeepsDistinct | src/db.rs:186 | `retain` keeps distinct ids distinct |
| Db.DeleteKeepsIdsDistinct | src/db.rs:178-190 | `delte_entity_by_id` writes a table whose ids are distinct when the table read had distinct ids |
| Db.FindAppended | src/db.rs:153-155 | `find` on rows with a row appended whose id is new gives that row |
| Db.StoreThenFind | src/db.rs:75-155 | `find_by_id` with the id of the row `store` returned gives that row, when the table kept `IdsBounded` and the new table fits the length prefix |
| Db.IdsAppend | src/db.rs:149-151 | the ids of rows with one appended are their ids with its id appended |
| Db.StoreThenReadIds | src/db.rs:75-151 | after a successful `store`, `read_all_ids` gives the earlier ids followed by the new row's id |
| Db.AppendRepeatsId | src/db.rs:84-100 | appending a row with the id of a row already there breaks `IdsDistinct` |
| Db.LastIdNotBounded | src/db.rs:112-115 | as written, `write_all` of rows `[a, b]` with `a`'s id above `b`'s records `b`'s id, and the table breaks `IdsBounded` |
| Db.WriteAllThenStoreRepeatsId | src/db.rs:75-120 | as written, after `write_all([a, b])` with `a`'s id one above `b`'s, the next `store` with generated ids succeeds and gives the new row `a`'s id again, so the table it writes breaks `IdsDistinct` |
| Db.MaxId | src/db.rs:112-115 | the corrected `last_id` is a value of the id type, at least every row's id, and either `initial()` or the id of some row |
| Db.WriteAllMaxIdBounded | src/db.rs:105-120 | `write_all` with the corrected `last_id` writes a table that keeps `IdsBounded` whatever the rows' order, and `read_all` gives the rows back |
| Db.MaxIdOfAscending | src/db.rs:112-115 | on rows whose ids ascend from `initial()` on, as `store` leaves them, the corrected and the original `last_id` agree |
| Db.UpdateMissing | src/db.rs:164-169 | `update_entity` with no row of that id is `IdNotFound` and changes nothing |
| Db.UpdateReplacesFirst | src/db.rs:157-176 | `update_entity` is the write of the table with the first row holding the id replaced and only it, and keeps the length and `last_id` |
| Db.UpdateReadsBack | src/db.rs:157-176 | after `update_entity`, reading the type back gives the updated table, when it fits the 4-byte length prefix |
| Db.RemoveIdAppend | src/db.rs:186 | `retain` distributes over concatenation, so the kept rows keep their order |
| Db.RemoveIdMembers | src/db.rs:186 | a row is kept exactly when it was there and its id differs |
| Db.RemoveIdAbsent | src/db.rs:186 | removing an absent id changes nothing |
| Db.DeleteRemovesAll | src/db.rs:178-190 | `delte_entity_by_id` drops every row with the id, keeps `last_id`, and succeeds when the id is absent |
| Db.FindByIdFirst | src/db.rs:153-155 | `find_by_id` gives the first row with the id, or `None` when no row has it |
| Db.DeleteStoreUnregisters | src/db.rs:192-199 | `delete_entity_store` unregisters the type and removes its file; `read_all` then reports `TypeNotFound` |
| Db.OperationsKeepConsistent | src/db.rs:75-217 | every operation keeps each registered type's table file in place |
| Db.DeleteStoreKeeps | src/db.rs:192-199 | removing a store keeps the other registered types' files |
| Db.AnyId | src/db.rs:84-89 | the `any` loop answers whether some row has the id |
| Db.FindIndex | src/db.rs:165-169 | the `iter_mut().find` loop stops at the first row with the id |
| Db.Retain | src/db.rs:186 | the `retain` loop keeps exactly the rows `RemoveId` keeps |
| Db.Database.Open | src/db.rs:40-73 | clears the directory on request and registers the fingerprints of the table files found, with the corrected scan `ScanName`: a directory entry such as `README`, which makes `Database::new` panic, is skipped |
| Db.Database.RawReadAll | src/db.rs:140-147 | reads the table as `RawRead` specifies |
| Db.Database.RawWriteAll | src/db.rs:122-128 | writes the table as `RawWrite` specifies |
| Db.Database.AddNewType | src/db.rs:201-217 | changes the state as `AddType` specifies |
| Db.Database.Store | src/db.rs:75-103 | result and new state as `StoreOp` specifies |
| Db.Database.WriteAll | src/db.rs:105-120 | result and new state as `WriteAllOp` specifies |
| Db.Database.ReadAll | src/db.rs:130-138 | result as `ReadAllOp` specifies |
| Db.Database.ReadAllIds | src/db.rs:149-151 | result as `ReadAllIdsOp` specifies |
| Db.Database.FindById | src/db.rs:153-155 | result as `FindByIdOp` specifies |
| Db.Database.UpdateEntity | src/db.rs:157-176 | result and new state as `UpdateEntityOp` specifies |
| Db.Database.DeleteById | src/db.rs:178-190 | result and new state as `DeleteByIdOp` specifies |
| Db.Database.DeleteStore | src/db.rs:192-199 | result and new state as `DeleteStoreOp` specifies |
| Query.FilterRows | src/query.rs:124-131 | keeps exactly the rows satisfying the predicate, never more rows than before |
| Query.MapRows | src/query.rs:157-159 | applies the transform to every row, position by position |
| Query.FilterRowsAppend | src/query.rs:124-131 | filtering keeps the rows' order |
| Query.MapRowsAppend | src/query.rs:157-159 | mapping keeps the rows' order |
| Query.RunAppend | src/query.rs:74-86 | a pipeline of adapters treats the rows one at a time, in order |
| Query.RunEmpty | src/query.rs:124-159 | an exhausted source yields nothing through any pipeline |
| Query.FilterThenMap | src/query.rs:74-86 | `filter` then `map` yields the mapped rows that pass the predicate |
| Query.FilterThenMapMembers | examples/save_query.rs:22-46 | after `filter` then `map`, filtered-out rows are gone and kept rows appear in mapped form |
| Query.DbQuery.constructor | src/query.rs:13-18 | a query starts at index 0 over its snapshot |
| Query.DbQuery.Next | src/query.rs:23-29 | yields the next stored row and advances, or `None` at the end without moving |
| Query.NewQuery | src/query.rs:13-18 | `DbQuery::new` takes one snapshot of the table, or passes the read error on |
| Query.DbQueryMut.constructor | src/query.rs:39-45 | a mutable query starts at index 0 with no adapters, every row pending |
| Query.DbQueryMut.NextAt | src/query.rs:50-56 | yields the head of what the first `k` adapters leave pending and removes it |
| Query.DbQueryMut.NextFiltered | src/query.rs:124-131 | the filter loop skips failing rows and yields the first passing one, or `None` once the inner pipeline is dry |
| Query.DbQueryMut.NextMapped | src/query.rs:157-159 | yields the transform of the inner pipeline's next row, or `None` |
| Query.DbQueryMut.Next | src/query.rs:50-159 | yields the head of the pending rows and removes it |
| Query.DbQueryMut.Filter | src/query.rs:74-79 | after `filter`, the pending rows are the old ones that pass |
| Query.DbQueryMut.Map | src/query.rs:81-86 | after `map`, the pending rows are the old ones transformed |
| Query.DbQueryMut.CollectVec | src/query.rs:88-94 | drains the pipeline into a list of every pending row in order |
| Query.DbQueryMut.SaveToDb | src/query.rs:96-106 | writes the drained rows with the snapshot's `last_id`, as `raw_write_all` does |
| Query.NewQueryMut | src/query.rs:39-45 | `DbQueryMut::new` takes one snapshot of the table, or passes the read error on |
| GenQuery.OpType | src/gen_query.rs:92-195 | every operator but `\|\|` needs operands of one type |
| GenQuery.ApplyInt | src/gen_query.rs:159-195 | an integer operator yields a value of its operand type, in range, or panics |
| GenQuery.Apply | src/gen_query.rs:92-195 | an operator yields a value of its output type |
| GenQuery.Eval | src/gen_query.rs:71-248 | a well-typed expression evaluates to a value of its type, or panics |
| GenQuery.WrapInRange | src/gen_query.rs:194 | `<<` keeps the low bits and yields a value of the type |
| GenQuery.WrapKeepsInRange | src/gen_query.rs:194 | wrapping a value of the type keeps it |
| GenQuery.TRemBounds | src/gen_query.rs:192-193 | integer `/` and `%` recompose the dividend; the remainder is smaller than the divisor and takes the dividend's sign |
| GenQuery.ShrInRange | src/gen_query.rs:195 | `>>` keeps a value in its type |
| GenQuery.OrBitsLaws | src/gen_query.rs:140-154 | bitwise or is commutative and idempotent, with 0 as its unit |
| GenQuery.BitOrLaws | src/gen_query.rs:140-154 | `a \| b == b \| a`, `a \| a == a` and `a \| 0 == a` on every integer type |
| GenQuery.EqExprIsEqOp | src/gen_query.rs:202-225 | `EqExpr` evaluates as a binary node with `EqOp` |
| GenQuery.LiteralIgnoresRow | src/gen_query.rs:243-248 | a literal evaluates to itself whatever the row |
| GenQuery.AttributesResolve | src/gen_query.rs:256-280 | `e.id()` is the row's `id` and `e.foo()` its `foo` |
| GenQuery.FooEqText | src/gen_query.rs:262-266 | `e.foo().eq("text")` holds exactly for rows whose `foo` is that text |
| GenQuery.DivRemAgree | src/gen_query.rs:192-193 | when `%` succeeds so does `/`, and they recompose the dividend; both panic on a zero divisor |
| GenQuery.EqSelf | src/gen_query.rs:92-105 | an expression that evaluates equals itself |
| GenQuery.LOrShortCircuits | src/gen_query.rs:118-129 | `\|\|` with a true left side is true even if the right side would panic; with a false left side the right side decides |
| GenQuery.AddChecked | src/gen_query.rs:189 | `+` gives the sum exactly when it fits, and panics otherwise |
| GenQuery.CountTrue | src/gen_query.rs:292-296 | the hit count never exceeds the number of rows |
| GenQuery.Tally | src/gen_query.rs:295 | one step of `sum += res as i32` adds 0 or 1 and stays within `i32` |
| GenQuery.CountTrueStep | src/gen_query.rs:293-296 | the count over one more row is one more step of the loop |
| GenQuery.CountTruePanics | src/gen_query.rs:293-296 | a panic on any row panics the whole run |
| GenQuery.Filter | src/gen_query.rs:284-306 | `filter` evaluates the query once per row in order, without changing `db.data`, and counts the hits as `CountTrue` specifies |
| GenQuery.IdEqIdCountsAll | src/gen_query.rs:318-328 | the test's query `e.id().eq(e.id())` holds for every row |

## Left out

- The lock protocol is not modelled: `RLock`, `WLock`, the lock marker files, `DB_CNT` and the sleeping in src/db.rs:239-348. Reads and writes happen directly on the state. Concurrent access is outside the model.
- File system failures are not modelled. Only a missing table file is an I/O error. Failures of `read_dir`, `create_dir_all` and `open` on other grounds, partial writes and `IoError` payloads are left out.
- Directory entries whose names are not valid UTF-8 are not modelled. They are skipped in src/db.rs:49, and file names here are strings.
- The SHA-1 routine of src/sha.rs is not part of this model. It enters as the `digest` parameter, a function of the concatenation of the bytes fed. src/sha.rs behaves as such a function only while everything fed stays inside its first 64-byte block. An `update` that crosses the block boundary starts its copy loop again from the first byte of the data (src/sha.rs:62-73), and one of 64 bytes or more panics: its second pass asks `copy_to_buff` (src/sha.rs:192-197) for a copy whose start lies above its end, and the length subtraction underflows. Fingerprints whose input is longer than 64 bytes, such as a record with a long path and several fields, are therefore not those the source computes. The fingerprints of short inputs are: an integer type's name, `"String"`, and the 28 bytes `Vec` of such a type feeds the digest.
- The procedural macros of somedb-macros/src/lib.rs are not modelled as code. What they emit is written by hand: the field-order record codec, `get_id`/`set_id` and the id policy flag.
- `Storable.TypeHashOf`, `TypeHash.FromStr`, `Meta.MetaTypeHash` and `Query.DbQueryMut.GetLastId` compute values and have no contract of their own. What `TypeHashOf` and `MetaTypeHash` feed the digest is stated by `Storable.LeafTypeHash`, `Storable.VecTypeHash`, `Storable.OneFieldTypeHash` and `Meta.MetaTypeHashEmpty`.
- `GenQuery.Checked`, `TypeHash.Digits`, `Db.Overwrite` and `Db.Ids` are definitions. Their contracts only spell out their bodies. Their meaning is proved in `GenQuery.AddChecked`, `TypeHash.DecodeChunk3` and `TypeHash.DecodeRejects`, `Db.ReadTableOverwrite`, and `Db.StoreThenReadIds`.
- Literals of `gen_query.rs` are integers, `bool` and `&str` here. In the source any `Copy` type is a literal (src/gen_query.rs:243-248). That includes `f32` and `f64`, whose equality makes `NAN` unequal to itself, `char` and tuples. Floating point, `char` and tuple literals are not modelled.
- `Query.DbQueryMut.SaveToDb` writes the snapshot's `last_id` whatever `map` did to the ids. A `map` that raises an id above `last_id` breaks `Db.IdsBounded` as `write_all` does (see "Findings"). No lemma states this.
- The timing and printing in `filter` (src/gen_query.rs:290-303) are left out. The model returns the `sum` it prints.
- `ExprEntity`'s `PhantomData` and the generic structs of `gen_query.rs` are not modelled as types. They are one expression tree with a type checker, `TypeOf`.
- `NeqOp`, `AndOp`, `XorOp` and the ordering operators are left out because the source gives them no `exec`.
- The macro crate's `AttrExpr::new(name)` and `resolve(field_name, row_id, db)` are not modelled. `src/gen_query.rs` is modelled as written.
- `usize` and `isize` are 8 bytes wide here, as on 64-bit targets.
- Arithmetic follows debug builds: overflow, division by zero and over-wide shifts panic. Release builds would wrap instead.
- Closures passed to `filter` and `map` are pure Dafny functions. An `FnMut` closure that keeps state between calls is not modelled.
- `DbFilter` and `DbMap` are not separate structs. A `DbQueryMut` carries the list of adapters applied to it, and `NextAt` walks that list as the nested `next` calls do.
- The standard `Iterator` adapters that `DbQuery` gets from implementing `Iterator` are not modelled, only `next` itself.
- The loops `any`, `iter_mut().find` and `retain` of the standard library are written as `while` loops over the rows. `Retain` builds a new sequence where the source edits the vector in place.
- `Db.Database.Open`: no invariant ties the registry to the directory after opening. A name such as `<fingerprint>.sdb` that `decode` accepts in a non-canonical spelling (padding bits set) registers a fingerprint whose table file has a different name.
- `Db.OperationsKeepConsistent` is stated for the pure operations. The class does not carry the invariant, because `Open` does not establish it (see the line above).
- `Db.RawRead`: an `encoded` payload of 2^32 bytes or more, whose length the source truncates to `u32`, is excluded from the round-trip lemmas by their `Fits` premise rather than modelled.
- The error variant `Overflow` is not in the source's `DbError`. It stands for the panic of `last_id + 1` at the id type's maximum.
- src/main.rs, src/lib.rs, examples/* and parrwtest/src/main.rs are demos and a prototype. They are used only as scenarios, for example in `Id.FirstGenerated`, `Db.StoreAppends`, `Db.DeleteRemovesAll` and `Query.FilterThenMapMembers`.

## Findings

| source | as written | input that shows it | evidently intended | confidence | as-written member | corrected member |
|---|---|---|---|---|---|---|
| src/type_hash.rs:40-46 | the type name, field names and field fingerprints are fed to the digest back to back, with no separator or length | type `A` with field `bc`, and type `Ab` with field `c`, of the same field type, get the same fingerprint | distinct schemas get distinct fingerprints | not executed | TypeHash.PreimageCollides | TypeHash.FramedPreimageInjective |
| src/db.rs:112-115 | `write_all` records the id of the last row given as `last_id`, not the largest | `write_all` of a row with id 3 followed by a row with id 2 records `last_id = 2`; the next `store` with generated ids gives its row the id 3 a second time | `last_id` is at least every stored id, so that generated ids are fresh | not executed | Db.WriteAllThenStoreRepeatsId | Db.WriteAllMaxIdBounded |
| src/db.rs:51 | `parts.len() > 2 \|\| parts[1] != "sdb"` indexes `parts[1]` when the name has no `.`, and `TypeHash::decode` panics on a first piece that is not a fingerprint | a directory holding a file `README` makes `Database::new` panic | names not of the form `<fingerprint>.sdb` are skipped | not executed | Db.ReadmePanics | Db.OpenWithReadme |

Where the corrected definition would change what the database writes, the model keeps the source's behaviour and proves the correction beside it.
- `Storable.TypeHashOf` feeds the digest the unframed input, because the fingerprint names the table files the source reads and writes.
- `Db.Database.WriteAll` records `LastId`.
- `Db.Database.Open` uses the corrected scan, because the original one panics.
