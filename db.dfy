/** The database of src/db.rs: a directory of table files, one per
    registered entity type, named after the type's fingerprint, and the
    whole-table operations on them. The directory is a map from file name to
    file contents; lock files and the lock protocol are not modelled. */
module Db {
  import opened Bytes
  import opened Seqs
  import opened DbErrors
  import opened Reader
  import opened Storable
  import opened Entity
  import opened Meta
  import Id
  import TypeHash

  type Hash = TypeHash.Hash

  // ---------------------------------------------------------------------
  // File names

  /** `str::split(sep)`: the pieces between separators, an empty piece
      wherever two separators meet or one sits at an end. */
  function Split(s: string, sep: char): (r: seq<string>)
    ensures |r| >= 1
    decreases |s|
  {
    if s == [] then [[]]
    else
      var rest := Split(s[1..], sep);
      if s[0] == sep then [[]] + rest
      else [[s[0]] + rest[0]] + rest[1..]
  }

  /** The pieces glued back together with the separator. */
  function Join(parts: seq<string>, sep: char): string
    requires |parts| >= 1
    decreases |parts|
  {
    if |parts| == 1 then parts[0] else parts[0] + [sep] + Join(parts[1..], sep)
  }

  /** Splitting loses nothing: the pieces hold no separator and join back
      into the string. */
  lemma SplitJoin(s: string, sep: char)
    ensures Join(Split(s, sep), sep) == s
    ensures forall i, j | 0 <= i < |Split(s, sep)| && 0 <= j < |Split(s, sep)[i]| :: Split(s, sep)[i][j] != sep
  {
    JoinSplit(s, sep);
    SplitPiecesFree(s, sep);
  }

  lemma {:induction false} JoinSplit(s: string, sep: char)
    ensures Join(Split(s, sep), sep) == s
    decreases |s|
  {
    if s != [] {
      var rest := Split(s[1..], sep);
      JoinSplit(s[1..], sep);
      var r := Split(s, sep);
      HeadTail(s);
      if s[0] == sep {
        assert r[1..] == rest;
        assert s == [] + [sep] + s[1..];
      } else {
        assert r[0] == [s[0]] + rest[0];
        if |rest| > 1 {
          assert r[1..] == rest[1..];
          assert Join(rest, sep) == rest[0] + [sep] + Join(rest[1..], sep);
        }
      }
    }
  }

  lemma {:induction false} SplitPiecesFree(s: string, sep: char)
    ensures forall i, j | 0 <= i < |Split(s, sep)| && 0 <= j < |Split(s, sep)[i]| :: Split(s, sep)[i][j] != sep
    decreases |s|
  {
    if s != [] {
      var rest := Split(s[1..], sep);
      SplitPiecesFree(s[1..], sep);
      var r := Split(s, sep);
      if s[0] == sep {
        forall i, j | 0 <= i < |r| && 0 <= j < |r[i]|
          ensures r[i][j] != sep
        {
          assert i > 0 && r[i] == rest[i - 1];
        }
      } else {
        assert r[0] == [s[0]] + rest[0];
        forall i, j | 0 <= i < |r| && 0 <= j < |r[i]|
          ensures r[i][j] != sep
        {
          if i == 0 {
            if j > 0 {
              assert r[0][j] == rest[0][j - 1];
            }
          } else {
            assert r[i] == rest[i];
          }
        }
      }
    }
  }

  /** A string without the separator is one piece. */
  lemma {:induction false} SplitNoSep(s: string, sep: char)
    requires forall i | 0 <= i < |s| :: s[i] != sep
    ensures Split(s, sep) == [s]
    decreases |s|
  {
    if s != [] {
      SplitNoSep(s[1..], sep);
      assert [s[0]] + s[1..] == s;
    }
  }

  /** A separator after a separator-free head cuts off exactly that head. */
  lemma {:induction false} SplitAt(a: string, sep: char, b: string)
    requires forall i | 0 <= i < |a| :: a[i] != sep
    ensures Split(a + [sep] + b, sep) == [a] + Split(b, sep)
    decreases |a|
  {
    var s := a + [sep] + b;
    if a == [] {
      assert s[1..] == b;
    } else {
      assert s[1..] == a[1..] + [sep] + b;
      SplitAt(a[1..], sep, b);
      assert [a[0]] + a[1..] == a;
    }
  }

  /** `type_hash_file_path`: the fingerprint's name with the `.sdb` extension. */
  function FileName(h: Hash): string {
    TypeHash.Encode(h) + ".sdb"
  }

  /** What the directory scan in `Database::new` does with one file name, as
      written: more than two pieces is skipped; a name with no `.` has no
      second piece, and indexing it panics; a second piece other than `sdb`
      is skipped; the first piece is then decoded, and `decode` panics on a
      name that is no fingerprint. */
  datatype Scan = Skip | Register(h: Hash) | Panic

  function ScanNameAsWritten(name: string): Scan {
    var parts := Split(name, '.');
    if |parts| > 2 then Skip
    else if |parts| < 2 then Panic
    else if parts[1] != "sdb" then Skip
    else match TypeHash.Decode(parts[0])
      case None => Panic
      case Some(h) => Register(h)
  }

  /** The scan as evidently intended: a name registers a fingerprint exactly
      when it has the form `<fingerprint>.sdb`; every other name is skipped. */
  function ScanName(name: string): (r: Option<Hash>)
    ensures r.Some? ==> |Split(name, '.')| == 2 && Split(name, '.')[1] == "sdb"
  {
    var parts := Split(name, '.');
    if |parts| != 2 || parts[1] != "sdb" then None
    else TypeHash.Decode(parts[0])
  }

  /** The corrected scan decides as the original wherever the original does
      not panic. */
  lemma ScanAgrees(name: string)
    ensures ScanNameAsWritten(name) != Panic ==>
      ScanName(name) == (if ScanNameAsWritten(name).Register? then Some(ScanNameAsWritten(name).h) else None)
    ensures ScanNameAsWritten(name) == Panic ==> ScanName(name) == None
  {
  }

  /** A file with no extension, such as `README`, makes the original scan
      panic, and with it `Database::new`; the corrected scan skips it. */
  lemma ReadmePanics()
    ensures ScanNameAsWritten("README") == Panic
    ensures ScanName("README") == None
  {
    SplitNoSep("README", '.');
  }

  /** Every table file name the database writes is read back by the scan as
      the fingerprint it was made from. */
  lemma {:induction false} ScanFileName(h: Hash)
    ensures Split(FileName(h), '.') == [TypeHash.Encode(h), "sdb"]
    ensures ScanName(FileName(h)) == Some(h)
    ensures ScanNameAsWritten(FileName(h)) == Register(h)
  {
    var e := TypeHash.Encode(h);
    TypeHash.EncodeAlphabet(h);
    assert FileName(h) == e + ['.'] + "sdb";
    SplitAt(e, '.', "sdb");
    SplitNoSep("sdb", '.');
    TypeHash.DecodeEncode(h);
  }

  /** The fingerprints the original scan registers from a directory listing,
      or `None` when one of the names makes it panic. */
  function StoredTypesAsWritten(names: set<string>): (r: Option<set<Hash>>)
    ensures r.None? <==> exists name | name in names :: ScanNameAsWritten(name) == Panic
  {
    if exists name | name in names :: ScanNameAsWritten(name) == Panic then None
    else Some(set name | name in names && ScanNameAsWritten(name).Register? :: ScanNameAsWritten(name).h)
  }

  /** The fingerprints the corrected scan registers. */
  function StoredTypes(names: set<string>): (r: set<Hash>)
    ensures forall h | h in r :: exists name | name in names :: ScanName(name) == Some(h)
  {
    set name | name in names && ScanName(name).Some? :: ScanName(name).value
  }

  /** A directory holding a `README` cannot be opened by the original scan;
      the corrected one still registers every table file in it. */
  lemma OpenWithReadme(names: set<string>, h: Hash)
    requires "README" in names && FileName(h) in names
    ensures StoredTypesAsWritten(names) == None
    ensures h in StoredTypes(names)
  {
    ReadmePanics();
    ScanFileName(h);
  }

  // ---------------------------------------------------------------------
  // The directory and its table files

  /** The files of the database directory and the registry `stored_types`. */
  datatype DbState = DbState(files: map<string, seq<byte>>, storedTypes: set<Hash>)

  /** Every registered type has its table file. */
  predicate Consistent(s: DbState) {
    forall h | h in s.storedTypes :: FileName(h) in s.files
  }

  /** `File::write` on a file opened without truncation: the new bytes replace
      the start of the file and any longer old tail stays behind them. */
  function Overwrite(prev: seq<byte>, data: seq<byte>): (r: seq<byte>)
    ensures |r| == if |data| >= |prev| then |data| else |prev|
    ensures r[..|data|] == data
    ensures r[|data|..] == if |data| >= |prev| then [] else prev[|data|..]
  {
    if |data| >= |prev| then data else data + prev[|data|..]
  }

  /** `raw_read_all` on the bytes of a table file: the first framed block of
      the file is the container; anything after it is ignored. */
  function ReadTable(version: seq<byte>, et: EntityType, file: seq<byte>): Result<EntityMeta>
    requires et.Valid()
  {
    var p :- Cursor(file, 0, |file|).TakeBlock();
    Meta.Decoded(version, et, p.0)
  }

  /** `raw_read_all`: opening a missing file is an I/O error. */
  function RawRead(version: seq<byte>, et: EntityType, s: DbState, h: Hash): (r: Result<EntityMeta>)
    requires et.Valid()
    ensures r.Ok? ==> Valid(et, r.value)
  {
    var name := FileName(h);
    if name !in s.files then Err(IoError)
    else
      var file := s.files[name];
      match Cursor(file, 0, |file|).TakeBlock()
      case Err(e) => Err(e)
      case Ok(p) =>
        var r := Meta.Decoded(version, et, p.0);
        if r.Ok? then DecodedValid(version, et, p.0); r else r
  }

  /** `raw_write_all`: the encoded container over the start of the table
      file, which must exist (the write lock opens it without creating it). */
  function RawWrite(version: seq<byte>, et: EntityType, s: DbState, h: Hash, m: EntityMeta): (Result<()>, DbState)
    requires et.Valid()
  {
    var name := FileName(h);
    if name !in s.files then (Err(IoError), s)
    else (Ok(()), s.(files := s.files[name := Overwrite(s.files[name], FileBytes(version, et, m))]))
  }

  /** The empty table of a new type. */
  function EmptyTable(): EntityMeta {
    EntityMeta(Id.Initial(), [])
  }

  /** `add_new_type`: create the file if it is missing (an existing file is
      kept, not truncated), write the empty table over its start, register
      the fingerprint. */
  function AddType(version: seq<byte>, et: EntityType, s: DbState, h: Hash): (r: DbState)
    requires et.Valid()
    ensures r.storedTypes == s.storedTypes + {h}
    ensures r.files.Keys == s.files.Keys + {FileName(h)}
  {
    var name := FileName(h);
    var created := if name in s.files then s.files else s.files[name := []];
    DbState(created[name := Overwrite(created[name], FileBytes(version, et, EmptyTable()))], s.storedTypes + {h})
  }

  /** The `if !contains_key { add_new_type }` that `store` and `write_all`
      start with. */
  function EnsureRegistered(version: seq<byte>, et: EntityType, s: DbState, h: Hash): DbState
    requires et.Valid()
  {
    if h in s.storedTypes then s else AddType(version, et, s, h)
  }

  // ---------------------------------------------------------------------
  // Rows

  /** Some row has id `id` (`iter().any(|e| e.get_id() == id)`). */
  predicate HasId(et: EntityType, rows: seq<Value>, id: int)
    requires et.AreRows(rows)
  {
    exists i | 0 <= i < |rows| :: et.GetId(rows[i]) == id
  }

  /** The position of the first row from `from` on whose id is `id`. */
  function FirstIndexFrom(et: EntityType, rows: seq<Value>, id: int, from: nat): (r: Option<nat>)
    requires et.AreRows(rows)
    ensures r.Some? ==> (from <= r.value < |rows| && et.GetId(rows[r.value]) == id
      && forall j | from <= j < r.value :: et.GetId(rows[j]) != id)
    ensures r.None? <==> forall j | from <= j < |rows| :: et.GetId(rows[j]) != id
    decreases |rows| - from
  {
    if from >= |rows| then None
    else if et.GetId(rows[from]) == id then Some(from)
    else FirstIndexFrom(et, rows, id, from + 1)
  }

  /** The position of the first row whose id is `id`, if any. */
  function FirstIndex(et: EntityType, rows: seq<Value>, id: int): (r: Option<nat>)
    requires et.AreRows(rows)
    ensures r.None? <==> !HasId(et, rows, id)
    ensures r.Some? ==> (r.value < |rows| && et.GetId(rows[r.value]) == id
      && forall j | 0 <= j < r.value :: et.GetId(rows[j]) != id)
  {
    FirstIndexFrom(et, rows, id, 0)
  }

  /** `into_iter().find(|e| e.get_id() == id)`. */
  function FindFirst(et: EntityType, rows: seq<Value>, id: int): (r: Option<Value>)
    requires et.AreRows(rows)
    ensures r.None? <==> !HasId(et, rows, id)
    ensures r.Some? ==> r.value in rows && et.GetId(r.value) == id
  {
    match FirstIndex(et, rows, id)
    case None => None
    case Some(i) => Some(rows[i])
  }

  /** `retain(|e| e.get_id() != id)`: the rows whose id differs, in order. */
  function RemoveId(et: EntityType, rows: seq<Value>, id: int): (r: seq<Value>)
    requires et.AreRows(rows)
    ensures et.AreRows(r) && |r| <= |rows|
    ensures forall i | 0 <= i < |r| :: et.GetId(r[i]) != id
    decreases |rows|
  {
    if rows == [] then []
    else
      var last := rows[|rows| - 1];
      RemoveId(et, rows[..|rows| - 1], id) + (if et.GetId(last) != id then [last] else [])
  }

  /** `map(|e| e.get_id()).collect()`. */
  function Ids(et: EntityType, rows: seq<Value>): (r: seq<int>)
    requires et.AreRows(rows)
    ensures |r| == |rows|
    ensures forall i | 0 <= i < |rows| :: r[i] == et.GetId(rows[i])
  {
    seq(|rows|, i requires 0 <= i < |rows| => et.GetId(rows[i]))
  }

  // ---------------------------------------------------------------------
  // The operations, on the directory state. `h` is the entity type's
  // fingerprint, which names its table file.

  /** The row `store` appends: with generated ids, `data` with its id set to
      `generate(last_id)`; with manual ids, `data` itself. */
  function NewRow(et: EntityType, last: int, data: Value): (r: Result<Value>)
    requires et.IsRow(data) && et.IdKind().InRange(last)
    ensures r.Ok? ==> et.IsRow(r.value)
    ensures !et.generateId ==> r == Ok(data)
    ensures et.generateId ==> (r.Ok? <==> last != et.IdKind().Max())
    ensures et.generateId && r.Ok? ==> et.GetId(r.value) == last + 1
    ensures et.generateId && r.Err? ==> r.error == Overflow
  {
    if et.generateId then
      Id.GenerateStaysInRange(et.IdKind(), last);
      var id :- Id.Generate(et.IdKind(), last);
      GetIdSetId(et, data, id);
      Ok(et.SetId(data, id))
    else Ok(data)
  }

  /** `store`. */
  function StoreOp(version: seq<byte>, et: EntityType, h: Hash, s: DbState, data: Value): (r: (Result<Value>, DbState))
    requires et.IsRow(data)
    ensures r.0.Ok? ==> et.IsRow(r.0.value)
  {
    var s1 := EnsureRegistered(version, et, s, h);
    match RawRead(version, et, s1, h)
    case Err(e) => (Err(e), s1)
    case Ok(existing) =>
      if !et.generateId && HasId(et, existing.entities, et.GetId(data)) then (Err(IdExists), s1)
      else
        match NewRow(et, existing.lastId, data)
        case Err(e) => (Err(e), s1)
        case Ok(row) =>
          var w := RawWrite(version, et, s1, h, EntityMeta(et.GetId(row), existing.entities + [row]));
          (match w.0 case Ok(_) => Ok(row) case Err(e) => Err(e), w.1)
  }

  /** The `last_id` `write_all` records: the last row's id, or `initial()`
      for no rows. */
  function LastId(et: EntityType, rows: seq<Value>): (r: int)
    requires et.Valid() && et.AreRows(rows)
    ensures et.IdKind().InRange(r)
    ensures rows != [] ==> r == et.GetId(rows[|rows| - 1])
    ensures rows == [] ==> r == Id.Initial()
  {
    Id.InitialInRange(et.IdKind());
    if rows == [] then Id.Initial() else et.GetId(rows[|rows| - 1])
  }

  /** The `last_id` `write_all` evidently means to record: the largest id
      of the rows, or `initial()` when no row's id is larger. */
  function MaxId(et: EntityType, rows: seq<Value>): (r: int)
    requires et.Valid() && et.AreRows(rows)
    ensures et.IdKind().InRange(r)
    ensures forall i | 0 <= i < |rows| :: et.GetId(rows[i]) <= r
    ensures r == Id.Initial() || HasId(et, rows, r)
    decreases |rows|
  {
    Id.InitialInRange(et.IdKind());
    if rows == [] then Id.Initial()
    else
      var init := rows[..|rows| - 1];
      assert forall i | 0 <= i < |init| :: init[i] == rows[i];
      var m := MaxId(et, init);
      var last := et.GetId(rows[|rows| - 1]);
      var top := if last > m then last else m;
      HasIdSnoc(et, rows, top);
      top
  }

  /** An id of the rows but the last, or of the last row, is an id of the rows. */
  lemma HasIdSnoc(et: EntityType, rows: seq<Value>, id: int)
    requires et.AreRows(rows) && rows != []
    ensures et.AreRows(rows[..|rows| - 1])
    ensures HasId(et, rows[..|rows| - 1], id) ==> HasId(et, rows, id)
    ensures et.GetId(rows[|rows| - 1]) == id ==> HasId(et, rows, id)
  {
    var init := rows[..|rows| - 1];
    assert forall i | 0 <= i < |init| :: init[i] == rows[i];
    if HasId(et, init, id) {
      var i :| 0 <= i < |init| && et.GetId(init[i]) == id;
      assert et.GetId(rows[i]) == id;
    }
  }

  /** With generated ids, no row's id is above `last_id`; this is what makes
      the id `store` generates next one that no row has (GeneratedIdFresh). */
  predicate IdsBounded(et: EntityType, m: EntityMeta)
    requires et.AreRows(m.entities)
  {
    et.generateId ==> forall i | 0 <= i < |m.entities| :: et.GetId(m.entities[i]) <= m.lastId
  }

  /** No two of the rows share an id. */
  predicate DistinctIds(et: EntityType, rows: seq<Value>)
    requires et.AreRows(rows)
  {
    forall i, j | 0 <= i < j < |rows| :: et.GetId(rows[i]) != et.GetId(rows[j])
  }

  /** No two rows of the table share an id: what makes `find_by_id` and
      `update_entity` address one row. */
  predicate IdsDistinct(et: EntityType, m: EntityMeta)
    requires et.AreRows(m.entities)
  {
    DistinctIds(et, m.entities)
  }

  /** `write_all`. */
  function WriteAllOp(version: seq<byte>, et: EntityType, h: Hash, s: DbState, rows: seq<Value>): (Result<()>, DbState)
    requires et.Valid() && et.AreRows(rows)
  {
    RawWrite(version, et, EnsureRegistered(version, et, s, h), h, EntityMeta(LastId(et, rows), rows))
  }

  /** `read_all`. */
  function ReadAllOp(version: seq<byte>, et: EntityType, h: Hash, s: DbState): (r: Result<seq<Value>>)
    requires et.Valid()
    ensures r.Ok? ==> et.AreRows(r.value)
  {
    if h !in s.storedTypes then Err(TypeNotFound)
    else
      var m :- RawRead(version, et, s, h);
      Ok(m.entities)
  }

  /** `read_all_ids`. */
  function ReadAllIdsOp(version: seq<byte>, et: EntityType, h: Hash, s: DbState): Result<seq<int>>
    requires et.Valid()
  {
    var rows :- ReadAllOp(version, et, h, s);
    Ok(Ids(et, rows))
  }

  /** `find_by_id`. */
  function FindByIdOp(version: seq<byte>, et: EntityType, h: Hash, s: DbState, id: int): Result<Option<Value>>
    requires et.Valid()
  {
    var rows :- ReadAllOp(version, et, h, s);
    Ok(FindFirst(et, rows, id))
  }

  /** `update_entity`: the first row with the entity's id is replaced. */
  function UpdateEntityOp(version: seq<byte>, et: EntityType, h: Hash, s: DbState, entity: Value): (Result<()>, DbState)
    requires et.IsRow(entity)
  {
    if h !in s.storedTypes then (Err(TypeNotFound), s)
    else
      match RawRead(version, et, s, h)
      case Err(e) => (Err(e), s)
      case Ok(raw) =>
        match FirstIndex(et, raw.entities, et.GetId(entity))
        case None => (Err(IdNotFound), s)
        case Some(i) => RawWrite(version, et, s, h, raw.(entities := raw.entities[i := entity]))
  }

  /** `delte_entity_by_id`: every row with the id is dropped. */
  function DeleteByIdOp(version: seq<byte>, et: EntityType, h: Hash, s: DbState, id: int): (Result<()>, DbState)
    requires et.Valid()
  {
    if h !in s.storedTypes then (Err(TypeNotFound), s)
    else
      match RawRead(version, et, s, h)
      case Err(e) => (Err(e), s)
      case Ok(raw) => RawWrite(version, et, s, h, raw.(entities := RemoveId(et, raw.entities, id)))
  }

  /** `delete_entity_store`: unregister, then remove the file; a missing file
      is an I/O error after the type is already unregistered. */
  function DeleteStoreOp(h: Hash, s: DbState): (Result<()>, DbState)
  {
    if h !in s.storedTypes then (Err(TypeNotFound), s)
    else
      var s1 := s.(storedTypes := s.storedTypes - {h});
      var name := FileName(h);
      if name in s1.files then (Ok(()), s1.(files := s1.files - {name})) else (Err(IoError), s1)
  }

  // ---------------------------------------------------------------------
  // Properties of the operations

  /** Every operation that asks for a registered type refuses an unregistered
      one with `TypeNotFound` and changes nothing. */
  lemma UnregisteredType(version: seq<byte>, et: EntityType, h: Hash, s: DbState, id: int, entity: Value)
    requires et.IsRow(entity) && h !in s.storedTypes
    ensures ReadAllOp(version, et, h, s) == Err(TypeNotFound)
    ensures ReadAllIdsOp(version, et, h, s) == Err(TypeNotFound)
    ensures FindByIdOp(version, et, h, s, id) == Err(TypeNotFound)
    ensures UpdateEntityOp(version, et, h, s, entity) == (Err(TypeNotFound), s)
    ensures DeleteByIdOp(version, et, h, s, id) == (Err(TypeNotFound), s)
    ensures DeleteStoreOp(h, s) == (Err(TypeNotFound), s)
  {
  }

  /** The table file read back after a write holds the table written, even
      when the old file was longer and its tail is still there. */
  lemma ReadTableOverwrite(version: seq<byte>, et: EntityType, m: EntityMeta, prev: seq<byte>)
    requires ValidUtf8(version) && Valid(et, m) && Fits(version, et, m)
    ensures ReadTable(version, et, Overwrite(prev, FileBytes(version, et, m))) == Ok(m)
  {
    var inner := Meta.InnerEncoded(version, et, m);
    var file := Overwrite(prev, FileBytes(version, et, m));
    var c := Cursor(file, 0, |file|);
    assert c.HasAt(Frame(inner)) by {
      assert file[..|Frame(inner)|] == Frame(inner);
    }
    TakeFramed(c, inner);
    ContainerRoundTrip(version, et, m, c.TakeBlock().value.0);
  }

  /** `raw_write_all` then `raw_read_all` gives the table written. */
  lemma ReadAfterWrite(version: seq<byte>, et: EntityType, s: DbState, h: Hash, m: EntityMeta)
    requires ValidUtf8(version) && Valid(et, m) && Fits(version, et, m)
    requires FileName(h) in s.files
    ensures RawWrite(version, et, s, h, m).0 == Ok(())
    ensures RawRead(version, et, RawWrite(version, et, s, h, m).1, h) == Ok(m)
    ensures RawWrite(version, et, s, h, m).1.storedTypes == s.storedTypes
  {
    ReadTableOverwrite(version, et, m, s.files[FileName(h)]);
  }

  lemma EmptyTableValid(et: EntityType)
    requires et.Valid()
    ensures Valid(et, EmptyTable())
  {
    Id.InitialInRange(et.IdKind());
  }

  /** The first `store` or `write_all` of a type registers it with an empty
      table whose `last_id` is `initial()`. */
  lemma EnsureRegisteredEmpty(version: seq<byte>, et: EntityType, s: DbState, h: Hash)
    requires et.Valid() && ValidUtf8(version) && Fits(version, et, EmptyTable())
    requires h !in s.storedTypes
    ensures h in EnsureRegistered(version, et, s, h).storedTypes
    ensures RawRead(version, et, EnsureRegistered(version, et, s, h), h) == Ok(EmptyTable())
  {
    var name := FileName(h);
    var created := if name in s.files then s.files else s.files[name := []];
    EmptyTableValid(et);
    ReadTableOverwrite(version, et, EmptyTable(), created[name]);
  }

  /** A registered type is not registered again. */
  lemma EnsureRegisteredKnown(version: seq<byte>, et: EntityType, s: DbState, h: Hash)
    requires et.Valid() && h in s.storedTypes
    ensures EnsureRegistered(version, et, s, h) == s
  {
  }

  /** A successful `store` appends the returned row at the end of the table
      and records its id as `last_id`; with generated ids that id is
      `generate(last_id)`, and with manual ids the row is the entity given. */
  lemma StoreAppends(version: seq<byte>, et: EntityType, h: Hash, s: DbState, data: Value, before: EntityMeta)
    requires et.IsRow(data) && ValidUtf8(version)
    requires RawRead(version, et, EnsureRegistered(version, et, s, h), h) == Ok(before)
    requires StoreOp(version, et, h, s, data).0.Ok?
    ensures var row := StoreOp(version, et, h, s, data).0.value;
      var m := EntityMeta(et.GetId(row), before.entities + [row]);
      && et.IsRow(row)
      && (et.generateId ==> et.GetId(row) == before.lastId + 1)
      && (!et.generateId ==> row == data)
      && (Fits(version, et, m) ==> RawRead(version, et, StoreOp(version, et, h, s, data).1, h) == Ok(m))
  {
    var s1 := EnsureRegistered(version, et, s, h);
    var row := NewRow(et, before.lastId, data).value;
    var m := EntityMeta(et.GetId(row), before.entities + [row]);
    assert StoreOp(version, et, h, s, data).1 == RawWrite(version, et, s1, h, m).1;
    assert et.AreRows(before.entities + [row]) by {
      assert forall i | 0 <= i < |before.entities| :: (before.entities + [row])[i] == before.entities[i];
    }
    if Fits(version, et, m) {
      ReadAfterWrite(version, et, s1, h, m);
    }
  }

  /** With manual ids, storing an id already in the table is refused with
      `IdExists`, and a registered type's files are left as they were. */
  lemma StoreDuplicate(version: seq<byte>, et: EntityType, h: Hash, s: DbState, data: Value, before: EntityMeta)
    requires et.IsRow(data) && !et.generateId
    requires RawRead(version, et, EnsureRegistered(version, et, s, h), h) == Ok(before)
    requires HasId(et, before.entities, et.GetId(data))
    ensures StoreOp(version, et, h, s, data) == (Err(IdExists), EnsureRegistered(version, et, s, h))
    ensures h in s.storedTypes ==> StoreOp(version, et, h, s, data).1 == s
  {
  }

  /** Ids no larger than `last_id` stay so under `store` with generated ids,
      and the generated id is then one no row has. */
  lemma GeneratedIdFresh(version: seq<byte>, et: EntityType, h: Hash, s: DbState, data: Value, before: EntityMeta)
    requires et.IsRow(data) && et.generateId
    requires RawRead(version, et, EnsureRegistered(version, et, s, h), h) == Ok(before)
    requires forall i | 0 <= i < |before.entities| :: et.GetId(before.entities[i]) <= before.lastId
    requires StoreOp(version, et, h, s, data).0.Ok?
    ensures var row := StoreOp(version, et, h, s, data).0.value;
      && !HasId(et, before.entities, et.GetId(row))
      && var rows := before.entities + [row];
         forall i | 0 <= i < |rows| :: et.IsRow(rows[i]) && et.GetId(rows[i]) <= et.GetId(row)
  {
    var row := NewRow(et, before.lastId, data).value;
    var rows := before.entities + [row];
    assert forall i | 0 <= i < |before.entities| :: rows[i] == before.entities[i];
  }

  /** Appending a row whose id is above `last_id` and recording that id as
      `last_id` keeps IdsBounded. */
  lemma AppendKeepsIdsBounded(et: EntityType, before: EntityMeta, row: Value)
    requires et.AreRows(before.entities) && et.IsRow(row) && IdsBounded(et, before)
    requires et.generateId ==> et.GetId(row) > before.lastId
    ensures var m := EntityMeta(et.GetId(row), before.entities + [row]);
      et.AreRows(m.entities) && IdsBounded(et, m)
  {
    var rows := before.entities + [row];
    assert forall i | 0 <= i < |before.entities| :: rows[i] == before.entities[i];
  }

  /** `store` keeps IdsBounded: the table it writes records the new row's
      id as `last_id`, and with generated ids that id is above every row's. */
  lemma StoreKeepsIdsBounded(version: seq<byte>, et: EntityType, h: Hash, s: DbState, data: Value, before: EntityMeta)
    requires et.IsRow(data)
    requires RawRead(version, et, EnsureRegistered(version, et, s, h), h) == Ok(before)
    requires IdsBounded(et, before)
    requires StoreOp(version, et, h, s, data).0.Ok?
    ensures var row := StoreOp(version, et, h, s, data).0.value;
      var m := EntityMeta(et.GetId(row), before.entities + [row]);
      && StoreOp(version, et, h, s, data).1 == RawWrite(version, et, EnsureRegistered(version, et, s, h), h, m).1
      && et.AreRows(m.entities) && IdsBounded(et, m)
  {
    var row := NewRow(et, before.lastId, data).value;
    AppendKeepsIdsBounded(et, before, row);
  }

  /** Replacing a row by one with the same id keeps IdsBounded. */
  lemma ReplaceKeepsIdsBounded(et: EntityType, before: EntityMeta, i: nat, entity: Value)
    requires et.AreRows(before.entities) && et.IsRow(entity) && IdsBounded(et, before)
    requires i < |before.entities| && et.GetId(before.entities[i]) == et.GetId(entity)
    ensures var m := before.(entities := before.entities[i := entity]);
      et.AreRows(m.entities) && IdsBounded(et, m)
  {
  }

  /** `update_entity` keeps IdsBounded: the row it replaces has the same id
      as the row it writes, and `last_id` is kept. */
  lemma UpdateKeepsIdsBounded(version: seq<byte>, et: EntityType, h: Hash, s: DbState, entity: Value, before: EntityMeta)
    requires et.IsRow(entity) && h in s.storedTypes
    requires RawRead(version, et, s, h) == Ok(before)
    requires HasId(et, before.entities, et.GetId(entity))
    requires IdsBounded(et, before)
    ensures var i := FirstIndex(et, before.entities, et.GetId(entity)).value;
      var m := before.(entities := before.entities[i := entity]);
      && UpdateEntityOp(version, et, h, s, entity) == RawWrite(version, et, s, h, m)
      && et.AreRows(m.entities) && IdsBounded(et, m)
  {
    var i := FirstIndex(et, before.entities, et.GetId(entity)).value;
    ReplaceKeepsIdsBounded(et, before, i, entity);
  }

  /** `delte_entity_by_id` keeps IdsBounded: it only drops rows and keeps
      `last_id`. */
  lemma DeleteKeepsIdsBounded(version: seq<byte>, et: EntityType, h: Hash, s: DbState, id: int, before: EntityMeta)
    requires et.Valid() && h in s.storedTypes
    requires RawRead(version, et, s, h) == Ok(before)
    requires IdsBounded(et, before)
    ensures var m := before.(entities := RemoveId(et, before.entities, id));
      && DeleteByIdOp(version, et, h, s, id) == RawWrite(version, et, s, h, m)
      && IdsBounded(et, m)
  {
    var kept := RemoveId(et, before.entities, id);
    forall i | 0 <= i < |kept|
      ensures kept[i] in before.entities
    {
      RemoveIdMembers(et, before.entities, id, kept[i]);
    }
  }

  /** `write_all` registers the type and leaves the table it writes in the
      file, when the table fits the length prefix. */
  lemma WriteAllWrites(version: seq<byte>, et: EntityType, h: Hash, s: DbState, rows: seq<Value>)
    requires et.Valid() && et.AreRows(rows) && ValidUtf8(version)
    requires h in s.storedTypes ==> FileName(h) in s.files
    requires Fits(version, et, EntityMeta(LastId(et, rows), rows))
    ensures var s2 := WriteAllOp(version, et, h, s, rows).1;
      && h in s2.storedTypes && FileName(h) in s2.files
      && RawRead(version, et, s2, h) == Ok(EntityMeta(LastId(et, rows), rows))
  {
    ReadAfterWrite(version, et, EnsureRegistered(version, et, s, h), h, EntityMeta(LastId(et, rows), rows));
  }

  /** `store` with generated ids on a registered table whose `last_id` is
      below the maximum succeeds with the id `last_id + 1`. */
  lemma StoreGenerates(version: seq<byte>, et: EntityType, h: Hash, s: DbState, data: Value, before: EntityMeta)
    requires et.IsRow(data) && et.generateId && h in s.storedTypes && FileName(h) in s.files
    requires RawRead(version, et, s, h) == Ok(before)
    requires before.lastId != et.IdKind().Max()
    ensures StoreOp(version, et, h, s, data).0.Ok?
    ensures et.GetId(StoreOp(version, et, h, s, data).0.value) == before.lastId + 1
  {
  }

  /** Appending a row whose id no row has keeps the ids distinct. */
  lemma AppendKeepsIdsDistinct(et: EntityType, rows: seq<Value>, row: Value)
    requires et.AreRows(rows) && et.IsRow(row) && DistinctIds(et, rows)
    requires !HasId(et, rows, et.GetId(row))
    ensures et.AreRows(rows + [row]) && DistinctIds(et, rows + [row])
  {
    var r := rows + [row];
    assert forall i | 0 <= i < |rows| :: r[i] == rows[i];
  }

  /** `store` keeps IdsDistinct: with manual ids it refuses an id already
      there, and with generated ids (given IdsBounded) the id it generates
      is one no row has. */
  lemma StoreKeepsIdsDistinct(version: seq<byte>, et: EntityType, h: Hash, s: DbState, data: Value, before: EntityMeta)
    requires et.IsRow(data)
    requires RawRead(version, et, EnsureRegistered(version, et, s, h), h) == Ok(before)
    requires IdsDistinct(et, before) && IdsBounded(et, before)
    requires StoreOp(version, et, h, s, data).0.Ok?
    ensures var row := StoreOp(version, et, h, s, data).0.value;
      var m := EntityMeta(et.GetId(row), before.entities + [row]);
      && StoreOp(version, et, h, s, data).1 == RawWrite(version, et, EnsureRegistered(version, et, s, h), h, m).1
      && et.AreRows(m.entities) && IdsDistinct(et, m)
  {
    var row := NewRow(et, before.lastId, data).value;
    if et.generateId {
      GeneratedIdFresh(version, et, h, s, data, before);
    } else {
      assert row == data && !HasId(et, before.entities, et.GetId(data));
    }
    AppendKeepsIdsDistinct(et, before.entities, row);
  }

  /** Replacing a row by one with the same id keeps the ids distinct. */
  lemma ReplaceKeepsIdsDistinct(et: EntityType, rows: seq<Value>, i: nat, entity: Value)
    requires et.AreRows(rows) && et.IsRow(entity) && DistinctIds(et, rows)
    requires i < |rows| && et.GetId(rows[i]) == et.GetId(entity)
    ensures et.AreRows(rows[i := entity]) && DistinctIds(et, rows[i := entity])
  {
    var r := rows[i := entity];
    assert forall j | 0 <= j < |rows| :: et.GetId(r[j]) == et.GetId(rows[j]);
  }

  /** `update_entity` keeps IdsDistinct. */
  lemma UpdateKeepsIdsDistinct(version: seq<byte>, et: EntityType, h: Hash, s: DbState, entity: Value, before: EntityMeta)
    requires et.IsRow(entity) && h in s.storedTypes
    requires RawRead(version, et, s, h) == Ok(before)
    requires HasId(et, before.entities, et.GetId(entity))
    requires IdsDistinct(et, before)
    ensures var i := FirstIndex(et, before.entities, et.GetId(entity)).value;
      var m := before.(entities := before.entities[i := entity]);
      && UpdateEntityOp(version, et, h, s, entity) == RawWrite(version, et, s, h, m)
      && et.AreRows(m.entities) && IdsDistinct(et, m)
  {
    var i := FirstIndex(et, before.entities, et.GetId(entity)).value;
    ReplaceKeepsIdsDistinct(et, before.entities, i, entity);
  }

  /** `retain` keeps the ids distinct: it keeps rows, in order, and never
      repeats one. */
  lemma {:induction false} RemoveIdKeepsDistinct(et: EntityType, rows: seq<Value>, id: int)
    requires et.AreRows(rows) && DistinctIds(et, rows)
    ensures DistinctIds(et, RemoveId(et, rows, id))
    decreases |rows|
  {
    if rows != [] {
      var init := rows[..|rows| - 1];
      var last := rows[|rows| - 1];
      assert forall i | 0 <= i < |init| :: init[i] == rows[i];
      RemoveIdKeepsDistinct(et, init, id);
      var kept := RemoveId(et, init, id);
      if et.GetId(last) != id {
        forall i | 0 <= i < |kept|
          ensures et.GetId(kept[i]) != et.GetId(last)
        {
          RemoveIdMembers(et, init, id, kept[i]);
        }
        AppendKeepsIdsDistinct(et, kept, last);
      }
    }
  }

  /** `delte_entity_by_id` keeps IdsDistinct. */
  lemma DeleteKeepsIdsDistinct(version: seq<byte>, et: EntityType, h: Hash, s: DbState, id: int, before: EntityMeta)
    requires et.Valid() && h in s.storedTypes
    requires RawRead(version, et, s, h) == Ok(before)
    requires IdsDistinct(et, before)
    ensures var m := before.(entities := RemoveId(et, before.entities, id));
      && DeleteByIdOp(version, et, h, s, id) == RawWrite(version, et, s, h, m)
      && IdsDistinct(et, m)
  {
    RemoveIdKeepsDistinct(et, before.entities, id);
  }

  /** `find` on rows with a row appended whose id no earlier row has gives
      that row. */
  lemma FindAppended(et: EntityType, rows: seq<Value>, row: Value)
    requires et.AreRows(rows) && et.IsRow(row) && !HasId(et, rows, et.GetId(row))
    ensures et.AreRows(rows + [row]) && FindFirst(et, rows + [row], et.GetId(row)) == Some(row)
  {
    var r := rows + [row];
    assert forall i | 0 <= i < |rows| :: r[i] == rows[i];
    assert r[|rows|] == row;
  }

  /** Store then find: `find_by_id` with the id of the row `store` returned
      gives that row, when the table kept IdsBounded and the new table fits
      the length prefix. */
  lemma StoreThenFind(version: seq<byte>, et: EntityType, h: Hash, s: DbState, data: Value, before: EntityMeta)
    requires et.IsRow(data) && ValidUtf8(version)
    requires RawRead(version, et, EnsureRegistered(version, et, s, h), h) == Ok(before)
    requires IdsBounded(et, before)
    requires StoreOp(version, et, h, s, data).0.Ok?
    requires var row := StoreOp(version, et, h, s, data).0.value;
      Fits(version, et, EntityMeta(et.GetId(row), before.entities + [row]))
    ensures var row := StoreOp(version, et, h, s, data).0.value;
      FindByIdOp(version, et, h, StoreOp(version, et, h, s, data).1, et.GetId(row)) == Ok(Some(row))
  {
    var row := StoreOp(version, et, h, s, data).0.value;
    StoreAppends(version, et, h, s, data, before);
    if et.generateId {
      GeneratedIdFresh(version, et, h, s, data, before);
    } else {
      assert row == data && !HasId(et, before.entities, et.GetId(data));
    }
    FindAppended(et, before.entities, row);
  }

  /** Appending a row with the id of some row already there breaks the
      distinctness of the ids. */
  lemma AppendRepeatsId(et: EntityType, rows: seq<Value>, row: Value, i: nat)
    requires et.AreRows(rows) && et.IsRow(row)
    requires i < |rows| && et.GetId(rows[i]) == et.GetId(row)
    ensures et.AreRows(rows + [row]) && !DistinctIds(et, rows + [row])
  {
    var r := rows + [row];
    assert forall j | 0 <= j < |rows| :: r[j] == rows[j];
    assert r[i] == rows[i] && r[|rows|] == row;
  }

  /** As written, `write_all` records the last row's id as `last_id`, not the
      largest: rows `[a, b]` with `a`'s id above `b`'s give a table that
      breaks IdsBounded. */
  lemma LastIdNotBounded(et: EntityType, a: Value, b: Value)
    requires et.IsRow(a) && et.IsRow(b) && et.generateId
    requires et.GetId(a) > et.GetId(b)
    ensures et.AreRows([a, b]) && LastId(et, [a, b]) == et.GetId(b)
    ensures !IdsBounded(et, EntityMeta(LastId(et, [a, b]), [a, b]))
  {
    assert [a, b][0] == a;
  }

  /** The consequence: after `write_all([a, b])` with `a`'s id one above
      `b`'s, the next `store` with generated ids hands out `a`'s id a second
      time, and the table it writes, `[a, b, row]`, breaks IdsDistinct. */
  lemma WriteAllThenStoreRepeatsId(version: seq<byte>, et: EntityType, h: Hash, s: DbState, a: Value, b: Value, data: Value, after: DbState)
    requires et.IsRow(a) && et.IsRow(b) && et.IsRow(data) && et.generateId && ValidUtf8(version)
    requires et.GetId(a) == et.GetId(b) + 1
    requires h in s.storedTypes ==> FileName(h) in s.files
    requires Fits(version, et, EntityMeta(et.GetId(b), [a, b]))
    requires after == WriteAllOp(version, et, h, s, [a, b]).1
    ensures StoreOp(version, et, h, after, data).0.Ok?
    ensures et.GetId(StoreOp(version, et, h, after, data).0.value) == et.GetId(a)
    ensures var row := StoreOp(version, et, h, after, data).0.value;
      et.AreRows([a, b] + [row]) && !DistinctIds(et, [a, b] + [row])
  {
    LastIdNotBounded(et, a, b);
    WriteAllWrites(version, et, h, s, [a, b]);
    StoreGenerates(version, et, h, after, data, EntityMeta(et.GetId(b), [a, b]));
    AppendRepeatsId(et, [a, b], StoreOp(version, et, h, after, data).0.value, 0);
  }

  /** `write_all` with MaxId for `last_id`: the table it writes keeps
      IdsBounded whatever the order of the rows, and reads back as written. */
  lemma WriteAllMaxIdBounded(version: seq<byte>, et: EntityType, h: Hash, s: DbState, rows: seq<Value>)
    requires et.Valid() && et.AreRows(rows) && ValidUtf8(version)
    requires h in s.storedTypes ==> FileName(h) in s.files
    requires Fits(version, et, EntityMeta(MaxId(et, rows), rows))
    ensures var m := EntityMeta(MaxId(et, rows), rows);
      var w := RawWrite(version, et, EnsureRegistered(version, et, s, h), h, m);
      && IdsBounded(et, m)
      && w.0 == Ok(())
      && ReadAllOp(version, et, h, w.1) == Ok(rows)
  {
    var s1 := EnsureRegistered(version, et, s, h);
    ReadAfterWrite(version, et, s1, h, EntityMeta(MaxId(et, rows), rows));
  }

  /** On rows whose ids ascend from `initial()` on, as `store` with generated
      ids leaves them, MaxId is the `last_id` `write_all` records as written. */
  lemma MaxIdOfAscending(et: EntityType, rows: seq<Value>)
    requires et.Valid() && et.AreRows(rows)
    requires forall i, j | 0 <= i < j < |rows| :: et.GetId(rows[i]) <= et.GetId(rows[j])
    requires forall i | 0 <= i < |rows| :: Id.Initial() <= et.GetId(rows[i])
    ensures MaxId(et, rows) == LastId(et, rows)
  {
    if rows != [] {
      var init := rows[..|rows| - 1];
      assert forall i | 0 <= i < |init| :: init[i] == rows[i];
    }
  }

  /** Store then list the ids: after a successful `store`, `read_all_ids`
      gives the ids before it followed by the new row's id, when the new
      table fits the length prefix. */
  lemma StoreThenReadIds(version: seq<byte>, et: EntityType, h: Hash, s: DbState, data: Value, before: EntityMeta)
    requires et.IsRow(data) && ValidUtf8(version)
    requires RawRead(version, et, EnsureRegistered(version, et, s, h), h) == Ok(before)
    requires StoreOp(version, et, h, s, data).0.Ok?
    requires var row := StoreOp(version, et, h, s, data).0.value;
      Fits(version, et, EntityMeta(et.GetId(row), before.entities + [row]))
    ensures var row := StoreOp(version, et, h, s, data).0.value;
      ReadAllIdsOp(version, et, h, StoreOp(version, et, h, s, data).1) == Ok(Ids(et, before.entities) + [et.GetId(row)])
  {
    StoreAppends(version, et, h, s, data, before);
    IdsAppend(et, before.entities, StoreOp(version, et, h, s, data).0.value);
  }

  /** The ids of rows with one appended are their ids with its id appended. */
  lemma IdsAppend(et: EntityType, rows: seq<Value>, row: Value)
    requires et.AreRows(rows) && et.IsRow(row)
    ensures et.AreRows(rows + [row]) && Ids(et, rows + [row]) == Ids(et, rows) + [et.GetId(row)]
  {
    var r := rows + [row];
    assert forall i | 0 <= i < |rows| :: r[i] == rows[i];
  }

  /** `write_all` then `read_all` gives the rows written, with `last_id` the
      last row's id or `initial()`. */
  lemma WriteAllThenRead(version: seq<byte>, et: EntityType, h: Hash, s: DbState, rows: seq<Value>)
    requires et.Valid() && et.AreRows(rows) && ValidUtf8(version)
    requires h in s.storedTypes ==> FileName(h) in s.files
    requires Fits(version, et, EntityMeta(LastId(et, rows), rows))
    ensures WriteAllOp(version, et, h, s, rows).0 == Ok(())
    ensures ReadAllOp(version, et, h, WriteAllOp(version, et, h, s, rows).1) == Ok(rows)
  {
    var s1 := EnsureRegistered(version, et, s, h);
    ReadAfterWrite(version, et, s1, h, EntityMeta(LastId(et, rows), rows));
  }

  /** `update_entity` with an id no row has is refused with `IdNotFound` and
      changes nothing. */
  lemma UpdateMissing(version: seq<byte>, et: EntityType, h: Hash, s: DbState, entity: Value, before: EntityMeta)
    requires et.IsRow(entity) && h in s.storedTypes
    requires RawRead(version, et, s, h) == Ok(before)
    requires !HasId(et, before.entities, et.GetId(entity))
    ensures UpdateEntityOp(version, et, h, s, entity) == (Err(IdNotFound), s)
  {
  }

  /** `update_entity` with an id present replaces the first row with that id,
      and only it: the table keeps its length, its `last_id` and every other
      row. */
  lemma UpdateReplacesFirst(version: seq<byte>, et: EntityType, h: Hash, s: DbState, entity: Value, before: EntityMeta)
    requires et.IsRow(entity) && h in s.storedTypes
    requires RawRead(version, et, s, h) == Ok(before)
    requires HasId(et, before.entities, et.GetId(entity))
    ensures var i := FirstIndex(et, before.entities, et.GetId(entity)).value;
      var m := before.(entities := before.entities[i := entity]);
      && UpdateEntityOp(version, et, h, s, entity) == RawWrite(version, et, s, h, m)
      && UpdateEntityOp(version, et, h, s, entity).0 == Ok(())
      && |m.entities| == |before.entities| && m.lastId == before.lastId
      && m.entities[i] == entity
      && (forall j | 0 <= j < i :: et.GetId(before.entities[j]) != et.GetId(entity))
      && (forall j | 0 <= j < |before.entities| && j != i :: m.entities[j] == before.entities[j])
  {
  }

  /** The table `update_entity` writes is read back as written, when it fits
      the length prefix. */
  lemma UpdateReadsBack(version: seq<byte>, et: EntityType, h: Hash, s: DbState, entity: Value, before: EntityMeta)
    requires et.IsRow(entity) && h in s.storedTypes && ValidUtf8(version)
    requires RawRead(version, et, s, h) == Ok(before)
    requires HasId(et, before.entities, et.GetId(entity))
    ensures var i := FirstIndex(et, before.entities, et.GetId(entity)).value;
      var m := before.(entities := before.entities[i := entity]);
      Fits(version, et, m) ==> RawRead(version, et, UpdateEntityOp(version, et, h, s, entity).1, h) == Ok(m)
  {
    var i := FirstIndex(et, before.entities, et.GetId(entity)).value;
    var m := before.(entities := before.entities[i := entity]);
    UpdateReplacesFirst(version, et, h, s, entity, before);
    assert Valid(et, m);
    if Fits(version, et, m) {
      ReadAfterWrite(version, et, s, h, m);
    }
  }

  /** `retain` splits over a concatenation. */
  lemma {:induction false} RemoveIdAppend(et: EntityType, a: seq<Value>, b: seq<Value>, id: int)
    requires et.AreRows(a) && et.AreRows(b)
    ensures et.AreRows(a + b)
    ensures RemoveId(et, a + b, id) == RemoveId(et, a, id) + RemoveId(et, b, id)
    decreases |b|
  {
    assert et.AreRows(a + b) by {
      assert forall i | 0 <= i < |a + b| :: (a + b)[i] == if i < |a| then a[i] else b[i - |a|];
    }
    if b == [] {
      assert a + b == a;
    } else {
      var last := b[|b| - 1];
      assert (a + b)[..|a + b| - 1] == a + b[..|b| - 1];
      RemoveIdAppend(et, a, b[..|b| - 1], id);
    }
  }

  /** A row is kept exactly when it is a row of the table whose id differs. */
  lemma {:induction false} RemoveIdMembers(et: EntityType, rows: seq<Value>, id: int, v: Value)
    requires et.AreRows(rows)
    ensures v in RemoveId(et, rows, id) <==> v in rows && et.GetId(v) != id
    decreases |rows|
  {
    if rows != [] {
      var init := rows[..|rows| - 1];
      RemoveIdMembers(et, init, id, v);
      InitLast(rows);
    }
  }

  /** Deleting an id no row has leaves the rows as they are. */
  lemma {:induction false} RemoveIdAbsent(et: EntityType, rows: seq<Value>, id: int)
    requires et.AreRows(rows) && !HasId(et, rows, id)
    ensures RemoveId(et, rows, id) == rows
    decreases |rows|
  {
    if rows != [] {
      var init := rows[..|rows| - 1];
      assert !HasId(et, init, id) by {
        assert forall i | 0 <= i < |init| :: init[i] == rows[i];
      }
      RemoveIdAbsent(et, init, id);
      InitLast(rows);
    }
  }

  /** `delte_entity_by_id` on a registered type drops every row with the id,
      keeps the others in order with the same `last_id`, and succeeds whether
      or not the id was there. */
  lemma DeleteRemovesAll(version: seq<byte>, et: EntityType, h: Hash, s: DbState, id: int, before: EntityMeta)
    requires et.Valid() && h in s.storedTypes && ValidUtf8(version)
    requires RawRead(version, et, s, h) == Ok(before)
    ensures var m := before.(entities := RemoveId(et, before.entities, id));
      && DeleteByIdOp(version, et, h, s, id).0 == Ok(())
      && (Fits(version, et, m) ==> RawRead(version, et, DeleteByIdOp(version, et, h, s, id).1, h) == Ok(m))
      && FindFirst(et, m.entities, id) == None
      && (!HasId(et, before.entities, id) ==> m == before)
  {
    var m := before.(entities := RemoveId(et, before.entities, id));
    if Fits(version, et, m) {
      ReadAfterWrite(version, et, s, h, m);
    }
    if !HasId(et, before.entities, id) {
      RemoveIdAbsent(et, before.entities, id);
    }
  }

  /** `find_by_id` gives the first row with the id, `None` when there is none. */
  lemma FindByIdFirst(version: seq<byte>, et: EntityType, h: Hash, s: DbState, id: int, rows: seq<Value>)
    requires et.Valid() && ReadAllOp(version, et, h, s) == Ok(rows)
    ensures FindByIdOp(version, et, h, s, id).Ok?
    ensures match FindByIdOp(version, et, h, s, id).value
      case None => forall i | 0 <= i < |rows| :: et.GetId(rows[i]) != id
      case Some(v) => exists i | 0 <= i < |rows| ::
        (v == rows[i] && et.GetId(v) == id && forall j | 0 <= j < i :: et.GetId(rows[j]) != id)
  {
    var r := FirstIndex(et, rows, id);
    if r.Some? {
      assert FindByIdOp(version, et, h, s, id).value == Some(rows[r.value]);
    }
  }

  /** `delete_entity_store` unregisters the type and removes its file; the
      type's operations then report `TypeNotFound`. */
  lemma DeleteStoreUnregisters(version: seq<byte>, et: EntityType, h: Hash, s: DbState)
    requires et.Valid() && h in s.storedTypes && Consistent(s)
    ensures DeleteStoreOp(h, s).0 == Ok(())
    ensures h !in DeleteStoreOp(h, s).1.storedTypes
    ensures FileName(h) !in DeleteStoreOp(h, s).1.files
    ensures ReadAllOp(version, et, h, DeleteStoreOp(h, s).1) == Err(TypeNotFound)
  {
  }

  /** Every operation keeps each registered type's table file in place. */
  lemma OperationsKeepConsistent(version: seq<byte>, et: EntityType, h: Hash, s: DbState, data: Value, rows: seq<Value>, id: int)
    requires Consistent(s) && et.IsRow(data) && et.AreRows(rows)
    ensures Consistent(EnsureRegistered(version, et, s, h))
    ensures Consistent(StoreOp(version, et, h, s, data).1)
    ensures Consistent(WriteAllOp(version, et, h, s, rows).1)
    ensures Consistent(UpdateEntityOp(version, et, h, s, data).1)
    ensures Consistent(DeleteByIdOp(version, et, h, s, id).1)
    ensures Consistent(DeleteStoreOp(h, s).1)
  {
    EnsureRegisteredKeeps(version, et, s, h);
    StoreKeeps(version, et, h, s, data);
    WriteAllKeeps(version, et, h, s, rows);
    UpdateKeeps(version, et, h, s, data);
    DeleteByIdKeeps(version, et, h, s, id);
    DeleteStoreKeeps(h, s);
  }

  lemma StoreKeeps(version: seq<byte>, et: EntityType, h: Hash, s: DbState, data: Value)
    requires Consistent(s) && et.IsRow(data)
    ensures Consistent(StoreOp(version, et, h, s, data).1)
  {
    EnsureRegisteredKeeps(version, et, s, h);
    RawWritesKeep(version, et, EnsureRegistered(version, et, s, h), h);
  }

  lemma WriteAllKeeps(version: seq<byte>, et: EntityType, h: Hash, s: DbState, rows: seq<Value>)
    requires Consistent(s) && et.Valid() && et.AreRows(rows)
    ensures Consistent(WriteAllOp(version, et, h, s, rows).1)
  {
    EnsureRegisteredKeeps(version, et, s, h);
    RawWritesKeep(version, et, EnsureRegistered(version, et, s, h), h);
  }

  lemma UpdateKeeps(version: seq<byte>, et: EntityType, h: Hash, s: DbState, entity: Value)
    requires Consistent(s) && et.IsRow(entity)
    ensures Consistent(UpdateEntityOp(version, et, h, s, entity).1)
  {
    RawWritesKeep(version, et, s, h);
  }

  lemma DeleteByIdKeeps(version: seq<byte>, et: EntityType, h: Hash, s: DbState, id: int)
    requires Consistent(s) && et.Valid()
    ensures Consistent(DeleteByIdOp(version, et, h, s, id).1)
  {
    RawWritesKeep(version, et, s, h);
  }

  lemma EnsureRegisteredKeeps(version: seq<byte>, et: EntityType, s: DbState, h: Hash)
    requires et.Valid() && Consistent(s)
    ensures Consistent(EnsureRegistered(version, et, s, h))
  {
  }

  /** A table write leaves the registered types and the set of files alone. */
  lemma RawWritesKeep(version: seq<byte>, et: EntityType, s: DbState, h: Hash)
    requires et.Valid() && Consistent(s)
    ensures forall m :: Consistent(RawWrite(version, et, s, h, m).1)
  {
    forall m
      ensures Consistent(RawWrite(version, et, s, h, m).1)
    {
    }
  }

  lemma DeleteStoreKeeps(h: Hash, s: DbState)
    requires Consistent(s)
    ensures Consistent(DeleteStoreOp(h, s).1)
  {
    if h in s.storedTypes && FileName(h) in s.files {
      var s2 := DeleteStoreOp(h, s).1;
      forall g | g in s2.storedTypes
        ensures FileName(g) in s2.files
      {
        assert g != h;
        assert FileName(g) != FileName(h) by {
          if FileName(g) == FileName(h) {
            assert FileName(g)[..28] == TypeHash.Encode(g);
            assert FileName(h)[..28] == TypeHash.Encode(h);
            TypeHash.EncodeInjective(g, h);
          }
        }
      }
    }
  }

  // ---------------------------------------------------------------------
  // Scans over the rows

  /** `iter().any(|e| e.get_id() == id)`. */
  method AnyId(et: EntityType, rows: seq<Value>, id: int) returns (found: bool)
    requires et.AreRows(rows)
    ensures found == HasId(et, rows, id)
  {
    found := false;
    var i := 0;
    while i < |rows| && !found
      invariant 0 <= i <= |rows|
      invariant found <==> exists j | 0 <= j < i :: et.GetId(rows[j]) == id
    {
      found := et.GetId(rows[i]) == id;
      if !found {
        forall j | 0 <= j < i + 1
          ensures et.GetId(rows[j]) != id
        {
          if j == i {
          } else {
            assert !(0 <= j < i && et.GetId(rows[j]) == id);
          }
        }
      }
      i := i + 1;
    }
  }

  /** `iter_mut().find(|e| e.get_id() == id)`, as the position it stops at. */
  method FindIndex(et: EntityType, rows: seq<Value>, id: int) returns (r: Option<nat>)
    requires et.AreRows(rows)
    ensures r == FirstIndex(et, rows, id)
  {
    var i := 0;
    while i < |rows|
      invariant 0 <= i <= |rows|
      invariant FirstIndexFrom(et, rows, id, i) == FirstIndex(et, rows, id)
    {
      if et.GetId(rows[i]) == id {
        return Some(i);
      }
      i := i + 1;
    }
    return None;
  }

  /** `retain(|e| e.get_id() != id)`, keeping rows in order. */
  method Retain(et: EntityType, rows: seq<Value>, id: int) returns (kept: seq<Value>)
    requires et.AreRows(rows)
    ensures kept == RemoveId(et, rows, id)
  {
    kept := [];
    var i := 0;
    while i < |rows|
      invariant 0 <= i <= |rows|
      invariant kept == RemoveId(et, rows[..i], id)
    {
      assert rows[..i + 1][..i] == rows[..i];
      if et.GetId(rows[i]) != id {
        kept := kept + [rows[i]];
      }
      i := i + 1;
    }
    assert rows[..i] == rows;
  }

  // ---------------------------------------------------------------------
  // The database object

  /** `Database`: the directory's files and the registry of stored types.
      The crate version and the digest are fixed for the program. */
  class Database {
    const version: seq<byte>
    const digest: seq<byte> -> Hash
    var files: map<string, seq<byte>>
    var storedTypes: set<Hash>

    function State(): DbState
      reads this
    {
      DbState(files, storedTypes)
    }

    /** `Database::new` over a directory listing: clearing empties the
        directory; the registry holds every fingerprint whose table file the
        scan accepts. Names that make the original scan panic are skipped. */
    constructor Open(version: seq<byte>, digest: seq<byte> -> Hash, listing: map<string, seq<byte>>, clear: bool)
      ensures this.version == version && this.digest == digest
      ensures files == (if clear then map[] else listing)
      ensures storedTypes == StoredTypes(files.Keys)
    {
      this.version := version;
      this.digest := digest;
      files := if clear then map[] else listing;
      storedTypes := StoredTypes((if clear then map[] else listing).Keys);
    }

    method RawReadAll(et: EntityType) returns (r: Result<EntityMeta>)
      requires et.Valid()
      ensures r == RawRead(version, et, State(), et.Hash(digest))
    {
      var name := FileName(et.Hash(digest));
      if name !in files {
        return Err(IoError);
      }
      var reader := new ByteReader(files[name]);
      var block :- reader.ReaderForBlock();
      r := Meta.Decode(version, et, block);
    }

    method RawWriteAll(et: EntityType, m: EntityMeta) returns (r: Result<()>)
      requires et.Valid()
      modifies this
      ensures (r, State()) == RawWrite(version, et, old(State()), et.Hash(digest), m)
    {
      var name := FileName(et.Hash(digest));
      if name !in files {
        return Err(IoError);
      }
      files := files[name := Overwrite(files[name], FileBytes(version, et, m))];
      return Ok(());
    }

    method AddNewType(et: EntityType)
      requires et.Valid()
      modifies this
      ensures State() == AddType(version, et, old(State()), et.Hash(digest))
    {
      var h := et.Hash(digest);
      var name := FileName(h);
      if name !in files {
        files := files[name := []];
      }
      var _ := RawWriteAll(et, EmptyTable());
      storedTypes := storedTypes + {h};
    }

    method Store(et: EntityType, data: Value) returns (r: Result<Value>)
      requires et.IsRow(data)
      modifies this
      ensures (r, State()) == StoreOp(version, et, et.Hash(digest), old(State()), data)
    {
      var h := et.Hash(digest);
      if h !in storedTypes {
        AddNewType(et);
      }
      var existing :- RawReadAll(et);
      if !et.generateId {
        var dup := AnyId(et, existing.entities, et.GetId(data));
        if dup {
          return Err(IdExists);
        }
      }
      var row :- NewRow(et, existing.lastId, data);
      var w := RawWriteAll(et, EntityMeta(et.GetId(row), existing.entities + [row]));
      return match w case Ok(_) => Ok(row) case Err(e) => Err(e);
    }

    method WriteAll(et: EntityType, rows: seq<Value>) returns (r: Result<()>)
      requires et.Valid() && et.AreRows(rows)
      modifies this
      ensures (r, State()) == WriteAllOp(version, et, et.Hash(digest), old(State()), rows)
    {
      var h := et.Hash(digest);
      if h !in storedTypes {
        AddNewType(et);
      }
      r := RawWriteAll(et, EntityMeta(LastId(et, rows), rows));
    }

    method ReadAll(et: EntityType) returns (r: Result<seq<Value>>)
      requires et.Valid()
      ensures r == ReadAllOp(version, et, et.Hash(digest), State())
    {
      if et.Hash(digest) !in storedTypes {
        return Err(TypeNotFound);
      }
      var m :- RawReadAll(et);
      return Ok(m.entities);
    }

    method ReadAllIds(et: EntityType) returns (r: Result<seq<int>>)
      requires et.Valid()
      ensures r == ReadAllIdsOp(version, et, et.Hash(digest), State())
    {
      var rows :- ReadAll(et);
      return Ok(Ids(et, rows));
    }

    method FindById(et: EntityType, id: int) returns (r: Result<Option<Value>>)
      requires et.Valid()
      ensures r == FindByIdOp(version, et, et.Hash(digest), State(), id)
    {
      var rows :- ReadAll(et);
      var i := FindIndex(et, rows, id);
      if i.None? {
        return Ok(None);
      }
      return Ok(Some(rows[i.value]));
    }

    method UpdateEntity(et: EntityType, entity: Value) returns (r: Result<()>)
      requires et.IsRow(entity)
      modifies this
      ensures (r, State()) == UpdateEntityOp(version, et, et.Hash(digest), old(State()), entity)
    {
      if et.Hash(digest) !in storedTypes {
        return Err(TypeNotFound);
      }
      var raw :- RawReadAll(et);
      var i := FindIndex(et, raw.entities, et.GetId(entity));
      if i.None? {
        return Err(IdNotFound);
      }
      raw := raw.(entities := raw.entities[i.value := entity]);
      r := RawWriteAll(et, raw);
    }

    method DeleteById(et: EntityType, id: int) returns (r: Result<()>)
      requires et.Valid()
      modifies this
      ensures (r, State()) == DeleteByIdOp(version, et, et.Hash(digest), old(State()), id)
    {
      if et.Hash(digest) !in storedTypes {
        return Err(TypeNotFound);
      }
      var raw :- RawReadAll(et);
      var kept := Retain(et, raw.entities, id);
      r := RawWriteAll(et, raw.(entities := kept));
    }

    method DeleteStore(et: EntityType) returns (r: Result<()>)
      requires et.Valid()
      modifies this
      ensures (r, State()) == DeleteStoreOp(et.Hash(digest), old(State()))
    {
      var h := et.Hash(digest);
      if h !in storedTypes {
        return Err(TypeNotFound);
      }
      storedTypes := storedTypes - {h};
      var name := FileName(h);
      if name !in files {
        return Err(IoError);
      }
      files := files - {name};
      return Ok(());
    }
  }
}
