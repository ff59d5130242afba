/** The table container of src/entity_meta.rs: a table file holds one
    framed `EntityMeta`, whose inner encoding is the framed crate version,
    the framed last id and the framed list of entities. */
module Meta {
  import opened Bytes
  import opened DbErrors
  import opened Reader
  import opened Storable
  import opened Entity
  import TypeHash

  /** `EntityMeta<T>`: the last id handed out and the rows, in stored order. */
  datatype EntityMeta = EntityMeta(lastId: int, entities: seq<Value>)

  /** A table of entity type `et`: an id of the id type and rows of the type. */
  predicate Valid(et: EntityType, m: EntityMeta) {
    et.Valid() && et.IdKind().InRange(m.lastId) && et.AreRows(m.entities)
  }

  /** The three values the container is made of. */
  function VersionValue(version: seq<byte>): Value {
    VStr(version)
  }

  function IdValue(et: EntityType, m: EntityMeta): Value
    requires et.Valid()
  {
    VInt(et.IdKind(), m.lastId)
  }

  function RowsValue(m: EntityMeta): Value {
    VVec(m.entities)
  }

  /** `EntityMeta::inner_encoded`: version, last id and rows, each framed,
      in that order. */
  function InnerEncoded(version: seq<byte>, et: EntityType, m: EntityMeta): seq<byte>
    requires et.Valid()
  {
    Encoded(VersionValue(version)) + Encoded(IdValue(et, m)) + Encoded(RowsValue(m))
  }

  /** The bytes a table write puts at the start of the file. */
  function FileBytes(version: seq<byte>, et: EntityType, m: EntityMeta): seq<byte>
    requires et.Valid()
  {
    Frame(InnerEncoded(version, et, m))
  }

  /** The value `InnerEncoded` frames, seen through the generic codec. */
  predicate Fits(version: seq<byte>, et: EntityType, m: EntityMeta)
    requires et.Valid()
  {
    |InnerEncoded(version, et, m)| < U32_LIMIT
  }

  /** `EntityMeta::decoded`: the first block must be a string equal to the
      version (`InvalidFileVersion` otherwise), then the last id and the rows
      come from the next two blocks; any other failure propagates. */
  function Decoded(version: seq<byte>, et: EntityType, c: Cursor): Result<EntityMeta>
    requires et.Valid()
  {
    var p1 :- c.TakeBlock();
    var s :- Storable.Decoded(TString, p1.0);
    if s.utf8 != version then Err(InvalidFileVersion)
    else
      var p2 :- p1.1.TakeBlock();
      var id :- Storable.Decoded(TInt(et.IdKind()), p2.0);
      var p3 :- p2.1.TakeBlock();
      var rows :- Storable.Decoded(TVec(et.ty), p3.0);
      Ok(EntityMeta(id.n, rows.items))
  }

  /** `EntityMeta::decoded` as the source runs it, on a reader. */
  method Decode(version: seq<byte>, et: EntityType, reader: ByteReader) returns (r: Result<EntityMeta>)
    requires et.Valid()
    modifies reader
    ensures r == Decoded(version, et, old(reader.View()))
  {
    var b1 :- reader.ReaderForBlock();
    var s :- Storable.Decode(TString, b1);
    if s.utf8 != version {
      return Err(InvalidFileVersion);
    }
    var b2 :- reader.ReaderForBlock();
    var id :- Storable.Decode(TInt(et.IdKind()), b2);
    var b3 :- reader.ReaderForBlock();
    var rows :- Storable.Decode(TVec(et.ty), b3);
    return Ok(EntityMeta(id.n, rows.items));
  }

  /** `decoded` of a window holding exactly the container written with the
      same version gives the container back. */
  lemma ContainerRoundTrip(version: seq<byte>, et: EntityType, m: EntityMeta, c: Cursor)
    requires ValidUtf8(version) && Valid(et, m) && Fits(version, et, m)
    requires c.Holds(InnerEncoded(version, et, m))
    ensures Decoded(version, et, c) == Ok(m)
  {
    var vs, id, rows := VersionValue(version), IdValue(et, m), RowsValue(m);
    InnerEncodedParts(version, et, m);
    PartsHaveTypes(version, et, m);
    PartsFit(version, et, m);
    DecodedThree(version, et, c, vs, id, rows);
  }

  lemma InnerEncodedParts(version: seq<byte>, et: EntityType, m: EntityMeta)
    requires et.Valid()
    ensures InnerEncoded(version, et, m)
      == Encoded(VersionValue(version)) + (Encoded(IdValue(et, m)) + Encoded(RowsValue(m)))
  {
  }

  lemma RowsHaveType(et: EntityType, m: EntityMeta)
    requires Valid(et, m)
    ensures HasType(RowsValue(m), TVec(et.ty))
  {
  }

  lemma PartsHaveTypes(version: seq<byte>, et: EntityType, m: EntityMeta)
    requires ValidUtf8(version) && Valid(et, m)
    ensures HasType(VersionValue(version), TString)
    ensures HasType(IdValue(et, m), TInt(et.IdKind()))
    ensures HasType(RowsValue(m), TVec(et.ty))
  {
  }

  lemma PartsFit(version: seq<byte>, et: EntityType, m: EntityMeta)
    requires et.Valid() && Fits(version, et, m)
    ensures |Storable.InnerEncoded(VersionValue(version))| < U32_LIMIT
    ensures |Storable.InnerEncoded(IdValue(et, m))| < U32_LIMIT
    ensures |Storable.InnerEncoded(RowsValue(m))| < U32_LIMIT
  {
  }

  /** Three blocks holding a string equal to the version, an id and rows of
      the entity type decode to the table they describe. */
  lemma DecodedThree(version: seq<byte>, et: EntityType, c: Cursor, vs: Value, id: Value, rows: Value)
    requires et.Valid() && vs == VStr(version)
    requires HasType(vs, TString) && HasType(id, TInt(et.IdKind())) && HasType(rows, TVec(et.ty))
    requires |Storable.InnerEncoded(vs)| < U32_LIMIT && |Storable.InnerEncoded(id)| < U32_LIMIT
    requires |Storable.InnerEncoded(rows)| < U32_LIMIT
    requires c.Holds(Encoded(vs) + (Encoded(id) + Encoded(rows)))
    ensures Decoded(version, et, c) == Ok(EntityMeta(id.n, rows.items))
  {
    TakeDecoded(TString, vs, c, Encoded(id) + Encoded(rows));
    var p1 := c.TakeBlock().value;
    TakeDecoded(TInt(et.IdKind()), id, p1.1, Encoded(rows));
    var p2 := p1.1.TakeBlock().value;
    assert Encoded(rows) == Encoded(rows) + [];
    TakeDecoded(TVec(et.ty), rows, p2.1, []);
  }

  /** A container whose first block is a well-formed string other than the
      version is refused with `InvalidFileVersion`, whatever follows. */
  lemma VersionMismatch(version: seq<byte>, other: seq<byte>, et: EntityType, c: Cursor)
    requires et.Valid() && ValidUtf8(other) && other != version && |other| < U32_LIMIT
    requires !c.AtEnd() && c.HasAt(Frame(other))
    ensures Decoded(version, et, c) == Err(InvalidFileVersion)
  {
    TakeFramed(c, other);
  }

  /** Whatever `decoded` accepts is a table of the entity type: an id of the
      id type and rows of the record type. */
  lemma DecodedValid(version: seq<byte>, et: EntityType, c: Cursor)
    requires et.Valid() && Decoded(version, et, c).Ok?
    ensures Valid(et, Decoded(version, et, c).value)
  {
    var p1 := c.TakeBlock().value;
    var p2 := p1.1.TakeBlock().value;
    var p3 := p2.1.TakeBlock().value;
    Storable.DecodedHasType(TInt(et.IdKind()), p2.0);
    Storable.DecodedHasType(TVec(et.ty), p3.0);
  }

  /** The fingerprint `EntityMeta` declares: `new` with an empty name and no
      fields, the same for every entity type. */
  function MetaTypeHash(digest: seq<byte> -> TypeHash.Hash): TypeHash.Hash {
    digest(TypeHash.Preimage([], [], []))
  }

  /** That fingerprint is the digest of no bytes at all. */
  lemma MetaTypeHashEmpty(digest: seq<byte> -> TypeHash.Hash)
    ensures MetaTypeHash(digest) == digest([])
    ensures MetaTypeHash(digest) == TypeHash.FromStr(digest, [])
  {
    TypeHash.FromStrIsFieldless(digest, []);
  }
}
