/** The older table container of somedb/src/entity_meta.rs: the framed last
    id and the framed list of entities, with no version block. */
module LegacyMeta {
  import opened Bytes
  import opened DbErrors
  import opened Reader
  import opened Storable
  import opened Entity
  import opened Meta

  /** `inner_encoded`: last id then rows, each framed. */
  function LegacyInnerEncoded(et: EntityType, m: EntityMeta): seq<byte>
    requires et.Valid()
  {
    Encoded(IdValue(et, m)) + Encoded(RowsValue(m))
  }

  /** `decoded`: the last id from the first block, the rows from the second.
      The source's `decoded` returns the container itself and panics on bad
      input; each panic is `LoadError` here. */
  function LegacyDecoded(et: EntityType, c: Cursor): Result<EntityMeta>
    requires et.Valid()
  {
    var p1 :- c.TakeBlock();
    var id :- Storable.Decoded(TInt(et.IdKind()), p1.0);
    var p2 :- p1.1.TakeBlock();
    var rows :- Storable.Decoded(TVec(et.ty), p2.0);
    Ok(EntityMeta(id.n, rows.items))
  }

  method LegacyDecode(et: EntityType, reader: ByteReader) returns (r: Result<EntityMeta>)
    requires et.Valid()
    modifies reader
    ensures r == LegacyDecoded(et, old(reader.View()))
  {
    var b1 :- reader.ReaderForBlock();
    var id :- Storable.Decode(TInt(et.IdKind()), b1);
    var b2 :- reader.ReaderForBlock();
    var rows :- Storable.Decode(TVec(et.ty), b2);
    return Ok(EntityMeta(id.n, rows.items));
  }

  /** The current container is the older one behind a version block. */
  lemma VersionedIsLegacyWithVersion(version: seq<byte>, et: EntityType, m: EntityMeta)
    requires et.Valid()
    ensures Meta.InnerEncoded(version, et, m) == Encoded(VersionValue(version)) + LegacyInnerEncoded(et, m)
  {
  }

  /** `decoded(inner_encoded(m)) == m` for the older container. */
  lemma LegacyRoundTrip(et: EntityType, m: EntityMeta, c: Cursor)
    requires Valid(et, m) && |LegacyInnerEncoded(et, m)| < U32_LIMIT
    requires c.Holds(LegacyInnerEncoded(et, m))
    ensures LegacyDecoded(et, c) == Ok(m)
  {
    var id, rows := IdValue(et, m), RowsValue(m);
    TakeEncoded(c, id, Encoded(rows));
    var p1 := c.TakeBlock().value;
    Storable.DecodedInnerEncoded(TInt(et.IdKind()), id, p1.0);
    assert Encoded(rows) == Encoded(rows) + [];
    TakeEncoded(p1.1, rows, []);
    var p2 := p1.1.TakeBlock().value;
    RowsHaveType(et, m);
    Storable.DecodedInnerEncoded(TVec(et.ty), rows, p2.0);
  }
}
