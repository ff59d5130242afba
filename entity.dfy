/** An entity type: a derived record with one integer id field, and the
    `get_id`/`set_id`/`GENERATE_ID` items the entity derive emits for it. */
module Entity {
  import opened Bytes
  import opened Storable
  import TypeHash

  /** The record type `ty`, the position of its `#[entity_id]` field, and
      whether that attribute says `auto_generate`. */
  datatype EntityType = EntityType(ty: Ty, idField: nat, generateId: bool) {

    /** A derived record whose id field has one of the integer id types. */
    predicate Valid() {
      ty.TRecord? && WellFormed(ty) && idField < |ty.fieldTypes| && ty.fieldTypes[idField].TInt?
    }

    function IdKind(): IntKind
      requires Valid()
    {
      ty.fieldTypes[idField].kind
    }

    /** A value of the entity type. */
    predicate IsRow(v: Value) {
      Valid() && HasType(v, ty)
    }

    /** Every value of `rows` is a value of the entity type. */
    predicate AreRows(rows: seq<Value>) {
      forall i | 0 <= i < |rows| :: IsRow(rows[i])
    }

    /** `get_id`. */
    function GetId(v: Value): (id: int)
      requires IsRow(v)
      ensures IdKind().InRange(id)
    {
      assert HasType(v.fields[idField], ty.fieldTypes[idField]);
      v.fields[idField].n
    }

    /** `set_id`. */
    function SetId(v: Value, id: int): (r: Value)
      requires IsRow(v) && IdKind().InRange(id)
      ensures IsRow(r)
    {
      var w := VRecord(v.fields[idField := VInt(IdKind(), id)]);
      assert forall i | 0 <= i < |w.fields| :: HasType(w.fields[i], ty.fieldTypes[i]);
      w
    }

    /** The type's fingerprint, which names its table file. */
    function Hash(digest: seq<byte> -> TypeHash.Hash): TypeHash.Hash
      requires Valid()
    {
      TypeHashOf(digest, ty)
    }
  }

  /** `set_id` then `get_id` gives the id set, and no other field changes. */
  lemma GetIdSetId(et: EntityType, v: Value, id: int)
    requires et.IsRow(v) && et.IdKind().InRange(id)
    ensures et.GetId(et.SetId(v, id)) == id
    ensures |et.SetId(v, id).fields| == |v.fields|
    ensures forall i | 0 <= i < |v.fields| && i != et.idField :: et.SetId(v, id).fields[i] == v.fields[i]
  {
  }

  /** Setting the id a row already has changes nothing. */
  lemma SetIdGetId(et: EntityType, v: Value)
    requires et.IsRow(v)
    ensures et.SetId(v, et.GetId(v)) == v
  {
    assert HasType(v.fields[et.idField], et.ty.fieldTypes[et.idField]);
    assert v.fields[et.idField] == VInt(et.IdKind(), et.GetId(v));
    assert v.fields[et.idField := v.fields[et.idField]] == v.fields;
  }
}
