/** The `Storable` codec of somedb/src/storable.rs and the record codec the
    entity derive emits: every value is written as a length-prefixed frame,
    integers as fixed-width big-endian bytes, strings as their UTF-8 bytes,
    vectors and records as back-to-back frames of their parts. */
module Storable {
  import opened Bytes
  import opened Seqs
  import opened DbErrors
  import opened Reader
  import TypeHash

  /** The twelve integer types that implement `Storable`. `usize` and `isize`
      are taken at their 64-bit width. */
  datatype IntKind = U8 | U16 | U32 | U64 | U128 | Usize | I8 | I16 | I32 | I64 | I128 | Isize {

    /** Bytes of `to_be_bytes`. */
    function Width(): nat {
      match this
      case U8 | I8 => 1
      case U16 | I16 => 2
      case U32 | I32 => 4
      case U64 | I64 | Usize | Isize => 8
      case U128 | I128 => 16
    }

    predicate Signed() {
      I8? || I16? || I32? || I64? || I128? || Isize?
    }

    function Min(): int {
      if Signed() then -(Pow256(Width()) / 2) else 0
    }

    function Max(): int {
      if Signed() then Pow256(Width()) / 2 - 1 else Pow256(Width()) - 1
    }

    predicate InRange(n: int) {
      Min() <= n <= Max()
    }

    /** The bounds spelled out in the width and the signedness. */
    lemma Bounds()
      ensures Signed() ==> Min() == -(Pow256(Width()) / 2) && Max() == Pow256(Width()) / 2 - 1
      ensures !Signed() ==> Min() == 0 && Max() == Pow256(Width()) - 1
    {
    }

    /** `stringify!($ty)`: the name the type's fingerprint digests. */
    function Name(): string {
      match this
      case U8 => "u8"
      case U16 => "u16"
      case U32 => "u32"
      case U64 => "u64"
      case U128 => "u128"
      case Usize => "usize"
      case I8 => "i8"
      case I16 => "i16"
      case I32 => "i32"
      case I64 => "i64"
      case I128 => "i128"
      case Isize => "isize"
    }
  }

  /** The shapes a `Storable` type can take: an integer type, `String`,
      `Vec<T>`, or a derived record (its type name, field names and field
      types, in declaration order). */
  datatype Ty =
    | TInt(kind: IntKind)
    | TString
    | TVec(elem: Ty)
    | TRecord(name: seq<byte>, fieldNames: seq<seq<byte>>, fieldTypes: seq<Ty>)

  /** The derive emits one field type per field name, all the way down. */
  predicate WellFormed(ty: Ty) {
    match ty
    case TInt(_) => true
    case TString => true
    case TVec(e) => WellFormed(e)
    case TRecord(_, fns, fts) =>
      |fns| == |fts| && forall i | 0 <= i < |fts| :: WellFormed(fts[i])
  }

  /** A value of some `Storable` type. A string is held as its UTF-8 bytes. */
  datatype Value =
    | VInt(kind: IntKind, n: int)
    | VStr(utf8: seq<byte>)
    | VVec(items: seq<Value>)
    | VRecord(fields: seq<Value>)

  /** `v` is a value of type `ty`: integers in range, strings well-formed
      UTF-8, every element and field of its declared type. */
  predicate HasType(v: Value, ty: Ty)
    decreases v
  {
    match ty
    case TInt(k) => v.VInt? && v.kind == k && k.InRange(v.n)
    case TString => v.VStr? && ValidUtf8(v.utf8)
    case TVec(e) => v.VVec? && forall i | 0 <= i < |v.items| :: HasType(v.items[i], e)
    case TRecord(_, _, fts) =>
      v.VRecord? && |v.fields| == |fts|
      && forall i | 0 <= i < |fts| :: HasType(v.fields[i], fts[i])
  }

  /** `to_be_bytes`: the value modulo 256^w, so a negative value is written
      in two's complement. */
  function IntBytes(k: IntKind, n: int): (r: seq<byte>)
    ensures |r| == k.Width()
  {
    ToBE(n % Pow256(k.Width()), k.Width())
  }

  /** `from_be_bytes`: the unsigned reading of the bytes, taken back below
      zero for a signed type when its top bit is set. */
  function IntFromBytes(k: IntKind, b: seq<byte>): int
    requires |b| == k.Width()
  {
    Reading(k.Width(), k.Signed(), FromBE(b))
  }

  /** The value of a `w`-byte type whose unsigned reading is `u`: `u` itself,
      or, for a signed type with the top bit set, `u` taken below zero. */
  function Reading(w: nat, signed: bool, u: int): int {
    if signed && u >= Pow256(w) / 2 then u - Pow256(w) else u
  }

  /** `Storable::inner_encoded`. */
  function InnerEncoded(v: Value): seq<byte>
    decreases v
  {
    match v
    case VInt(k, n) => IntBytes(k, n)
    case VStr(u) => u
    case VVec(items) =>
      Concat(seq(|items|, i requires 0 <= i < |items| => Frame(InnerEncoded(items[i]))))
    case VRecord(fields) =>
      Concat(seq(|fields|, i requires 0 <= i < |fields| => Frame(InnerEncoded(fields[i]))))
  }

  /** `Storable::encoded`: the framed inner encoding. */
  function Encoded(v: Value): (r: seq<byte>)
    ensures |r| == 4 + |InnerEncoded(v)|
    ensures r[4..] == InnerEncoded(v)
  {
    Frame(InnerEncoded(v))
  }

  /** `Storable::decoded` over the window of cursor `c`. Every panic of the
      source (a wrong-width integer slice, bytes that are not UTF-8, a block
      prefix or slice past the buffer) is `LoadError`. */
  function Decoded(ty: Ty, c: Cursor): Result<Value>
    decreases ty, 1
  {
    match ty
    case TInt(k) =>
      var b :- c.ByteSlice();
      if |b| == k.Width() then Ok(VInt(k, IntFromBytes(k, b))) else Err(LoadError)
    case TString =>
      var b :- c.ByteSlice();
      if ValidUtf8(b) then Ok(VStr(b)) else Err(LoadError)
    case TVec(_) =>
      var items :- DecodedItems(ty, c);
      Ok(VVec(items))
    case TRecord(_, _, _) =>
      var fields :- DecodedFields(ty, 0, c);
      Ok(VRecord(fields))
  }

  /** The `Vec` decode loop: one element per block until the reader is exhausted. */
  function DecodedItems(ty: Ty, c: Cursor): Result<seq<Value>>
    requires ty.TVec?
    decreases ty, 0, c.Remaining()
  {
    if c.AtEnd() then Ok([])
    else
      var p :- c.TakeBlock();
      TakeBlockProgress(c);
      var x :- Decoded(ty.elem, p.0);
      var rest :- DecodedItems(ty, p.1);
      Ok([x] + rest)
  }

  /** The derived record decode: field `i` onwards, one block each, in
      declaration order; nothing checks that the reader is then exhausted. */
  function DecodedFields(ty: Ty, i: nat, c: Cursor): Result<seq<Value>>
    requires ty.TRecord? && i <= |ty.fieldTypes|
    decreases ty, 0, |ty.fieldTypes| - i
  {
    if i == |ty.fieldTypes| then Ok([])
    else
      var p :- c.TakeBlock();
      var f :- Decoded(ty.fieldTypes[i], p.0);
      var rest :- DecodedFields(ty, i + 1, p.1);
      Ok([f] + rest)
  }

  /** The outcome of a loop that has collected `done` so far and will go on
      to produce `rest`. */
  function Prepend(done: seq<Value>, rest: Result<seq<Value>>): Result<seq<Value>> {
    match rest
    case Ok(s) => Ok(done + s)
    case Err(e) => Err(e)
  }

  /** Moving one decoded element from what is still to come to what is
      collected leaves the loop's outcome unchanged. */
  lemma PrependCons(done: seq<Value>, x: Value, rest: Result<seq<Value>>)
    ensures Prepend(done, if rest.Ok? then Ok([x] + rest.value) else rest)
         == Prepend(done + [x], rest)
  {
    if rest.Ok? {
      assert done + ([x] + rest.value) == done + [x] + rest.value;
    }
  }

  lemma PrependNone(rest: Result<seq<Value>>)
    ensures Prepend([], rest) == rest
  {
    if rest.Ok? {
      assert [] + rest.value == rest.value;
    }
  }

  /** `decoded` as the source runs it: consumes the reader's window. */
  method Decode(ty: Ty, reader: ByteReader) returns (r: Result<Value>)
    modifies reader
    decreases ty, 1
    ensures r == Decoded(ty, old(reader.View()))
  {
    match ty
    case TInt(k) =>
      var b :- reader.ReadByteSlice();
      if |b| != k.Width() {
        return Err(LoadError);
      }
      return Ok(VInt(k, IntFromBytes(k, b)));
    case TString =>
      var b :- reader.ReadByteSlice();
      if !ValidUtf8(b) {
        return Err(LoadError);
      }
      return Ok(VStr(b));
    case TVec(_) =>
      var items :- DecodeItems(ty, reader);
      return Ok(VVec(items));
    case TRecord(_, _, _) =>
      var fields :- DecodeFields(ty, reader);
      return Ok(VRecord(fields));
  }

  /** `Vec::decoded`: `while !reader.is_at_end()`, decode the next block and push it. */
  method DecodeItems(ty: Ty, reader: ByteReader) returns (r: Result<seq<Value>>)
    requires ty.TVec?
    modifies reader
    decreases ty, 0
    ensures r == DecodedItems(ty, old(reader.View()))
  {
    ghost var c0 := reader.View();
    var res: seq<Value> := [];
    PrependNone(DecodedItems(ty, c0));
    while !reader.IsAtEnd()
      invariant reader.src == c0.src && reader.end == c0.end
      invariant DecodedItems(ty, c0) == Prepend(res, DecodedItems(ty, reader.View()))
      decreases reader.View().Remaining()
    {
      ghost var c := reader.View();
      var child :- reader.ReaderForBlock();
      TakeBlockProgress(c);
      var x :- Decode(ty.elem, child);
      PrependCons(res, x, DecodedItems(ty, reader.View()));
      res := res + [x];
    }
    assert res + [] == res;
    return Ok(res);
  }

  /** The derived `decoded`: one `reader_for_block` per field, in order. */
  method DecodeFields(ty: Ty, reader: ByteReader) returns (r: Result<seq<Value>>)
    requires ty.TRecord?
    modifies reader
    decreases ty, 0
    ensures r == DecodedFields(ty, 0, old(reader.View()))
  {
    ghost var c0 := reader.View();
    var res: seq<Value> := [];
    PrependNone(DecodedFields(ty, 0, c0));
    for i := 0 to |ty.fieldTypes|
      invariant reader.src == c0.src
      invariant DecodedFields(ty, 0, c0) == Prepend(res, DecodedFields(ty, i, reader.View()))
    {
      var child :- reader.ReaderForBlock();
      var f :- Decode(ty.fieldTypes[i], child);
      PrependCons(res, f, DecodedFields(ty, i + 1, reader.View()));
      res := res + [f];
    }
    assert res + [] == res;
    return Ok(res);
  }

  /** `Storable::type_hash`: integers and `String` digest their type name
      alone (`TypeHash::from_str`); `Vec<T>` and derived records digest, with
      `TypeHash::new`, their name, then each field name and field fingerprint. */
  function TypeHashOf(digest: seq<byte> -> TypeHash.Hash, ty: Ty): TypeHash.Hash
    requires WellFormed(ty)
    decreases ty, 2
  {
    digest(FingerprintInput(digest, ty))
  }

  /** The bytes `type_hash` hands to the digest. */
  function FingerprintInput(digest: seq<byte> -> TypeHash.Hash, ty: Ty): seq<byte>
    requires WellFormed(ty)
    decreases ty, 1
  {
    match ty
    case TInt(k) => AsciiBytes(k.Name())
    case TString => AsciiBytes("String")
    case TVec(e) =>
      TypeHash.Preimage(AsciiBytes("Vec"), [AsciiBytes("inner")], [TypeHashOf(digest, e)])
    case TRecord(name, fns, fts) =>
      TypeHash.Preimage(name, fns, FieldHashes(digest, ty))
  }

  /** The fingerprints of a record's field types, in declaration order. */
  function FieldHashes(digest: seq<byte> -> TypeHash.Hash, ty: Ty): (r: seq<TypeHash.Hash>)
    requires ty.TRecord? && WellFormed(ty)
    ensures |r| == |ty.fieldTypes|
    decreases ty, 0
  {
    var fts := ty.fieldTypes;
    seq(|fts|, i requires 0 <= i < |fts| => TypeHashOf(digest, fts[i]))
  }

  /** Leaf types digest their name alone, and `from_str` of a name is `new`
      of that name with no fields. */
  lemma LeafTypeHash(digest: seq<byte> -> TypeHash.Hash, ty: Ty)
    requires ty.TInt? || ty.TString?
    ensures ty.TInt? ==> TypeHashOf(digest, ty) == TypeHash.FromStr(digest, AsciiBytes(ty.kind.Name()))
    ensures ty.TString? ==> TypeHashOf(digest, ty) == TypeHash.FromStr(digest, AsciiBytes("String"))
  {
    var n := if ty.TInt? then AsciiBytes(ty.kind.Name()) else AsciiBytes("String");
    TypeHash.FromStrIsFieldless(digest, n);
  }

  /** `Vec<T>` digests `"Vec"`, `"inner"` and the fingerprint of `T`, back to back. */
  lemma VecTypeHash(digest: seq<byte> -> TypeHash.Hash, e: Ty)
    requires WellFormed(e)
    ensures TypeHashOf(digest, TVec(e)) == digest(AsciiBytes("Vec") + AsciiBytes("inner") + TypeHashOf(digest, e))
  {
    TypeHash.OneFieldPreimage(AsciiBytes("Vec"), AsciiBytes("inner"), TypeHashOf(digest, e));
  }

  /** A record with one field digests its name, the field name and the
      field type's fingerprint, back to back. */
  lemma OneFieldTypeHash(digest: seq<byte> -> TypeHash.Hash, name: seq<byte>, field: seq<byte>, e: Ty)
    requires WellFormed(e)
    ensures TypeHashOf(digest, TRecord(name, [field], [e])) == digest(name + field + TypeHashOf(digest, e))
  {
    assert FieldHashes(digest, TRecord(name, [field], [e])) == [TypeHashOf(digest, e)];
    TypeHash.OneFieldPreimage(name, field, TypeHashOf(digest, e));
  }

  /** The `Vec` fingerprint as written collides with a record's: `Vec<T>`
      digests `"Vec" + "inner" + type_hash(T)`, which is also what a record
      named `Ve` with the one field `cinner: T` digests. The two types share a
      fingerprint whatever the digest, and so share one table file. */
  lemma VecInputCollides(digest: seq<byte> -> TypeHash.Hash, e: Ty)
    requires WellFormed(e)
    ensures var ve := TRecord(AsciiBytes("Ve"), [AsciiBytes("cinner")], [e]);
      && TVec(e) != ve && TypeHashOf(digest, TVec(e)) == TypeHashOf(digest, ve)
  {
    VecTypeHash(digest, e);
    OneFieldTypeHash(digest, AsciiBytes("Ve"), AsciiBytes("cinner"), e);
    SameConcatenation("Vec", "inner", "Ve", "cinner");
  }

  /** Two splits of one ASCII string give the same bytes once concatenated. */
  lemma SameConcatenation(a: string, b: string, c: string, d: string)
    requires IsAscii(a) && IsAscii(b) && IsAscii(c) && IsAscii(d) && a + b == c + d
    ensures AsciiBytes(a) + AsciiBytes(b) == AsciiBytes(c) + AsciiBytes(d)
  {
    AsciiBytesAppend(a, b);
    AsciiBytesAppend(c, d);
  }

  /** Derived record fingerprints as written collide: in any module `path`,
      the record `path::A { bc: T }` and the record `path::Ab { c: T }` digest
      the same bytes. */
  lemma RecordInputCollides(digest: seq<byte> -> TypeHash.Hash, path: seq<byte>, e: Ty)
    requires WellFormed(e)
    ensures var a := TRecord(path + AsciiBytes("A"), [AsciiBytes("bc")], [e]);
      var ab := TRecord(path + AsciiBytes("Ab"), [AsciiBytes("c")], [e]);
      && a != ab && TypeHashOf(digest, a) == TypeHashOf(digest, ab)
  {
    OneFieldTypeHash(digest, path + AsciiBytes("A"), AsciiBytes("bc"), e);
    OneFieldTypeHash(digest, path + AsciiBytes("Ab"), AsciiBytes("c"), e);
    SameConcatenation("A", "bc", "Ab", "c");
    assert path + AsciiBytes("A") + AsciiBytes("bc") == path + (AsciiBytes("A") + AsciiBytes("bc"));
    assert path + AsciiBytes("Ab") + AsciiBytes("c") == path + (AsciiBytes("Ab") + AsciiBytes("c"));
    assert |path + AsciiBytes("A")| != |path + AsciiBytes("Ab")|;
  }

  // ---------------------------------------------------------------------
  // Integers

  lemma Pow256Half(w: nat)
    requires w > 0
    ensures Pow256(w) == 2 * (Pow256(w) / 2) && Pow256(w) / 2 > 0
  {
  }

  /** Reduction modulo `p = 2h` of a value in the signed range `[-h, h)`. */
  lemma ModSigned(n: int, p: int, h: int)
    requires p == 2 * h && h > 0 && -h <= n < h
    ensures n >= 0 ==> n % p == n
    ensures n < 0 ==> n % p == n + p
  {
    if n >= 0 {
      ModUnique(n, p, 0, n);
    } else {
      ModUnique(n, p, -1, n + p);
    }
  }

  lemma ModUnsigned(n: int, p: int)
    requires 0 <= n < p
    ensures n % p == n
  {
    ModUnique(n, p, 0, n);
  }

  lemma MulAwayFromZero(x: int, p: int)
    requires p > 0
    ensures x >= 1 ==> x * p >= p
    ensures x <= -1 ==> x * p <= -p
  {
    if x >= 1 {
      assert x * p == p + (x - 1) * p;
    } else if x <= -1 {
      assert x * p == -p + (x + 1) * p;
    }
  }

  /** The remainder is the unique `r` in `[0, p)` with `n == q * p + r`. */
  lemma ModUnique(n: int, p: int, q: int, r: int)
    requires p > 0 && n == q * p + r && 0 <= r < p
    ensures n % p == r
  {
    var d := n / p;
    var m := n % p;
    assert n == d * p + m;
    assert (d - q) * p == r - m;
    MulAwayFromZero(d - q, p);
  }

  /** `from_be_bytes(to_be_bytes(n)) == n` for every value of the type. */
  lemma IntRoundTrip(k: IntKind, n: int)
    requires k.InRange(n)
    ensures IntFromBytes(k, IntBytes(k, n)) == n
  {
    k.Bounds();
    ReadBack(k.Width(), k.Signed(), n);
  }

  /** The round trip for a width `w` and a signedness, with the type left out. */
  lemma ReadBack(w: nat, signed: bool, n: int)
    requires w > 0
    requires signed ==> -(Pow256(w) / 2) <= n < Pow256(w) / 2
    requires !signed ==> 0 <= n < Pow256(w)
    ensures Reading(w, signed, FromBE(ToBE(n % Pow256(w), w))) == n
  {
    var p := Pow256(w);
    Pow256Half(w);
    if signed {
      ModSigned(n, p, p / 2);
    } else {
      ModUnsigned(n, p);
    }
    FromBEToBE(n % p, w);
  }

  /** The converse: every byte string of the type's width is the encoding of
      the value it decodes to, and that value is in range. */
  lemma IntFromBytesRoundTrip(k: IntKind, b: seq<byte>)
    requires |b| == k.Width()
    ensures IntBytes(k, IntFromBytes(k, b)) == b
  {
    var w := k.Width();
    var u := FromBE(b);
    var n := IntFromBytes(k, b);
    ReadingAt(w, k.Signed(), u);
    assert IntBytes(k, n) == ToBE(u, w);
    ToBEFromBE(b);
  }

  lemma IntFromBytesInRange(k: IntKind, b: seq<byte>)
    requires |b| == k.Width()
    ensures k.InRange(IntFromBytes(k, b))
  {
    ReadingAt(k.Width(), k.Signed(), FromBE(b));
    k.Bounds();
  }

  /** The reading of an unsigned `u < p` as a value of a `p`-valued type:
      within its bounds, and congruent to `u`. */
  lemma ReadingInRange(u: int, p: int, signed: bool, n: int)
    requires 0 <= u < p && p == 2 * (p / 2) && p / 2 > 0
    requires n == if signed && u >= p / 2 then u - p else u
    ensures signed ==> -(p / 2) <= n <= p / 2 - 1
    ensures !signed ==> 0 <= n <= p - 1
    ensures n % p == u
  {
    if signed && u >= p / 2 {
      ModSigned(n, p, p / 2);
    } else {
      ModUnsigned(u, p);
    }
  }

  /** `ReadingInRange` for a width `w` and a signedness, with the type left out. */
  lemma ReadingAt(w: nat, signed: bool, u: int)
    requires w > 0 && 0 <= u < Pow256(w)
    ensures signed ==> -(Pow256(w) / 2) <= Reading(w, signed, u) <= Pow256(w) / 2 - 1
    ensures !signed ==> 0 <= Reading(w, signed, u) <= Pow256(w) - 1
    ensures Reading(w, signed, u) % Pow256(w) == u
  {
    Pow256Half(w);
    ReadingInRange(u, Pow256(w), signed, Reading(w, signed, u));
  }

  // ---------------------------------------------------------------------
  // Round trip

  /** The frames of a list of values, one per value. */
  function Frames(vs: seq<Value>): (r: seq<seq<byte>>)
    ensures |r| == |vs|
    ensures forall i | 0 <= i < |vs| :: r[i] == Frame(InnerEncoded(vs[i]))
  {
    seq(|vs|, i requires 0 <= i < |vs| => Frame(InnerEncoded(vs[i])))
  }

  lemma InnerEncodedParts(v: Value)
    ensures v.VVec? ==> InnerEncoded(v) == Concat(Frames(v.items))
    ensures v.VRecord? ==> InnerEncoded(v) == Concat(Frames(v.fields))
  {
  }

  /** `Vec` inner encoding has no count: an empty vector is the frame of
      nothing, four zero bytes. */
  lemma EmptyVecEncoded()
    ensures Encoded(VVec([])) == [0, 0, 0, 0]
  {
    assert InnerEncoded(VVec([])) == Concat([]) == [];
    ByteRoundTrip(0);
  }

  /** Dropping the first `k` parts of a concatenation drops a prefix. */
  lemma ConcatSuffix(parts: seq<seq<byte>>, k: nat)
    requires k < |parts|
    ensures Concat(parts[k..]) == parts[k] + Concat(parts[k + 1..])
    ensures |Concat(parts[k..])| <= |Concat(parts)|
  {
    assert parts[k..][1..] == parts[k + 1..];
    assert parts == parts[..k] + parts[k..];
    ConcatAppend(parts[..k], parts[k..]);
  }

  /** Decoding the window that holds exactly `inner_encoded(v)` gives `v`
      back, for every value of the type whose encoding fits the u32 prefix. */
  lemma {:induction false} DecodedInnerEncoded(ty: Ty, v: Value, c: Cursor)
    requires HasType(v, ty)
    requires |InnerEncoded(v)| < U32_LIMIT
    requires c.Holds(InnerEncoded(v))
    ensures Decoded(ty, c) == Ok(v)
    decreases v, 1
  {
    assert c.src[c.start..c.end] == InnerEncoded(v);
    match ty
    case TInt(k) =>
      IntRoundTrip(k, v.n);
    case TString =>
    case TVec(_) =>
      InnerEncodedParts(v);
      assert Frames(v.items)[0..] == Frames(v.items);
      DecodedItemsEncoded(ty, v, 0, c);
      assert v.items[0..] == v.items;
    case TRecord(_, _, _) =>
      InnerEncodedParts(v);
      assert Frames(v.fields)[0..] == Frames(v.fields);
      DecodedFieldsEncoded(ty, v, 0, c);
      assert v.fields[0..] == v.fields;
  }

  /** Taking a block off a window holding the concatenated frames
      `parts[k..]` yields the payload of `parts[k]` and leaves the rest. */
  lemma TakeFramedPart(c: Cursor, parts: seq<seq<byte>>, k: nat, payload: seq<byte>)
    requires k < |parts| && parts[k] == Frame(payload)
    requires |Concat(parts)| < U32_LIMIT
    requires c.Holds(Concat(parts[k..]))
    ensures c.TakeBlock().Ok?
    ensures c.TakeBlock().value.0.Holds(payload)
    ensures c.TakeBlock().value.1.Holds(Concat(parts[k + 1..]))
    ensures |payload| < |Concat(parts)|
  {
    ConcatSuffix(parts, k);
    HoldsSplit(c, Frame(payload), Concat(parts[k + 1..]));
    TakeFramed(c, payload);
  }

  /** The `Vec` decode loop stops on an empty window. */
  lemma DecodedItemsEnd(ty: Ty, c: Cursor)
    requires ty.TVec? && c.Holds(Concat([]))
    ensures DecodedItems(ty, c) == Ok([])
  {
  }

  /** One turn of the `Vec` decode loop: the first block's element, then the rest. */
  lemma DecodedItemsStep(ty: Ty, c: Cursor, x: Value, rest: seq<Value>)
    requires ty.TVec? && !c.AtEnd() && c.TakeBlock().Ok?
    requires Decoded(ty.elem, c.TakeBlock().value.0) == Ok(x)
    requires DecodedItems(ty, c.TakeBlock().value.1) == Ok(rest)
    ensures DecodedItems(ty, c) == Ok([x] + rest)
  {
  }

  lemma {:induction false} DecodedItemsEncoded(ty: Ty, v: Value, k: nat, c: Cursor)
    requires ty.TVec? && HasType(v, ty) && k <= |v.items|
    requires |InnerEncoded(v)| < U32_LIMIT
    requires c.Holds(Concat(Frames(v.items)[k..]))
    ensures DecodedItems(ty, c) == Ok(v.items[k..])
    decreases v, 0, |v.items| - k
  {
    var parts := Frames(v.items);
    InnerEncodedParts(v);
    if k == |v.items| {
      assert parts[k..] == [];
      DecodedItemsEnd(ty, c);
      assert v.items[k..] == [];
    } else {
      var x := v.items[k];
      var payload := InnerEncoded(x);
      TakeFramedPart(c, parts, k, payload);
      var p := c.TakeBlock().value;
      assert !c.AtEnd();
      assert HasType(x, ty.elem) && |payload| < U32_LIMIT;
      DecodedInnerEncoded(ty.elem, x, p.0);
      DecodedItemsEncoded(ty, v, k + 1, p.1);
      DecodedItemsStep(ty, c, x, v.items[k + 1..]);
      SliceCons(v.items, k);
    }
  }

  /** One field of the record decode: its block's value, then the later fields. */
  lemma DecodedFieldsStep(ty: Ty, i: nat, c: Cursor, x: Value, rest: seq<Value>)
    requires ty.TRecord? && i < |ty.fieldTypes| && c.TakeBlock().Ok?
    requires Decoded(ty.fieldTypes[i], c.TakeBlock().value.0) == Ok(x)
    requires DecodedFields(ty, i + 1, c.TakeBlock().value.1) == Ok(rest)
    ensures DecodedFields(ty, i, c) == Ok([x] + rest)
  {
  }

  lemma {:induction false} DecodedFieldsEncoded(ty: Ty, v: Value, k: nat, c: Cursor)
    requires ty.TRecord? && HasType(v, ty) && k <= |v.fields|
    requires |InnerEncoded(v)| < U32_LIMIT
    requires c.Holds(Concat(Frames(v.fields)[k..]))
    ensures DecodedFields(ty, k, c) == Ok(v.fields[k..])
    decreases v, 0, |v.fields| - k
  {
    var parts := Frames(v.fields);
    InnerEncodedParts(v);
    if k < |v.fields| {
      var x := v.fields[k];
      var payload := InnerEncoded(x);
      TakeFramedPart(c, parts, k, payload);
      var p := c.TakeBlock().value;
      assert HasType(x, ty.fieldTypes[k]) && |payload| < U32_LIMIT;
      DecodedInnerEncoded(ty.fieldTypes[k], x, p.0);
      DecodedFieldsEncoded(ty, v, k + 1, p.1);
      DecodedFieldsStep(ty, k, c, x, v.fields[k + 1..]);
      SliceCons(v.fields, k);
    } else {
      assert v.fields[k..] == [];
    }
  }

  /** A window that starts with the encoding of `v` hands out a block
      holding exactly `inner_encoded(v)` and resumes right after it. */
  lemma TakeEncoded(c: Cursor, v: Value, rest: seq<byte>)
    requires |InnerEncoded(v)| < U32_LIMIT
    requires c.Holds(Encoded(v) + rest)
    ensures c.TakeBlock().Ok?
    ensures c.TakeBlock().value.0.Holds(InnerEncoded(v))
    ensures c.TakeBlock().value.1.Holds(rest)
  {
    HoldsSplit(c, Encoded(v), rest);
    TakeFramed(c, InnerEncoded(v));
  }

  /** The block a window starts with decodes to the value it encodes, and
      the window resumes right after it. */
  lemma TakeDecoded(ty: Ty, v: Value, c: Cursor, rest: seq<byte>)
    requires HasType(v, ty) && |InnerEncoded(v)| < U32_LIMIT
    requires c.Holds(Encoded(v) + rest)
    ensures c.TakeBlock().Ok?
    ensures Decoded(ty, c.TakeBlock().value.0) == Ok(v)
    ensures c.TakeBlock().value.1.Holds(rest)
  {
    TakeEncoded(c, v, rest);
    DecodedInnerEncoded(ty, v, c.TakeBlock().value.0);
  }

  /** `decoded(encoded(v)) == v` where the encoding is read as a block, as
      every caller reads it: the block's window is exactly the inner encoding. */
  lemma EncodedRoundTrip(ty: Ty, v: Value, src: seq<byte>)
    requires HasType(v, ty) && |InnerEncoded(v)| < U32_LIMIT
    ensures var c := Cursor(Encoded(v) + src, 0, |Encoded(v) + src|);
      && c.TakeBlock().Ok?
      && Decoded(ty, c.TakeBlock().value.0) == Ok(v)
  {
    var c := Cursor(Encoded(v) + src, 0, |Encoded(v) + src|);
    assert c.src[0..|Encoded(v)|] == Encoded(v);
    TakeFramed(c, InnerEncoded(v));
    DecodedInnerEncoded(ty, v, c.TakeBlock().value.0);
  }

  // ---------------------------------------------------------------------
  // Soundness

  /** Whatever decodes successfully is a value of the type it was decoded as. */
  lemma {:induction false} DecodedHasType(ty: Ty, c: Cursor)
    requires Decoded(ty, c).Ok?
    ensures HasType(Decoded(ty, c).value, ty)
    decreases ty, 1
  {
    match ty
    case TInt(k) =>
      IntFromBytesInRange(k, c.ByteSlice().value);
    case TString =>
    case TVec(_) =>
      DecodedItemsHaveType(ty, c);
    case TRecord(_, _, _) =>
      DecodedFieldsHaveType(ty, 0, c);
  }

  lemma {:induction false} DecodedItemsHaveType(ty: Ty, c: Cursor)
    requires ty.TVec? && DecodedItems(ty, c).Ok?
    ensures forall i | 0 <= i < |DecodedItems(ty, c).value| :: HasType(DecodedItems(ty, c).value[i], ty.elem)
    decreases ty, 0, c.Remaining()
  {
    if !c.AtEnd() {
      var p := c.TakeBlock().value;
      TakeBlockProgress(c);
      DecodedHasType(ty.elem, p.0);
      DecodedItemsHaveType(ty, p.1);
    }
  }

  lemma {:induction false} DecodedFieldsHaveType(ty: Ty, i: nat, c: Cursor)
    requires ty.TRecord? && i <= |ty.fieldTypes| && DecodedFields(ty, i, c).Ok?
    ensures |DecodedFields(ty, i, c).value| == |ty.fieldTypes| - i
    ensures forall j | 0 <= j < |ty.fieldTypes| - i ::
      HasType(DecodedFields(ty, i, c).value[j], ty.fieldTypes[i + j])
    decreases ty, 0, |ty.fieldTypes| - i
  {
    if i < |ty.fieldTypes| {
      var p := c.TakeBlock().value;
      var f := Decoded(ty.fieldTypes[i], p.0).value;
      var rest := DecodedFields(ty, i + 1, p.1).value;
      assert DecodedFields(ty, i, c).value == [f] + rest;
      DecodedHasType(ty.fieldTypes[i], p.0);
      DecodedFieldsHaveType(ty, i + 1, p.1);
      forall j | 0 <= j < |ty.fieldTypes| - i
        ensures HasType(([f] + rest)[j], ty.fieldTypes[i + j])
      {
        if j == 0 {
          assert ([f] + rest)[0] == f;
        } else {
          assert ([f] + rest)[j] == rest[j - 1];
          assert ty.fieldTypes[i + j] == ty.fieldTypes[(i + 1) + (j - 1)];
        }
      }
    }
  }
}
