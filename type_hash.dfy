/** Schema fingerprints of src/type_hash.rs: a 20-byte digest of a type's
    name and fields, and its base64url spelling (the URL- and filename-safe
    alphabet of section 5 of RFC 4648, with `=` padding) used as a file name. */
module TypeHash {
  import opened Bytes
  import opened Seqs
  import opened DbErrors
  import opened Reader

  const HASH_LEN: nat := 20

  /** `TypeHash { hash: [u8; 20] }`. */
  type Hash = h: seq<byte> | |h| == HASH_LEN
    witness seq(HASH_LEN, i => 0)

  /** The digest primitive of src/sha.rs is not part of this model: it enters as
      a function of the concatenation of the bytes fed to it. `Sha` is the
      running state, the bytes fed so far. The routine of src/sha.rs behaves
      so only while everything fed stays inside its first 64-byte block: an
      update that crosses the block boundary starts its copy loop again from
      the first byte of the data instead of the first byte not yet consumed. */
  datatype Sha = Sha(fed: seq<byte>) {
    function Update(data: seq<byte>): Sha {
      Sha(fed + data)
    }

    function Finalize(digest: seq<byte> -> Hash): Hash {
      digest(fed)
    }
  }

  function NewSha(): Sha {
    Sha([])
  }

  // ---------------------------------------------------------------------
  // Fingerprints

  /** What `TypeHash::new` feeds the digest: the type name, then each field
      name followed by that field type's 20 bytes, with nothing between them. */
  function Preimage(typeName: seq<byte>, fieldNames: seq<seq<byte>>, fieldTypes: seq<Hash>): (r: seq<byte>)
    requires |fieldNames| <= |fieldTypes|
    decreases |fieldNames|
  {
    if fieldNames == [] then typeName
    else Preimage(typeName, fieldNames[..|fieldNames| - 1], fieldTypes)
         + fieldNames[|fieldNames| - 1] + fieldTypes[|fieldNames| - 1]
  }

  /** `TypeHash::new` as written: a `while` loop over the field names that
      feeds name and field type in turn. */
  method New(digest: seq<byte> -> Hash, typeName: seq<byte>, fieldNames: seq<seq<byte>>, fieldTypes: seq<Hash>)
    returns (h: Hash)
    requires |fieldNames| <= |fieldTypes|
    ensures h == digest(Preimage(typeName, fieldNames, fieldTypes))
  {
    var sha := NewSha().Update(typeName);
    var i := 0;
    while i < |fieldNames|
      invariant i <= |fieldNames|
      invariant sha.fed == Preimage(typeName, fieldNames[..i], fieldTypes)
    {
      assert fieldNames[..i + 1][..i] == fieldNames[..i];
      sha := sha.Update(fieldNames[i]);
      sha := sha.Update(fieldTypes[i]);
      i := i + 1;
    }
    assert fieldNames[..i] == fieldNames;
    h := sha.Finalize(digest);
  }

  /** `TypeHash::from_str`: the digest of the bytes alone. */
  function FromStr(digest: seq<byte> -> Hash, src: seq<byte>): Hash {
    NewSha().Update(src).Finalize(digest)
  }

  /** A type name digested alone by `from_str` and a fieldless record of that
      name digested by `new` get the same fingerprint. */
  lemma FromStrIsFieldless(digest: seq<byte> -> Hash, name: seq<byte>)
    ensures FromStr(digest, name) == digest(Preimage(name, [], []))
  {
    assert [] + name == name;
  }

  /** The input of a type with one field: its name, the field name, then the
      field type's 20 bytes. */
  lemma OneFieldPreimage(typeName: seq<byte>, fieldName: seq<byte>, t: Hash)
    ensures Preimage(typeName, [fieldName], [t]) == typeName + fieldName + t
  {
    assert [fieldName][..0] == [];
  }

  /** The preimage does not mark where the type name ends and the first field
      name starts: the record `A { bc: T }` and the record `Ab { c: T }` feed
      the digest the same bytes, so they share a fingerprint whatever the
      digest. */
  lemma {:induction false} PreimageCollides(t: Hash)
    ensures var a, b, c := 0x41, 0x62, 0x63;
      && Preimage([a], [[b, c]], [t]) == Preimage([a, b], [[c]], [t])
      && ([a], [[b, c]]) != ([a, b], [[c]])
  {
    var a: byte, b: byte, c: byte := 0x41, 0x62, 0x63;
    assert [[b, c]][..0] == [] && [[c]][..0] == [];
    assert Preimage([a], [[b, c]], [t]) == [a] + [b, c] + t;
    assert Preimage([a, b], [[c]], [t]) == [a, b] + [c] + t;
    assert [a] + [b, c] == [a, b] + [c];
  }

  /** The preimage with every name framed by its u32 length, as the rest of
      the codec frames variable-length data. */
  function FramedPreimage(typeName: seq<byte>, fieldNames: seq<seq<byte>>, fieldTypes: seq<Hash>): (r: seq<byte>)
    requires |fieldNames| <= |fieldTypes|
  {
    Frame(typeName) + FramedFields(fieldNames, fieldTypes)
  }

  function FramedFields(fieldNames: seq<seq<byte>>, fieldTypes: seq<Hash>): (r: seq<byte>)
    requires |fieldNames| <= |fieldTypes|
    ensures |r| >= 24 * |fieldNames|
    decreases |fieldNames|
  {
    if fieldNames == [] then []
    else Frame(fieldNames[0]) + fieldTypes[0] + FramedFields(fieldNames[1..], fieldTypes[1..])
  }

  /** `TypeHash::new` with every name framed. */
  method NewFramed(digest: seq<byte> -> Hash, typeName: seq<byte>, fieldNames: seq<seq<byte>>, fieldTypes: seq<Hash>)
    returns (h: Hash)
    requires |fieldNames| <= |fieldTypes|
    ensures h == digest(FramedPreimage(typeName, fieldNames, fieldTypes))
  {
    var sha := NewSha().Update(Frame(typeName));
    var i := 0;
    while i < |fieldNames|
      invariant i <= |fieldNames|
      invariant sha.fed + FramedFields(fieldNames[i..], fieldTypes[i..])
             == FramedPreimage(typeName, fieldNames, fieldTypes)
    {
      assert fieldNames[i..][1..] == fieldNames[i + 1..];
      assert fieldTypes[i..][1..] == fieldTypes[i + 1..];
      FramedFieldsCons(fieldNames[i..], fieldTypes[i..]);
      Regroup(sha.fed, Frame(fieldNames[i]), fieldTypes[i], FramedFields(fieldNames[i + 1..], fieldTypes[i + 1..]));
      sha := sha.Update(Frame(fieldNames[i]));
      sha := sha.Update(fieldTypes[i]);
      i := i + 1;
    }
    assert sha.fed + [] == sha.fed;
    h := sha.Finalize(digest);
  }

  /** A framed name is recovered from any stream that starts with it. */
  lemma FrameInjective(x: seq<byte>, y: seq<byte>, rx: seq<byte>, ry: seq<byte>)
    requires |x| < U32_LIMIT && |y| < U32_LIMIT
    requires Frame(x) + rx == Frame(y) + ry
    ensures x == y && rx == ry
  {
    var s := Frame(x) + rx;
    assert s[..4] == U32BE(|x|) && s[..4] == U32BE(|y|);
    U32BERoundTrip(|x|);
    U32BERoundTrip(|y|);
    assert x == s[4..4 + |x|] == y;
    assert rx == s[4 + |x|..] == ry;
  }

  /** Names shorter than 2^32 bytes, as every `&str` name here is. */
  predicate NamesFit(names: seq<seq<byte>>) {
    forall i | 0 <= i < |names| :: |names[i]| < U32_LIMIT
  }

  /** Equal concatenations with equally long heads have equal heads and tails. */
  lemma SplitEqual(a: seq<byte>, b: seq<byte>, c: seq<byte>, d: seq<byte>)
    requires a + b == c + d && |a| == |c|
    ensures a == c && b == d
  {
    assert a == (a + b)[..|a|] && c == (c + d)[..|c|];
    assert b == (a + b)[|a|..] && d == (c + d)[|c|..];
  }

  /** Framed fields determine the field names and types they came from. */
  lemma {:induction false} FramedFieldsInjective(n1: seq<seq<byte>>, t1: seq<Hash>, n2: seq<seq<byte>>, t2: seq<Hash>)
    requires |n1| == |t1| && |n2| == |t2| && NamesFit(n1) && NamesFit(n2)
    requires FramedFields(n1, t1) == FramedFields(n2, t2)
    ensures n1 == n2 && t1 == t2
    decreases |n1|
  {
    if n1 != [] && n2 != [] {
      var f1, f2 := FramedFields(n1[1..], t1[1..]), FramedFields(n2[1..], t2[1..]);
      FramedFieldsCons(n1, t1);
      FramedFieldsCons(n2, t2);
      FrameInjective(n1[0], n2[0], t1[0] + f1, t2[0] + f2);
      SplitEqual(t1[0], f1, t2[0], f2);
      FramedFieldsInjective(n1[1..], t1[1..], n2[1..], t2[1..]);
      HeadTail(n1);
      HeadTail(n2);
      HeadTail(t1);
      HeadTail(t2);
    }
  }

  lemma FramedFieldsCons(names: seq<seq<byte>>, types: seq<Hash>)
    requires 0 < |names| <= |types|
    ensures FramedFields(names, types)
      == Frame(names[0]) + (types[0] + FramedFields(names[1..], types[1..]))
  {
  }

  /** Distinct type descriptions feed the digest distinct bytes: two types
      share a framed fingerprint only through a collision of the digest itself. */
  lemma FramedPreimageInjective(name1: seq<byte>, n1: seq<seq<byte>>, t1: seq<Hash>,
                                name2: seq<byte>, n2: seq<seq<byte>>, t2: seq<Hash>)
    requires |name1| < U32_LIMIT && |name2| < U32_LIMIT
    requires |n1| == |t1| && |n2| == |t2| && NamesFit(n1) && NamesFit(n2)
    requires FramedPreimage(name1, n1, t1) == FramedPreimage(name2, n2, t2)
    ensures name1 == name2 && n1 == n2 && t1 == t2
  {
    FrameInjective(name1, name2, FramedFields(n1, t1), FramedFields(n2, t2));
    FramedFieldsInjective(n1, t1, n2, t2);
  }

  // ---------------------------------------------------------------------
  // base64url names

  /** `ENCODING_TABLE`. */
  const ENCODING_TABLE: seq<char> :=
    ['A', 'B', 'C', 'D', 'E', 'F', 'G', 'H', 'I', 'J', 'K', 'L', 'M', 'N', 'O', 'P'] +
    ['Q', 'R', 'S', 'T', 'U', 'V', 'W', 'X', 'Y', 'Z', 'a', 'b', 'c', 'd', 'e', 'f'] +
    ['g', 'h', 'i', 'j', 'k', 'l', 'm', 'n', 'o', 'p', 'q', 'r', 's', 't', 'u', 'v'] +
    ['w', 'x', 'y', 'z', '0', '1', '2', '3', '4', '5', '6', '7', '8', '9', '-', '_']

  /** `get_enc`: the table entry of a 6-bit digit. */
  function GetEnc(d: byte): char
    requires d < 64
  {
    ENCODING_TABLE[d as int]
  }

  /** `get_dec`: the digit a character stands for; `=` stands for 0, and any
      other character outside the table is the "char out of range" panic. */
  function GetDec(e: char): (r: Option<nat>)
    ensures r.Some? ==> r.value < 64
  {
    if 'A' <= e <= 'Z' then Some(e as int - 65)
    else if 'a' <= e <= 'z' then Some(e as int - 71)
    else if '0' <= e <= '9' then Some(e as int + 4)
    else if e == '-' then Some(62)
    else if e == '_' then Some(63)
    else if e == '=' then Some(0)
    else None
  }

  /** `get_dec(get_enc(d)) == d` for every digit. */
  lemma GetDecGetEnc(d: int)
    requires 0 <= d < 64
    ensures |ENCODING_TABLE| == 64 && GetDec(ENCODING_TABLE[d]) == Some(d)
  {
    if d == 0 {}
    else if d == 1 {}
    else if d == 2 {}
    else if d == 3 {}
    else if d == 4 {}
    else if d == 5 {}
    else if d == 6 {}
    else if d == 7 {}
    else if d == 8 {}
    else if d == 9 {}
    else if d == 10 {}
    else if d == 11 {}
    else if d == 12 {}
    else if d == 13 {}
    else if d == 14 {}
    else if d == 15 {}
    else if d == 16 {}
    else if d == 17 {}
    else if d == 18 {}
    else if d == 19 {}
    else if d == 20 {}
    else if d == 21 {}
    else if d == 22 {}
    else if d == 23 {}
    else if d == 24 {}
    else if d == 25 {}
    else if d == 26 {}
    else if d == 27 {}
    else if d == 28 {}
    else if d == 29 {}
    else if d == 30 {}
    else if d == 31 {}
    else if d == 32 {}
    else if d == 33 {}
    else if d == 34 {}
    else if d == 35 {}
    else if d == 36 {}
    else if d == 37 {}
    else if d == 38 {}
    else if d == 39 {}
    else if d == 40 {}
    else if d == 41 {}
    else if d == 42 {}
    else if d == 43 {}
    else if d == 44 {}
    else if d == 45 {}
    else if d == 46 {}
    else if d == 47 {}
    else if d == 48 {}
    else if d == 49 {}
    else if d == 50 {}
    else if d == 51 {}
    else if d == 52 {}
    else if d == 53 {}
    else if d == 54 {}
    else if d == 55 {}
    else if d == 56 {}
    else if d == 57 {}
    else if d == 58 {}
    else if d == 59 {}
    else if d == 60 {}
    else if d == 61 {}
    else if d == 62 {}
    else { assert d == 63; }
  }

  /** A digit survives `get_enc` then `get_dec`, as a byte. */
  lemma DecEnc(d: byte)
    requires d < 64
    ensures GetDec(GetEnc(d)).Some? && Digit(GetEnc(d)) == d
  {
    GetDecGetEnc(d as int);
  }

  /** Four characters for a 3-byte chunk. */
  function EncodeChunk3(a: byte, b: byte, c: byte): (r: seq<char>)
    ensures |r| == 4
  {
    [GetEnc(a >> 2), GetEnc(((a << 4) | (b >> 4)) & 0x3F),
     GetEnc(((b << 2) | (c >> 6)) & 0x3F), GetEnc(c & 0x3F)]
  }

  /** Three characters and `=` for the 2-byte tail. */
  function EncodeChunk2(a: byte, b: byte): (r: seq<char>)
    ensures |r| == 4
  {
    [GetEnc(a >> 2), GetEnc(((a << 4) | (b >> 4)) & 0x3F), GetEnc((b << 2) & 0x3F), '=']
  }

  /** `chunks(3)` of a byte string whose last chunk has two bytes. */
  function EncodeBytes(s: seq<byte>): (r: seq<char>)
    requires |s| % 3 == 2
    ensures |r| == 4 * (|s| / 3) + 4
    decreases |s|
  {
    if |s| == 2 then EncodeChunk2(s[0], s[1])
    else EncodeChunk3(s[0], s[1], s[2]) + EncodeBytes(s[3..])
  }

  /** `TypeHash::encode`. */
  function Encode(h: Hash): (r: string)
    ensures |r| == 28
  {
    EncodeBytes(h)
  }

  /** The `u8` that `get_dec` returns for an accepted character. */
  function Digit(e: char): byte
    requires GetDec(e).Some?
  {
    GetDec(e).value as byte
  }

  /** The digits of a chunk, or the panic of `get_dec`. */
  function Digits(c: seq<char>): (r: Option<seq<byte>>)
    ensures r.Some? <==> forall i | 0 <= i < |c| :: GetDec(c[i]).Some?
    ensures r.Some? ==> |r.value| == |c| && forall i | 0 <= i < |c| :: r.value[i] == Digit(c[i])
  {
    if forall i | 0 <= i < |c| :: GetDec(c[i]).Some? then
      Some(seq(|c|, i requires 0 <= i < |c| && GetDec(c[i]).Some? => Digit(c[i])))
    else None
  }

  /** One chunk of up to four characters. A chunk ending in `=` yields two
      bytes and needs three characters; any other yields three and needs
      four; indexing a shorter chunk is a panic. */
  function DecodeChunk(c: seq<char>): Option<seq<byte>>
    requires 0 < |c| <= 4
  {
    var enc :- Digits(c);
    if c[|c| - 1] == '=' then
      if |c| < 3 then None
      else Some(Join2(enc[0], enc[1], enc[2]))
    else if |c| < 4 then None
    else Some(Join3(enc[0], enc[1], enc[2], enc[3]))
  }

  /** The two bytes of a padded chunk, from its first three digits. */
  function Join2(e0: byte, e1: byte, e2: byte): seq<byte> {
    [(e0 << 2) | (e1 >> 4), (e1 << 4) | (e2 >> 2)]
  }

  /** The three bytes of a full chunk, from its four digits. */
  function Join3(e0: byte, e1: byte, e2: byte, e3: byte): seq<byte> {
    [(e0 << 2) | (e1 >> 4), (e1 << 4) | (e2 >> 2), (e2 << 6) | e3]
  }

  /** The digits `encode` cuts from three bytes join back into them. */
  lemma Join3Digits(a: byte, b: byte, c: byte)
    ensures Join3(a >> 2, ((a << 4) | (b >> 4)) & 0x3F, ((b << 2) | (c >> 6)) & 0x3F, c & 0x3F) == [a, b, c]
  {
  }

  lemma Join2Digits(a: byte, b: byte)
    ensures Join2(a >> 2, ((a << 4) | (b >> 4)) & 0x3F, (b << 2) & 0x3F) == [a, b]
  {
  }

  /** `chunks(4)` then `flat_map` over the string. A character outside ASCII
      makes every one of its bytes fail `get_dec` in the source, so taking
      the chunks by characters instead of bytes changes no outcome. */
  function DecodeChars(s: seq<char>): Option<seq<byte>>
    decreases |s|
  {
    if s == [] then Some([])
    else
      var n := if |s| < 4 then |s| else 4;
      var out :- DecodeChunk(s[..n]);
      var rest :- DecodeChars(s[n..]);
      Some(out + rest)
  }

  /** `TypeHash::decode`: `None` for each of its panics, including a result
      that is not 20 bytes long. */
  function Decode(data: string): Option<Hash> {
    var bytes :- DecodeChars(data);
    if |bytes| == HASH_LEN then Some(bytes) else None
  }

  /** A full chunk of accepted characters joins their digits. */
  lemma DecodeFull(e: seq<char>, d: seq<byte>)
    requires |e| == 4 && |d| == 4 && e[3] != '='
    requires forall i | 0 <= i < 4 :: GetDec(e[i]).Some? && Digit(e[i]) == d[i]
    ensures DecodeChunk(e) == Some(Join3(d[0], d[1], d[2], d[3]))
  {
    var enc := Digits(e).value;
    assert enc[0] == d[0] && enc[1] == d[1] && enc[2] == d[2] && enc[3] == d[3];
  }

  /** A padded chunk of accepted characters joins its first three digits. */
  lemma DecodePadded(e: seq<char>, d: seq<byte>)
    requires |e| == 4 && |d| == 3 && e[3] == '='
    requires forall i | 0 <= i < 3 :: GetDec(e[i]).Some? && Digit(e[i]) == d[i]
    ensures DecodeChunk(e) == Some(Join2(d[0], d[1], d[2]))
  {
    assert GetDec(e[3]).Some?;
    var enc := Digits(e).value;
    assert enc[0] == d[0] && enc[1] == d[1] && enc[2] == d[2];
  }

  lemma DecodeChunk3(a: byte, b: byte, c: byte)
    ensures DecodeChunk(EncodeChunk3(a, b, c)) == Some([a, b, c])
  {
    var d0, d1, d2, d3 := a >> 2, ((a << 4) | (b >> 4)) & 0x3F, ((b << 2) | (c >> 6)) & 0x3F, c & 0x3F;
    DecEnc(d0);
    DecEnc(d1);
    DecEnc(d2);
    DecEnc(d3);
    DecodeFull([GetEnc(d0), GetEnc(d1), GetEnc(d2), GetEnc(d3)], [d0, d1, d2, d3]);
    Join3Digits(a, b, c);
  }

  lemma DecodeChunk2(a: byte, b: byte)
    ensures DecodeChunk(EncodeChunk2(a, b)) == Some([a, b])
  {
    var d0, d1, d2 := a >> 2, ((a << 4) | (b >> 4)) & 0x3F, (b << 2) & 0x3F;
    DecEnc(d0);
    DecEnc(d1);
    DecEnc(d2);
    DecodePadded([GetEnc(d0), GetEnc(d1), GetEnc(d2), '='], [d0, d1, d2]);
    Join2Digits(a, b);
  }

  lemma {:induction false} DecodeEncodeBytes(s: seq<byte>)
    requires |s| % 3 == 2
    ensures DecodeChars(EncodeBytes(s)) == Some(s)
    decreases |s|
  {
    if |s| == 2 {
      DecodeEncodeLast(s);
    } else {
      DecodeEncodeBytes(s[3..]);
      DecodeEncodeFirst(s);
    }
  }

  lemma DecodeEncodeLast(s: seq<byte>)
    requires |s| == 2
    ensures DecodeChars(EncodeBytes(s)) == Some(s)
  {
    var chunk := EncodeChunk2(s[0], s[1]);
    DecodeChunk2(s[0], s[1]);
    DecodeCharsChunk(chunk, [], [s[0], s[1]], []);
    assert chunk + [] == EncodeBytes(s);
    SplitTwo(s);
  }

  lemma DecodeEncodeFirst(s: seq<byte>)
    requires |s| % 3 == 2 && |s| > 2
    requires DecodeChars(EncodeBytes(s[3..])) == Some(s[3..])
    ensures DecodeChars(EncodeBytes(s)) == Some(s)
  {
    EncodeBytesCons(s);
    DecodeChunk3(s[0], s[1], s[2]);
    DecodeCharsChunk(EncodeChunk3(s[0], s[1], s[2]), EncodeBytes(s[3..]), [s[0], s[1], s[2]], s[3..]);
    SplitThree(s);
  }

  /** The name of more than two bytes: the first chunk, then the rest's. */
  lemma EncodeBytesCons(s: seq<byte>)
    requires |s| % 3 == 2 && |s| > 2
    ensures |s[3..]| % 3 == 2
    ensures EncodeBytes(s) == EncodeChunk3(s[0], s[1], s[2]) + EncodeBytes(s[3..])
  {
    ModThreeStep(|s|);
  }

  lemma ModThreeStep(n: int)
    requires n % 3 == 2 && n > 2
    ensures (n - 3) % 3 == 2
  {
  }

  /** Decoding a four-character chunk followed by more characters. */
  lemma DecodeCharsChunk(chunk: seq<char>, rest: seq<char>, x: seq<byte>, y: seq<byte>)
    requires |chunk| == 4
    requires DecodeChunk(chunk) == Some(x) && DecodeChars(rest) == Some(y)
    ensures DecodeChars(chunk + rest) == Some(x + y)
  {
    var e := chunk + rest;
    assert e[..4] == chunk && e[4..] == rest;
  }

  /** `decode(encode(h)) == h`. */
  lemma DecodeEncode(h: Hash)
    ensures Decode(Encode(h)) == Some(h)
  {
    DecodeEncodeBytes(h);
  }

  /** The name of a fingerprint fixes the fingerprint. */
  lemma EncodeInjective(h1: Hash, h2: Hash)
    requires Encode(h1) == Encode(h2)
    ensures h1 == h2
  {
    DecodeEncode(h1);
    DecodeEncode(h2);
  }

  /** A character `get_dec` accepts: the table's sixty-four and `=`. */
  predicate InAlphabet(ch: char) {
    GetDec(ch).Some?
  }

  lemma ChunkAlphabet(a: byte, b: byte, c: byte)
    ensures forall i | 0 <= i < 4 :: InAlphabet(EncodeChunk3(a, b, c)[i])
    ensures forall i | 0 <= i < 4 :: InAlphabet(EncodeChunk2(a, b)[i])
    ensures EncodeChunk2(a, b)[3] == '='
  {
    var d0, d1, d2, d3 := a >> 2, ((a << 4) | (b >> 4)) & 0x3F, ((b << 2) | (c >> 6)) & 0x3F, c & 0x3F;
    var t2 := (b << 2) & 0x3F;
    DecEnc(d0);
    DecEnc(d1);
    DecEnc(d2);
    DecEnc(d3);
    DecEnc(t2);
    assert EncodeChunk3(a, b, c) == [GetEnc(d0), GetEnc(d1), GetEnc(d2), GetEnc(d3)];
    assert EncodeChunk2(a, b) == [GetEnc(d0), GetEnc(d1), GetEnc(t2), '='];
  }

  lemma {:induction false} EncodeBytesAlphabet(s: seq<byte>)
    requires |s| % 3 == 2
    ensures forall i | 0 <= i < |EncodeBytes(s)| :: InAlphabet(EncodeBytes(s)[i])
    ensures EncodeBytes(s)[|EncodeBytes(s)| - 1] == '='
    decreases |s|
  {
    if |s| == 2 {
      ChunkAlphabet(s[0], s[1], 0);
    } else {
      ChunkAlphabet(s[0], s[1], s[2]);
      EncodeBytesAlphabet(s[3..]);
      var e := EncodeBytes(s);
      assert forall i | 4 <= i < |e| :: e[i] == EncodeBytes(s[3..])[i - 4];
      assert forall i | 0 <= i < 4 :: e[i] == EncodeChunk3(s[0], s[1], s[2])[i];
    }
  }

  /** Every character of a name is one `get_dec` accepts, so a name never
      contains `.`; and it ends in the padding `=` of the 2-byte tail. */
  lemma EncodeAlphabet(h: Hash)
    ensures forall i | 0 <= i < |Encode(h)| :: InAlphabet(Encode(h)[i]) && Encode(h)[i] != '.'
    ensures Encode(h)[27] == '='
  {
    EncodeBytesAlphabet(h);
  }

  /** A character outside the alphabet anywhere in the input is a panic. */
  lemma {:induction false} DecodeCharsRejects(s: seq<char>, j: nat)
    requires j < |s| && GetDec(s[j]).None?
    ensures DecodeChars(s) == None
    decreases |s|
  {
    var n := if |s| < 4 then |s| else 4;
    if j < n {
      assert s[..n][j] == s[j];
    } else {
      assert s[n..][j - n] == s[j];
      DecodeCharsRejects(s[n..], j - n);
    }
  }

  lemma DecodeRejects(data: string, j: nat)
    requires j < |data| && !InAlphabet(data[j])
    ensures Decode(data) == None
  {
    DecodeCharsRejects(data, j);
  }
}
