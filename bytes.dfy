/** Bytes, fixed-width big-endian integers, the u32 length prefix and
    well-formed UTF-8: the primitives the codec is built from. */
module Bytes {

  type byte = bv8

  /** 256^w: the number of distinct w-byte strings. */
  function Pow256(w: nat): (r: nat)
    ensures r >= 1
  {
    if w == 0 then 1 else 256 * Pow256(w - 1)
  }

  const U32_LIMIT: nat := 0x1_0000_0000

  lemma Pow256Four()
    ensures Pow256(4) == U32_LIMIT
  {
  }

  /** `to_be_bytes` of an unsigned value `n < 256^w`: w bytes, most significant first. */
  function ToBE(n: nat, w: nat): (r: seq<byte>)
    requires n < Pow256(w)
    ensures |r| == w
  {
    if w == 0 then [] else ToBE(n / 256, w - 1) + [(n % 256) as byte]
  }

  /** `from_be_bytes` for an unsigned value: the number whose big-endian bytes are `b`. */
  function FromBE(b: seq<byte>): (n: nat)
    ensures n < Pow256(|b|)
  {
    if b == [] then 0
    else
      var high := FromBE(b[..|b| - 1]);
      assert high * 256 + 255 <= (Pow256(|b| - 1) - 1) * 256 + 255;
      high * 256 + b[|b| - 1] as nat
  }

  /** Decoding the big-endian bytes of `n` gives `n` back. */
  lemma {:induction false} FromBEToBE(n: nat, w: nat)
    requires n < Pow256(w)
    ensures FromBE(ToBE(n, w)) == n
  {
    if w > 0 {
      var b := ToBE(n, w);
      assert b[..w - 1] == ToBE(n / 256, w - 1);
      FromBEToBE(n / 256, w - 1);
      ByteOfLowDigit(n);
      assert FromBE(b) == (n / 256) * 256 + n % 256;
    }
  }

  lemma ByteOfLowDigit(n: nat)
    ensures ((n % 256) as byte) as nat == n % 256
    ensures (n / 256) * 256 + n % 256 == n
  {
    DivMod256(n);
    ByteRoundTrip(n % 256);
  }

  lemma ByteRoundTrip(m: nat)
    requires m < 256
    ensures (m as byte) as nat == m
  {
    assert ByteOf(m) == m as byte;
  }

  /** The byte whose value is `m`, built by counting up: the solver handles
      one bit-vector increment at a time far better than a symbolic cast. */
  function ByteOf(m: nat): (b: byte)
    requires m < 256
    ensures b as int == m
  {
    if m == 0 then 0
    else
      var p := ByteOf(m - 1);
      ByteIncrement(p);
      p + 1
  }

  lemma ByteIncrement(p: byte)
    requires p as int < 255
    ensures (p + 1) as int == p as int + 1
  {
  }

  lemma DivMod256(n: nat)
    ensures (n / 256) * 256 + n % 256 == n
  {
  }

  /** The other direction: equal numbers have equal big-endian bytes, so
      `FromBE` is injective on strings of one width. */
  lemma {:induction false} ToBEFromBE(b: seq<byte>)
    ensures ToBE(FromBE(b), |b|) == b
  {
    if b != [] {
      var p := b[..|b| - 1];
      ToBEFromBE(p);
      var n := FromBE(b);
      var last := b[|b| - 1];
      assert n == FromBE(p) * 256 + last as nat;
      assert n / 256 == FromBE(p) && n % 256 == last as nat;
      ByteOfLowDigit(n);
      assert (n % 256) as byte == last;
      assert b == p + [b[|b| - 1]];
    }
  }

  /** `(n as u32).to_be_bytes()`: the cast keeps `n` modulo 2^32, so a length
      of 2^32 or more is silently truncated. */
  function U32BE(n: nat): (r: seq<byte>)
    ensures |r| == 4
  {
    Pow256Four();
    ToBE(n % U32_LIMIT, 4)
  }

  /** A length below 2^32 survives the round trip through its prefix. */
  lemma U32BERoundTrip(n: nat)
    requires n < U32_LIMIT
    ensures FromBE(U32BE(n)) == n
  {
    Pow256Four();
    assert n % U32_LIMIT == n;
    assert U32BE(n) == ToBE(n, 4);
    FromBEToBE(n, 4);
  }

  predicate IsContinuation(b: byte) {
    0x80 <= b <= 0xBF
  }

  /** Well-formed UTF-8 (the byte-sequence table of section 4 of RFC 3629):
      what `String::from_utf8` accepts. */
  predicate ValidUtf8(s: seq<byte>)
    decreases |s|
  {
    if s == [] then true
    else if s[0] <= 0x7F then ValidUtf8(s[1..])
    else if 0xC2 <= s[0] <= 0xDF then
      |s| >= 2 && IsContinuation(s[1]) && ValidUtf8(s[2..])
    else if s[0] == 0xE0 then
      |s| >= 3 && 0xA0 <= s[1] <= 0xBF && IsContinuation(s[2]) && ValidUtf8(s[3..])
    else if 0xE1 <= s[0] <= 0xEC || 0xEE <= s[0] <= 0xEF then
      |s| >= 3 && IsContinuation(s[1]) && IsContinuation(s[2]) && ValidUtf8(s[3..])
    else if s[0] == 0xED then
      |s| >= 3 && 0x80 <= s[1] <= 0x9F && IsContinuation(s[2]) && ValidUtf8(s[3..])
    else if s[0] == 0xF0 then
      |s| >= 4 && 0x90 <= s[1] <= 0xBF && IsContinuation(s[2]) && IsContinuation(s[3])
      && ValidUtf8(s[4..])
    else if 0xF1 <= s[0] <= 0xF3 then
      |s| >= 4 && IsContinuation(s[1]) && IsContinuation(s[2]) && IsContinuation(s[3])
      && ValidUtf8(s[4..])
    else if s[0] == 0xF4 then
      |s| >= 4 && 0x80 <= s[1] <= 0x8F && IsContinuation(s[2]) && IsContinuation(s[3])
      && ValidUtf8(s[4..])
    else false
  }

  predicate IsAscii(s: string) {
    forall i | 0 <= i < |s| :: s[i] as int < 128
  }

  /** `str::as_bytes` of an ASCII string: one byte per character. */
  function AsciiBytes(s: string): (r: seq<byte>)
    requires IsAscii(s)
    ensures |r| == |s|
    ensures forall i | 0 <= i < |s| :: r[i] as int == s[i] as int
  {
    seq(|s|, i requires 0 <= i < |s| => ByteOf(s[i] as int))
  }

  /** `as_bytes` of two ASCII strings put together is their bytes put together. */
  lemma AsciiBytesAppend(s: string, t: string)
    requires IsAscii(s) && IsAscii(t)
    ensures IsAscii(s + t) && AsciiBytes(s + t) == AsciiBytes(s) + AsciiBytes(t)
  {
    assert forall i | 0 <= i < |s + t| :: (s + t)[i] == if i < |s| then s[i] else t[i - |s|];
  }

  /** Every ASCII string is well-formed UTF-8. */
  lemma {:induction false} AsciiIsUtf8(s: seq<byte>)
    requires forall i | 0 <= i < |s| :: s[i] <= 0x7F
    ensures ValidUtf8(s)
  {
    if s != [] {
      AsciiIsUtf8(s[1..]);
    }
  }

  /** Back-to-back concatenation of byte strings (`flat_map` ... `collect`). */
  function Concat(parts: seq<seq<byte>>): (r: seq<byte>)
  {
    if parts == [] then [] else parts[0] + Concat(parts[1..])
  }

  lemma {:induction false} ConcatAppend(a: seq<seq<byte>>, b: seq<seq<byte>>)
    ensures Concat(a + b) == Concat(a) + Concat(b)
  {
    if a != [] {
      assert (a + b)[0] == a[0];
      assert (a + b)[1..] == a[1..] + b;
      ConcatAppend(a[1..], b);
      calc {
        Concat(a + b);
        a[0] + Concat(a[1..] + b);
        a[0] + (Concat(a[1..]) + Concat(b));
      }
    } else {
      assert a + b == b;
    }
  }
}
