/** The framed-block reader of src/byte_reader.rs: a cursor over a shared
    byte buffer that carves out length-prefixed sub-ranges. */
module Reader {
  import opened Bytes
  import opened DbErrors
  import opened Seqs

  /** The state of a `ByteReader`: the whole source buffer and the window
      `[start, end)` still to be read. Nothing ties `start` or `end` to the
      size of `src`; reading past it is an error only when bytes are touched. */
  datatype Cursor = Cursor(src: seq<byte>, start: nat, end: nat) {

    predicate AtEnd() {
      start == end
    }

    /** Bytes of `src` from `start` on (0 once `start` is past the end of
        `src`): what every block take uses up. */
    function Remaining(): nat {
      if start <= |src| then |src| - start else 0
    }

    /** `read_len`: the big-endian u32 at `start`, and the cursor moved past
        it; indexing fails when fewer than four bytes of `src` are left. */
    function ReadLen(): Result<(nat, Cursor)> {
      if start + 4 <= |src| then Ok((FromBE(src[start..start + 4]), this.(start := start + 4)))
      else Err(LoadError)
    }

    /** `reader_for_block`: the child reader over the next framed block and
        this reader advanced past that block. An exhausted reader hands out a
        copy of itself and stays put. The child's end is not checked against
        this reader's end nor against the size of `src`. */
    function TakeBlock(): Result<(Cursor, Cursor)> {
      if AtEnd() then Ok((this, this))
      else
        var p :- ReadLen();
        var next := p.1.start + p.0;
        Ok((Cursor(src, p.1.start, next), this.(start := next)))
    }

    /** `read_byte_slice`: the window's bytes; slicing fails when the window is
        reversed or runs past `src`. */
    function ByteSlice(): Result<seq<byte>> {
      if start <= end <= |src| then Ok(src[start..end]) else Err(LoadError)
    }

    /** `bytes` sit in `src` at `start`. */
    predicate HasAt(bytes: seq<byte>) {
      start + |bytes| <= |src| && src[start..start + |bytes|] == bytes
    }

    /** The window is exactly `bytes`. */
    predicate Holds(bytes: seq<byte>) {
      end == start + |bytes| && HasAt(bytes)
    }
  }

  /** A framed block: the payload's length as a 4-byte big-endian prefix,
      then the payload (`Storable::encoded`). */
  function Frame(payload: seq<byte>): (r: seq<byte>)
    ensures |r| == 4 + |payload|
  {
    U32BE(|payload|) + payload
  }

  /** Each block take on a reader that is not exhausted moves `start` forward
      by the 4-byte prefix at least, and uses up `Remaining()`: this is what
      makes every take-until-exhausted loop terminate. The child window starts
      right after the prefix and ends where the parent resumes. */
  lemma TakeBlockProgress(c: Cursor)
    requires !c.AtEnd() && c.TakeBlock().Ok?
    ensures var (child, next) := c.TakeBlock().value;
      && next.src == c.src && next.end == c.end
      && next.start >= c.start + 4
      && next.Remaining() < c.Remaining()
      && child.src == c.src && child.start == c.start + 4 && child.end == next.start
  {
  }

  /** A framed payload at the cursor's position comes back whole: the child
      window is exactly the payload and the parent resumes right after it,
      whatever bytes follow in `src`. */
  lemma {:induction false} TakeFramed(c: Cursor, payload: seq<byte>)
    requires !c.AtEnd() && |payload| < U32_LIMIT
    requires c.HasAt(Frame(payload))
    ensures c.TakeBlock() == Ok((Cursor(c.src, c.start + 4, c.start + 4 + |payload|),
                                 c.(start := c.start + 4 + |payload|)))
    ensures c.TakeBlock().value.0.Holds(payload)
    ensures c.TakeBlock().value.0.ByteSlice() == Ok(payload)
  {
    var f := Frame(payload);
    assert c.src[c.start..c.start + 4] == f[..4] == U32BE(|payload|);
    U32BERoundTrip(|payload|);
    var child := Cursor(c.src, c.start + 4, c.start + 4 + |payload|);
    assert child.src[child.start..child.end] == f[4..] == payload;
  }

  /** A window holding `a + b` starts with `a`; past `a` it holds `b`. */
  lemma HoldsSplit(c: Cursor, a: seq<byte>, b: seq<byte>)
    requires c.Holds(a + b)
    ensures c.HasAt(a)
    ensures c.(start := c.start + |a|).Holds(b)
  {
    SliceSplit(c.src, c.start, a, b);
  }

  /** The child's end is not checked: a prefix announcing more bytes than
      remain still yields a child, and only reading that child fails. */
  lemma UncheckedChildEnd()
    ensures var c := Cursor([0, 0, 0, 9], 0, 4);
      && c.TakeBlock() == Ok((Cursor([0, 0, 0, 9], 4, 13), Cursor([0, 0, 0, 9], 13, 4)))
      && c.TakeBlock().value.0.ByteSlice().Err?
  {
    var c := Cursor([0, 0, 0, 9], 0, 4);
    assert c.src[0..4] == [0, 0, 0, 9];
    assert FromBE([0, 0, 0, 9]) == 9 by {
      var b: seq<byte> := [0, 0, 0, 9];
      var z: byte := 0;
      ByteRoundTrip(0);
      ByteRoundTrip(9);
      assert b[3] == 9 as byte;
      assert b[..3] == [z, z, z];
      assert [z, z, z][..2] == [z, z];
      assert [z, z][..1] == [z];
      assert [z][..0] == [];
      assert FromBE([z]) == 0;
      assert FromBE([z, z]) == 0;
      assert FromBE([z, z, z]) == 0;
    }
  }

  /** `ByteReader`: a shared source buffer and a window that the block
      methods advance in place. */
  class ByteReader {
    const src: seq<byte>
    var start: nat
    var end: nat

    function View(): Cursor
      reads this
    {
      Cursor(src, start, end)
    }

    /** `ByteReader::new`: the whole buffer, from 0 to its length. */
    constructor (src: seq<byte>)
      ensures View() == Cursor(src, 0, |src|)
    {
      this.src := src;
      start := 0;
      end := |src|;
    }

    /** The struct literal that builds a child reader. */
    constructor Window(src: seq<byte>, start: nat, end: nat)
      ensures View() == Cursor(src, start, end)
    {
      this.src := src;
      this.start := start;
      this.end := end;
    }

    predicate IsAtEnd()
      reads this
      ensures IsAtEnd() <==> View().AtEnd()
    {
      start == end
    }

    /** `read_len`: moves `start` past the 4-byte prefix and returns the
        length it holds. */
    method ReadLen() returns (r: Result<nat>)
      modifies this
      ensures start == old(start) + 4 && end == old(end)
      ensures match old(View()).ReadLen()
              case Ok(p) => r == Ok(p.0) && View() == p.1
              case Err(e) => r == Err(e)
    {
      start := start + 4;
      if start > |src| {
        return Err(LoadError);
      }
      r := Ok(FromBE(src[start - 4..start]));
    }

    /** `reader_for_block`: a fresh reader over the next block, this reader
        moved past it. */
    method ReaderForBlock() returns (r: Result<ByteReader>)
      modifies this
      ensures match old(View()).TakeBlock()
              case Ok(p) => r.Ok? && fresh(r.value) && (r.value.View(), View()) == p
              case Err(e) => r == Err(e)
    {
      if IsAtEnd() {
        var copy := new ByteReader.Window(src, start, end);
        return Ok(copy);
      }
      var len :- ReadLen();
      start := start + len;
      var child := new ByteReader.Window(src, start - len, start);
      return Ok(child);
    }

    /** `read_byte_slice`: the bytes of the window. */
    method ReadByteSlice() returns (r: Result<seq<byte>>)
      ensures r == View().ByteSlice()
    {
      if start <= end <= |src| {
        return Ok(src[start..end]);
      }
      return Err(LoadError);
    }
  }
}
