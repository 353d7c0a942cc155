/** The bit cursor of BitStream.cpp: `InputBitStream` reads an immutable byte
    buffer bit by bit (most significant bit first) or byte by byte, records a
    sticky end-of-stream flag instead of failing, and can be moved backwards. */
module BitStream {
  import opened Common
  import opened Binary

  /** `bool(b & (1 << n))`: bit `n` of `b`, 7 being the most significant. */
  function BitOf(b: Byte, n: nat): Bit
    requires n <= 7
  {
    (b / Pow2(n)) % 2
  }

  /** The bit that a read at absolute bit position `p` (8 per byte, MSB first)
      yields; 0 past the end of the buffer. */
  function BitAt(buf: seq<Byte>, p: nat): Bit
  {
    if p / 8 < |buf| then BitOf(buf[p / 8], 7 - p % 8) else 0
  }

  /** The byte that a read at byte index `i` yields; 0 past the end. */
  function ByteAt(buf: seq<Byte>, i: nat): Byte
  {
    if i < |buf| then buf[i] else 0
  }

  /** `k` successive byte reads starting at index `i`. */
  function Window(buf: seq<Byte>, i: nat, k: nat): (r: seq<Byte>)
    ensures |r| == k
  {
    seq<Byte>(k, j requires 0 <= j < k => ByteAt(buf, i + j))
  }

  /** `k` successive bit reads starting at bit position `p`. */
  function Bits(buf: seq<Byte>, p: nat, k: nat): (r: seq<Bit>)
    ensures |r| == k
  {
    seq<Bit>(k, j requires 0 <= j < k => BitAt(buf, p + j))
  }

  lemma BitAtInByte(buf: seq<Byte>, i: nat, j: nat)
    requires i < |buf| && j < 8
    ensures BitAt(buf, 8 * i + j) == BitOf(buf[i], 7 - j)
  {
    DivModUnique(8 * i + j, 8, i, j);
  }

  lemma BitsOfByte(buf: seq<Byte>, i: nat)
    requires i < |buf|
    ensures Bits(buf, 8 * i, 8) == LowBits(buf[i], 8)
  {
    forall j | 0 <= j < 8 ensures Bits(buf, 8 * i, 8)[j] == LowBits(buf[i], 8)[j] {
      BitAtInByte(buf, i, j);
    }
  }

  /** Eight bit reads from bit 7 of byte `i`, reassembled MSB first, give back
      `buf[i]`. */
  lemma EightBitsMakeTheByte(buf: seq<Byte>, i: nat)
    requires i < |buf|
    ensures FromBits(Bits(buf, 8 * i, 8)) == buf[i]
  {
    BitsOfByte(buf, i);
    FromLowBits(buf[i], 8);
    assert Pow2(8) == 256;
  }

  /** A cursor position as the pair of fields `_index`, `_bit_number`. */
  datatype Cursor = Cursor(index: int, bitNumber: int)

  /** Absolute bit position of the next bit a cursor reads. */
  function PositionOf(c: Cursor): int
  {
    8 * c.index + 7 - c.bitNumber
  }

  /** `BytesBack` (BitStream.cpp:73-77): move back `n` bytes, clamped at 0. */
  function BytesBackCursor(c: Cursor, n: int): (r: Cursor)
    ensures r.bitNumber == c.bitNumber
    ensures r.index == if c.index - n >= 0 then c.index - n else 0
  {
    Cursor(Max(c.index - n, 0), c.bitNumber)
  }

  /** `BitsBack` as written (BitStream.cpp:60-71): whole bytes through
      `BytesBack`, the remainder SUBTRACTED from the bit number, borrowing a byte
      when it drops below 0. */
  function BitsBackCursor(c: Cursor, n: nat): Cursor
  {
    var chars := n / 8;
    var bit := c.bitNumber - (n - chars * 8);
    var c1 := if bit < 0 then Cursor(c.index - 1, bit + 8) else Cursor(c.index, bit);
    BytesBackCursor(c1, chars)
  }

  /** For a multiple of 8, `BitsBack` is `BytesBack(n / 8)`; otherwise the bit
      number drops by `n % 8` (plus 8 and one byte back on underflow); the index
      never ends negative. */
  lemma BitsBackShape(c: Cursor, n: nat)
    requires 0 <= c.bitNumber <= 7
    ensures n % 8 == 0 ==> BitsBackCursor(c, n) == BytesBackCursor(c, n / 8)
    ensures var r := BitsBackCursor(c, n);
      && r.index >= 0 && 0 <= r.bitNumber <= 7
      && (c.bitNumber >= n % 8 ==> r == BytesBackCursor(Cursor(c.index, c.bitNumber - n % 8), n / 8))
      && (c.bitNumber < n % 8 ==> r == BytesBackCursor(Cursor(c.index - 1, c.bitNumber - n % 8 + 8), n / 8))
  {
    assert n - (n / 8) * 8 == n % 8;
  }

  /** What `BitsBack` evidently means: move back `n` bit positions. The bit
      number grows (reads made it shrink), wrapping into the previous byte. */
  function RewindBits(c: Cursor, n: nat): Cursor
  {
    var bit := c.bitNumber + n % 8;
    var c1 := if bit > 7 then Cursor(c.index - 1, bit - 8) else Cursor(c.index, bit);
    BytesBackCursor(c1, n / 8)
  }

  /** The corrected rewind undoes `n` bit reads exactly when there are `n`
      bits to undo. */
  lemma RewindBitsUndoes(c: Cursor, n: nat)
    requires 0 <= c.bitNumber <= 7 && n <= PositionOf(c)
    ensures var r := RewindBits(c, n);
      PositionOf(r) == PositionOf(c) - n && 0 <= r.bitNumber <= 7 && r.index >= 0
  {
    assert n == 8 * (n / 8) + n % 8;
  }

  /** The cursor after one in-bounds bit read (BitStream.cpp:23-31). */
  function AfterBitRead(c: Cursor): Cursor
  {
    if c.bitNumber == 0 then Cursor(c.index + 1, 7) else Cursor(c.index, c.bitNumber - 1)
  }

  /** As written, `BitsBack(1)` right after a one-bit read from the start of a
      byte does not go back to that bit: it moves one bit further instead. */
  lemma BitsBackDoesNotUndoARead()
    ensures AfterBitRead(Cursor(0, 7)) == Cursor(0, 6)
    ensures BitsBackCursor(AfterBitRead(Cursor(0, 7)), 1) == Cursor(0, 5)
    ensures RewindBits(AfterBitRead(Cursor(0, 7)), 1) == Cursor(0, 7)
  {
  }

  //--------------------------------------------------------------------------
  // Reads as functions of the stream state
  //--------------------------------------------------------------------------

  /** The mutable fields of an `InputBitStream`: cursor and `_stream_end`. */
  datatype State = State(at: Cursor, ended: bool)

  /** The state both constructors establish (BitStream.cpp:4-18). */
  const Start := State(Cursor(0, 7), false)

  ghost predicate ValidState(buf: seq<Byte>, s: State)
  {
    0 <= s.at.index <= |buf| && 0 <= s.at.bitNumber <= 7
  }

  /** A value read and the state after the read. */
  datatype Read<+T> = Read(value: T, after: State)

  /** `operator>>(bit&)` (BitStream.cpp:20-38). */
  function ReadBitF(buf: seq<Byte>, s: State): Read<Bit>
    requires ValidState(buf, s)
  {
    if s.at.index < |buf| then Read(BitOf(buf[s.at.index], s.at.bitNumber), State(AfterBitRead(s.at), s.ended))
    else Read(0, State(s.at, true))
  }

  /** `operator>>(byte&)` (BitStream.cpp:39-52). */
  function ReadByteF(buf: seq<Byte>, s: State): Read<Byte>
    requires ValidState(buf, s)
  {
    if s.at.index < |buf| then Read(buf[s.at.index], State(Cursor(s.at.index + 1, s.at.bitNumber), s.ended))
    else Read(0, State(s.at, true))
  }

  /** `k` bit reads in a row, first bit first. */
  function ReadBitsF(buf: seq<Byte>, s: State, k: nat): (r: Read<seq<Bit>>)
    requires ValidState(buf, s)
    ensures |r.value| == k && ValidState(buf, r.after)
    decreases k
  {
    if k == 0 then Read([], s)
    else
      var b := ReadBitF(buf, s);
      var rest := ReadBitsF(buf, b.after, k - 1);
      Read([b.value] + rest.value, rest.after)
  }

  /** `k` byte reads in a row. */
  function ReadBytesF(buf: seq<Byte>, s: State, k: nat): (r: Read<seq<Byte>>)
    requires ValidState(buf, s)
    ensures |r.value| == k && ValidState(buf, r.after)
    decreases k
  {
    if k == 0 then Read([], s)
    else
      var b := ReadByteF(buf, s);
      var rest := ReadBytesF(buf, b.after, k - 1);
      Read([b.value] + rest.value, rest.after)
  }

  /** `BytesBack` on a state: the end flag is kept. */
  function BytesBackF(s: State, n: int): State
  {
    State(BytesBackCursor(s.at, n), s.ended)
  }

  /** An in-bounds bit read yields bit `_bit_number` of the current byte and
      moves to the next lower bit, or to bit 7 of the next byte after bit 0; a
      read at the end yields 0, sets the end flag and moves nothing. */
  lemma ReadBitCases(buf: seq<Byte>, s: State)
    requires ValidState(buf, s)
    ensures var r := ReadBitF(buf, s);
      && ValidState(buf, r.after)
      && (s.at.index < |buf| ==>
            && r.value == BitOf(buf[s.at.index], s.at.bitNumber)
            && r.after.ended == s.ended
            && (s.at.bitNumber > 0 ==> r.after.at == Cursor(s.at.index, s.at.bitNumber - 1))
            && (s.at.bitNumber == 0 ==> r.after.at == Cursor(s.at.index + 1, 7)))
      && (s.at.index == |buf| ==> r.value == 0 && r.after == State(s.at, true))
  {
  }

  /** A byte read ignores the bit number and keeps it, even in mid-byte. */
  lemma ReadByteCases(buf: seq<Byte>, s: State)
    requires ValidState(buf, s)
    ensures var r := ReadByteF(buf, s);
      && ValidState(buf, r.after)
      && r.after.at.bitNumber == s.at.bitNumber
      && (s.at.index < |buf| ==>
            r.value == buf[s.at.index] && r.after == State(Cursor(s.at.index + 1, s.at.bitNumber), s.ended))
      && (s.at.index == |buf| ==> r.value == 0 && r.after == State(s.at, true))
  {
  }

  /** The bits a bit read yields are the buffer's bits at the absolute
      position, zero past the end; the position advances by one up to the
      end of the buffer and no further. */
  lemma ReadBitAgrees(buf: seq<Byte>, s: State)
    requires ValidState(buf, s)
    ensures var r := ReadBitF(buf, s);
      && r.value == BitAt(buf, PositionOf(s.at))
      && PositionOf(r.after.at) == (if PositionOf(s.at) < 8 * |buf| then PositionOf(s.at) + 1 else PositionOf(s.at))
      && r.after.ended == (s.ended || PositionOf(s.at) >= 8 * |buf|)
  {
    var p := PositionOf(s.at);
    if s.at.index < |buf| {
      DivModUnique(p, 8, s.at.index, 7 - s.at.bitNumber);
    }
  }

  /** Past the end of the buffer every bit is 0. */
  lemma PastTheEnd(buf: seq<Byte>, x: nat)
    requires x >= 8 * |buf|
    ensures BitAt(buf, x) == 0
  {
  }

  lemma BitsCons(buf: seq<Byte>, p: nat, k: nat)
    requires k > 0
    ensures Bits(buf, p, k) == [BitAt(buf, p)] + Bits(buf, p + 1, k - 1)
  {
  }

  /** `BitsCons` with the next position given as `q`. */
  lemma BitsFrom(buf: seq<Byte>, p: nat, k: nat, q: int, j: nat)
    requires k > 0 && q == p + 1 && j == k - 1
    ensures Bits(buf, p, k) == [BitAt(buf, p)] + Bits(buf, q, j)
  {
    BitsCons(buf, p, k);
  }

  lemma BitsPastTheEnd(buf: seq<Byte>, p: nat, k: nat, q: int)
    requires k > 0 && p >= 8 * |buf| && q == p
    ensures Bits(buf, p, k) == [0] + Bits(buf, q, k - 1)
  {
    forall j | 0 <= j < k ensures Bits(buf, p, k)[j] == ([0] + Bits(buf, p, k - 1))[j] {
      PastTheEnd(buf, p + j);
      if j > 0 {
        PastTheEnd(buf, p + j - 1);
      }
    }
  }

  /** `k` bit reads yield the `k` bits at the absolute position (zero past the
      end of the buffer), and set the end flag exactly when they run past it. */
  lemma ReadBitsAgree(buf: seq<Byte>, s: State, k: nat)
    requires ValidState(buf, s)
    ensures var r := ReadBitsF(buf, s, k);
      var p := PositionOf(s.at);
      && r.value == Bits(buf, p, k)
      && PositionOf(r.after.at) == (if p + k <= 8 * |buf| then p + k else Max(p, 8 * |buf|))
      && r.after.ended == (s.ended || (k > 0 && p + k > 8 * |buf|))
  {
    ReadBitsValue(buf, s, k);
    ReadBitsPosition(buf, s, k);
  }

  /** The bits `k` bit reads yield. */
  lemma {:induction false} ReadBitsValue(buf: seq<Byte>, s: State, k: nat)
    requires ValidState(buf, s)
    ensures ReadBitsF(buf, s, k).value == Bits(buf, PositionOf(s.at), k)
    decreases k
  {
    if k > 0 {
      var p := PositionOf(s.at);
      var b := ReadBitF(buf, s);
      ReadBitAgrees(buf, s);
      var q := PositionOf(b.after.at);
      ReadBitsValue(buf, b.after, k - 1);
      assert ReadBitsF(buf, s, k).value == [b.value] + ReadBitsF(buf, b.after, k - 1).value;
      if p < 8 * |buf| {
        BitsFrom(buf, p, k, q, k - 1);
      } else {
        PastTheEnd(buf, p);
        BitsPastTheEnd(buf, p, k, q);
      }
    }
  }

  /** Where `k` bit reads leave the cursor and the end flag. */
  lemma {:induction false} ReadBitsPosition(buf: seq<Byte>, s: State, k: nat)
    requires ValidState(buf, s)
    ensures var r := ReadBitsF(buf, s, k);
      var p := PositionOf(s.at);
      && PositionOf(r.after.at) == (if p + k <= 8 * |buf| then p + k else Max(p, 8 * |buf|))
      && r.after.ended == (s.ended || (k > 0 && p + k > 8 * |buf|))
    decreases k
  {
    if k > 0 {
      var b := ReadBitF(buf, s);
      ReadBitAgrees(buf, s);
      ReadBitsPosition(buf, b.after, k - 1);
      assert ReadBitsF(buf, s, k).after == ReadBitsF(buf, b.after, k - 1).after;
      var p, q := PositionOf(s.at), PositionOf(b.after.at);
      var at := PositionOf(ReadBitsF(buf, s, k).after.at);
      if p < 8 * |buf| {
        assert q == p + 1 && b.after.ended == s.ended;
        assert at == if p + k <= 8 * |buf| then p + k else 8 * |buf|;
      } else {
        assert q == p && b.after.ended;
        assert at == p;
      }
    }
  }

  lemma WindowCons(buf: seq<Byte>, i: nat, k: nat)
    requires k > 0
    ensures Window(buf, i, k) == [ByteAt(buf, i)] + Window(buf, i + 1, k - 1)
  {
  }

  lemma WindowPastTheEnd(buf: seq<Byte>, k: nat)
    requires k > 0
    ensures Window(buf, |buf|, k) == [0] + Window(buf, |buf|, k - 1)
  {
    forall j | 0 <= j < k ensures Window(buf, |buf|, k)[j] == ([0] + Window(buf, |buf|, k - 1))[j] {
      assert Window(buf, |buf|, k)[j] == ByteAt(buf, |buf| + j) == 0;
      if j > 0 {
        assert Window(buf, |buf|, k - 1)[j - 1] == ByteAt(buf, |buf| + j - 1) == 0;
      }
    }
  }

  /** `k` byte reads yield the window of `k` bytes at the index (zero past the
      end), keep the bit number, and set the end flag exactly when they run
      past the end of the buffer. */
  lemma {:induction false} ReadBytesAgree(buf: seq<Byte>, s: State, k: nat)
    requires ValidState(buf, s)
    ensures var r := ReadBytesF(buf, s, k);
      && r.value == Window(buf, s.at.index, k)
      && r.after.at == Cursor(Min(s.at.index + k, |buf|), s.at.bitNumber)
      && r.after.ended == (s.ended || s.at.index + k > |buf|)
    decreases k
  {
    if k > 0 {
      var b := ReadByteF(buf, s);
      ReadBytesAgree(buf, b.after, k - 1);
      if s.at.index < |buf| {
        WindowCons(buf, s.at.index, k);
      } else {
        WindowPastTheEnd(buf, k);
      }
    }
  }

  /** `k + 1` byte reads are `k` reads and one more. */
  lemma {:induction false} ReadBytesStep(buf: seq<Byte>, s: State, k: nat)
    requires ValidState(buf, s)
    ensures var r := ReadBytesF(buf, s, k);
      var b := ReadByteF(buf, r.after);
      ReadBytesF(buf, s, k + 1) == Read(r.value + [b.value], b.after)
    decreases k
  {
    if k > 0 {
      var b := ReadByteF(buf, s);
      ReadBytesStep(buf, b.after, k - 1);
      var r := ReadBytesF(buf, b.after, k - 1);
      var last := ReadByteF(buf, r.after);
      assert ReadBytesF(buf, s, k) == Read([b.value] + r.value, r.after);
      assert ReadBytesF(buf, b.after, k) == Read(r.value + [last.value], last.after);
      assert ReadBytesF(buf, s, k + 1) == Read([b.value] + ReadBytesF(buf, b.after, k).value, last.after);
      assert [b.value] + (r.value + [last.value]) == ([b.value] + r.value) + [last.value];
    } else {
      var b := ReadByteF(buf, s);
      assert ReadBytesF(buf, s, 1) == Read([b.value] + [], b.after);
      assert [] + [b.value] == [b.value] + [];
    }
  }

  /** `k + 1` bit reads are `k` reads and one more. */
  lemma {:induction false} ReadBitsStep(buf: seq<Byte>, s: State, k: nat)
    requires ValidState(buf, s)
    ensures var r := ReadBitsF(buf, s, k);
      var b := ReadBitF(buf, r.after);
      ReadBitsF(buf, s, k + 1) == Read(r.value + [b.value], b.after)
    decreases k
  {
    if k > 0 {
      var b := ReadBitF(buf, s);
      ReadBitsStep(buf, b.after, k - 1);
      var r := ReadBitsF(buf, b.after, k - 1);
      var last := ReadBitF(buf, r.after);
      assert ReadBitsF(buf, s, k) == Read([b.value] + r.value, r.after);
      assert ReadBitsF(buf, b.after, k) == Read(r.value + [last.value], last.after);
      assert ReadBitsF(buf, s, k + 1) == Read([b.value] + ReadBitsF(buf, b.after, k).value, last.after);
      assert [b.value] + (r.value + [last.value]) == ([b.value] + r.value) + [last.value];
    } else {
      var b := ReadBitF(buf, s);
      assert ReadBitsF(buf, s, 1) == Read([b.value] + [], b.after);
      assert [] + [b.value] == [b.value] + [];
    }
  }

  /** `a + b` byte reads are `a` reads followed by `b` reads. */
  lemma {:induction false} ReadBytesSplit(buf: seq<Byte>, s: State, a: nat, b: nat)
    requires ValidState(buf, s)
    ensures var r := ReadBytesF(buf, s, a);
      var q := ReadBytesF(buf, r.after, b);
      ReadBytesF(buf, s, a + b) == Read(r.value + q.value, q.after)
    decreases a
  {
    if a > 0 {
      var x := ReadByteF(buf, s);
      ReadBytesSplit(buf, x.after, a - 1, b);
      var r := ReadBytesF(buf, x.after, a - 1);
      var q := ReadBytesF(buf, r.after, b);
      assert [x.value] + (r.value + q.value) == ([x.value] + r.value) + q.value;
    } else {
      assert [] + ReadBytesF(buf, s, b).value == ReadBytesF(buf, s, b).value;
    }
  }

  /** No read and no rewind clears the end flag. */
  lemma EndIsSticky(buf: seq<Byte>, s: State, n: int, k: nat)
    requires ValidState(buf, s) && s.ended
    ensures ReadBitF(buf, s).after.ended && ReadByteF(buf, s).after.ended
    ensures ReadBitsF(buf, s, k).after.ended && ReadBytesF(buf, s, k).after.ended
    ensures BytesBackF(s, n).ended
  {
    ReadBitsAgree(buf, s, k);
    ReadBytesAgree(buf, s, k);
  }

  /** `BytesBack(0)` changes nothing; `BytesBack(n)` after `n` in-bounds byte
      reads returns to where they started. */
  lemma BytesBackUndoesReads(buf: seq<Byte>, s: State, n: nat)
    requires ValidState(buf, s)
    ensures BytesBackF(s, 0) == s
    ensures s.at.index + n <= |buf| ==> BytesBackF(ReadBytesF(buf, s, n).after, n).at == s.at
  {
    ReadBytesAgree(buf, s, n);
  }

  class InputBitStream {
    const buffer: seq<Byte>
    var index: int
    var bitNumber: int
    var streamEnd: bool

    ghost predicate Valid()
      reads this
    {
      ValidState(buffer, Snapshot())
    }

    /** The fields as a state value. */
    function Snapshot(): State
      reads this
    {
      State(Cursor(index, bitNumber), streamEnd)
    }

    /** `InputBitStream(const std::vector<unsigned char>&)`. */
    constructor (bytes: seq<Byte>)
      ensures Valid() && buffer == bytes && Snapshot() == Start
    {
      buffer := bytes;
      index := 0;
      bitNumber := 7;
      streamEnd := false;
    }

    /** `InputBitStream(const std::string&)`: each `char` becomes an unsigned
        byte. A `std::string` holds bytes, so the characters here are below
        256. */
    constructor FromString(s: string)
      requires forall i | 0 <= i < |s| :: s[i] < 256 as char
      ensures Valid() && |buffer| == |s| && Snapshot() == Start
      ensures forall i | 0 <= i < |s| :: buffer[i] == s[i] as int
    {
      buffer := seq(|s|, i requires 0 <= i < |s| => s[i] as int);
      index := 0;
      bitNumber := 7;
      streamEnd := false;
    }

    /** `operator>>(bit&)`. */
    method ReadBit() returns (value: Bit)
      requires Valid()
      modifies this
      ensures Valid() && Read(value, Snapshot()) == ReadBitF(buffer, old(Snapshot()))
    {
      value := 0;
      if index < |buffer| {
        value := BitOf(buffer[index], bitNumber);
        bitNumber := bitNumber - 1;
        if bitNumber == -1 {
          bitNumber := 7;
          index := index + 1;
        }
      } else {
        streamEnd := true;
      }
    }

    /** `operator>>(byte&)`: reads the byte at `_index` whatever the bit number. */
    method ReadByte() returns (value: Byte)
      requires Valid()
      modifies this`index, this`streamEnd
      ensures Valid() && Read(value, Snapshot()) == ReadByteF(buffer, old(Snapshot()))
    {
      value := 0;
      if index < |buffer| {
        value := buffer[index];
        index := index + 1;
      } else {
        streamEnd := true;
      }
    }

    /** `explicit operator bool`: false from the first read past the end on. */
    predicate Good()
      reads this
    {
      !streamEnd
    }

    /** `BitsBack` as written. */
    method BitsBack(n: int)
      requires Valid() && n >= 0
      modifies this`index, this`bitNumber
      ensures Valid()
      ensures Snapshot() == State(BitsBackCursor(old(Snapshot()).at, n), streamEnd)
    {
      var chars := n / 8;
      var bits := n - chars * 8;
      bitNumber := bitNumber - bits;
      if bitNumber < 0 {
        bitNumber := bitNumber + 8;
        index := index - 1;
      }
      BytesBack(chars);
    }

    /** `BytesBack`: back `n` bytes, never before the start of the buffer. */
    method BytesBack(n: int)
      requires -1 <= index <= |buffer| && 0 <= bitNumber <= 7 && n >= 0
      modifies this`index
      ensures Valid() && Snapshot() == BytesBackF(old(Snapshot()), n)
    {
      index := index - n;
      index := Max(index, 0);
    }

    /** `Size()`: the number of bytes from the cursor's byte to the end. */
    function Size(): (r: nat)
      reads this
      requires Valid()
      ensures r + index == |buffer|
    {
      |buffer| - index
    }
  }
}
