/** The entropy-coded part of `process_start_of_scan` (Jpeg.cpp:219-391) as
    functions of the stream state: Huffman decoding by walking the tree bit by
    bit, the EXTEND of Figure F.12, the DC and AC loops of one block, six
    blocks per round, the end-of-image and stuffed-zero checks between rounds,
    and the DC post-pass. */
module Scan {
  import opened Common
  import opened Binary
  import opened BitStream
  import opened HuffmanTrie
  import opened Canonical
  import opened Zigzag
  import opened Segments

  //--------------------------------------------------------------------------
  // Progress of the stream
  //--------------------------------------------------------------------------

  /** Bit positions not yet read; every in-bounds bit read lowers it. */
  function Remaining(buf: seq<Byte>, s: State): nat
    requires ValidState(buf, s)
  {
    8 * |buf| + 8 - PositionOf(s.at)
  }

  /** Reads only move forward and never clear the end flag. */
  ghost predicate Forward(buf: seq<Byte>, s: State, s': State)
    requires ValidState(buf, s) && ValidState(buf, s')
  {
    (s.ended ==> s'.ended) && Remaining(buf, s') <= Remaining(buf, s)
  }

  /** What a segment handler guarantees: the end flag is kept, and unless the
      stream has ended the cursor is not behind where it was (a `BytesBack`
      after reads that hit the end may move it back). */
  ghost predicate Progress(buf: seq<Byte>, s: State, s': State)
    requires ValidState(buf, s) && ValidState(buf, s')
  {
    (s.ended ==> s'.ended) && (!s'.ended ==> Remaining(buf, s') <= Remaining(buf, s))
  }

  lemma BitsGoForward(buf: seq<Byte>, s: State, k: nat)
    requires ValidState(buf, s)
    ensures Forward(buf, s, ReadBitsF(buf, s, k).after)
  {
    ReadBitsAgree(buf, s, k);
  }

  lemma BytesGoForward(buf: seq<Byte>, s: State, k: nat)
    requires ValidState(buf, s)
    ensures Forward(buf, s, ReadBytesF(buf, s, k).after)
  {
    ReadBytesAgree(buf, s, k);
  }

  //--------------------------------------------------------------------------
  // Huffman decoding
  //--------------------------------------------------------------------------

  /** How a walk down the tree ends: at a code end, at the end of the stream,
      or on a missing child (`Step` throws). */
  datatype Decoded = Found(value: Byte, after: State) | Ended(after: State) | Invalid

  /** The `while (stream >> next)` loop from tree path `at`: read a bit, stop
      if the stream has ended, step left on 0 and right on 1, stop at a code
      end. */
  function DecodeF(buf: seq<Byte>, t: Trie, at: Path, s: State): (r: Decoded)
    requires ValidState(buf, s)
    ensures r.Found? ==> ValidState(buf, r.after) && !r.after.ended && Remaining(buf, r.after) < Remaining(buf, s)
    ensures r.Ended? ==> ValidState(buf, r.after) && r.after.ended && Forward(buf, s, r.after)
    decreases Remaining(buf, s)
  {
    var b := ReadBitF(buf, s);
    ReadBitAgrees(buf, s);
    if b.after.ended then Ended(b.after)
    else
      var next := at + [b.value];
      if next !in t then Invalid
      else if t[next].codeEnd then Found(t[next].value, b.after)
      else DecodeF(buf, t, next, b.after)
  }

  /** `DecodeF` unfolded once, for the proofs below. */
  lemma DecodeOnce(buf: seq<Byte>, t: Trie, at: Path, s: State)
    requires ValidState(buf, s)
    ensures var b := ReadBitF(buf, s);
      var next := at + [b.value];
      && ValidState(buf, b.after)
      && (!b.after.ended ==> Remaining(buf, b.after) < Remaining(buf, s))
      && DecodeF(buf, t, at, s) ==
           if b.after.ended then Ended(b.after)
           else if next !in t then Invalid
           else if t[next].codeEnd then Found(t[next].value, b.after)
           else DecodeF(buf, t, next, b.after)
  {
    ReadBitAgrees(buf, s);
  }

  /** A decoded value is the label of a code end of the tree, reached by the
      bits read from `at` on. */
  lemma {:induction false} DecodeWalks(buf: seq<Byte>, t: Trie, at: Path, s: State) returns (c: Path)
    requires ValidState(buf, s) && DecodeF(buf, t, at, s).Found?
    ensures var r := DecodeF(buf, t, at, s);
      && |c| > |at| && c[..|at|] == at
      && PositionOf(r.after.at) == PositionOf(s.at) + (|c| - |at|)
      && c[|at|..] == Bits(buf, PositionOf(s.at), |c| - |at|)
      && c in t && t[c].codeEnd && t[c].value == r.value
    decreases Remaining(buf, s)
  {
    var b := ReadBitF(buf, s);
    ReadBitAgrees(buf, s);
    DecodeOnce(buf, t, at, s);
    var p := PositionOf(s.at);
    var next := at + [b.value];
    if t[next].codeEnd {
      c := next;
      assert c[|at|..] == [b.value];
      BitsCons(buf, p, 1);
    } else {
      c := DecodeWalks(buf, t, next, b.after);
      BitsFrom(buf, p, |c| - |at|, PositionOf(b.after.at), |c| - |next|);
      ExtendWalk(at, b.value, c);
    }
  }

  /** A path that starts with `at + [bit]` starts with `at`, and its part
      after `at` is `bit` then the rest. */
  lemma ExtendWalk(at: Path, bit: Bit, c: Path)
    requires |c| > |at| + 1 && c[..|at| + 1] == at + [bit]
    ensures c[..|at|] == at && c[|at|..] == [bit] + c[|at| + 1..]
  {
    assert c[..|at| + 1][..|at|] == c[..|at|];
    assert c[|at|] == c[..|at| + 1][|at|];
  }

  /** With the tree of an Annex C table, every decoded value is the value of
      the code that the bits read spell. */
  lemma DecodeFindsACode(buf: seq<Byte>, t: Trie, sizes: seq<nat>, values: seq<Byte>, s: State) returns (i: nat)
    requires Ascending(sizes) && |values| == |sizes| && CanonicalTable(t, sizes, values)
    requires ValidState(buf, s) && DecodeF(buf, t, [], s).Found?
    ensures var r := DecodeF(buf, t, [], s);
      && i < |sizes| && r.value == values[i]
      && Bits(buf, PositionOf(s.at), sizes[i]) == Code(sizes, i)
      && PositionOf(r.after.at) == PositionOf(s.at) + sizes[i]
  {
    var c := DecodeWalks(buf, t, [], s);
    assert IsEnd(t, c);
    var j :| 0 <= j < |sizes| && c == Code(sizes, j);
    i := j;
    assert c[0..] == c;
  }

  /** Every path of a trie has its prefixes in it. */
  lemma {:induction false} PrefixInTrie(t: Trie, q: Path, j: nat)
    requires IsTrie(t) && q in t && j <= |q|
    ensures q[..j] in t
    decreases |q| - j
  {
    if j < |q| {
      PrefixInTrie(t, q, j + 1);
      assert q[..j + 1] == q[..j] + [q[j]];
      assert q[..j] + [q[j]] in t;
    } else {
      assert q[..j] == q;
    }
  }

  /** Conversely, when the next bits spell code `i` of an Annex C table, the
      walk from the root finds value `i` and stops right after the code. */
  lemma DecodeReadsCode(buf: seq<Byte>, t: Trie, sizes: seq<nat>, values: seq<Byte>, s: State, i: nat)
    requires Ascending(sizes) && Fits(sizes) && |values| == |sizes| && CanonicalTable(t, sizes, values)
    requires ValidState(buf, s) && !s.ended && i < |sizes| && sizes[i] >= 1
    requires PositionOf(s.at) + sizes[i] <= 8 * |buf|
    requires Bits(buf, PositionOf(s.at), sizes[i]) == Code(sizes, i)
    ensures DecodeF(buf, t, [], s) == Found(values[i], ReadBitsF(buf, s, sizes[i]).after)
  {
    ReadBitsAgree(buf, s, 0);
    DecodeAlong(buf, t, sizes, values, s, i, 0);
  }

  /** DecodeReadsCode after the first `j` bits of the code. */
  lemma {:induction false} DecodeAlong(buf: seq<Byte>, t: Trie, sizes: seq<nat>, values: seq<Byte>, s: State, i: nat, j: nat)
    requires Ascending(sizes) && Fits(sizes) && |values| == |sizes| && CanonicalTable(t, sizes, values)
    requires ValidState(buf, s) && !s.ended && i < |sizes| && j < sizes[i]
    requires PositionOf(s.at) + sizes[i] <= 8 * |buf|
    requires Bits(buf, PositionOf(s.at), sizes[i]) == Code(sizes, i)
    ensures var r := ReadBitsF(buf, s, j);
      DecodeF(buf, t, Code(sizes, i)[..j], r.after) == Found(values[i], ReadBitsF(buf, s, sizes[i]).after)
    decreases sizes[i] - j
  {
    var code := Code(sizes, i);
    var r := ReadBitsF(buf, s, j);
    NextCodeBit(buf, s, code, j);
    var b := ReadBitF(buf, r.after);
    var next := code[..j] + [b.value];
    assert next == code[..j + 1];
    DecodeOnce(buf, t, code[..j], r.after);
    if j + 1 < sizes[i] {
      InnerPrefix(t, sizes, values, i, j + 1);
      DecodeAlong(buf, t, sizes, values, s, i, j + 1);
    } else {
      assert next == code;
    }
  }

  /** With the bits `code` ahead in the buffer, the bit read after `j` of
      them is bit `j` of `code`, and the stream has not ended. */
  lemma NextCodeBit(buf: seq<Byte>, s: State, code: seq<Bit>, j: nat)
    requires ValidState(buf, s) && !s.ended && j < |code|
    requires PositionOf(s.at) + |code| <= 8 * |buf| && Bits(buf, PositionOf(s.at), |code|) == code
    ensures var r := ReadBitsF(buf, s, j);
      var b := ReadBitF(buf, r.after);
      && b.value == code[j] && !b.after.ended
      && ReadBitsF(buf, s, j + 1) == Read(r.value + [b.value], b.after)
  {
    var p := PositionOf(s.at);
    var r := ReadBitsF(buf, s, j);
    ReadBitsAgree(buf, s, j);
    ReadBitAgrees(buf, r.after);
    ReadBitsStep(buf, s, j);
    assert PositionOf(r.after.at) == p + j;
    assert code[j] == BitAt(buf, p + j);
  }

  /** A proper prefix of a code of an Annex C table is an inner node of its
      tree. */
  lemma InnerPrefix(t: Trie, sizes: seq<nat>, values: seq<Byte>, i: nat, j: nat)
    requires Ascending(sizes) && Fits(sizes) && |values| == |sizes| && CanonicalTable(t, sizes, values)
    requires i < |sizes| && j < sizes[i]
    ensures Code(sizes, i)[..j] in t && !t[Code(sizes, i)[..j]].codeEnd
  {
    var c := Code(sizes, i)[..j];
    PrefixInTrie(t, Code(sizes, i), j);
    if t[c].codeEnd {
      assert IsEnd(t, c);
      var k :| 0 <= k < |sizes| && c == Code(sizes, k);
      PrefixFree(sizes, k, i);
    }
  }

  //--------------------------------------------------------------------------
  // Magnitudes
  //--------------------------------------------------------------------------

  /** The value of `s` magnitude bits (Figure F.12, EXTEND): read as a number,
      and when the first bit is 0, lowered by `2^s - 1`. */
  function Extend(bits: seq<Bit>): int
  {
    if |bits| == 0 || bits[0] == 1 then FromBits(bits) else FromBits(bits) - (Pow2(|bits|) - 1)
  }

  /** Category `s` holds the values whose magnitude is in `2^(s-1) .. 2^s - 1`,
      positive when the first bit is 1 (Table F.1). */
  lemma ExtendRange(bits: seq<Bit>)
    requires |bits| > 0
    ensures var v: int, h: int := Extend(bits), Pow2(|bits| - 1);
      && (bits[0] == 1 ==> h <= v < 2 * h)
      && (bits[0] == 0 ==> -(2 * h - 1) <= v <= -h)
  {
    FromBitsPrefix(bits, 1);
    assert FromBits(bits[..1]) == bits[0] by {
      assert bits[..1][..0] == [];
    }
    DivRange(FromBits(bits), Pow2(|bits| - 1), bits[0]);
  }

  /** Two examples of the table: `011` is -4 and `101` is 5. */
  lemma ExtendExamples()
    ensures Extend([0, 1, 1]) == -4 && Extend([1, 0, 1]) == 5
  {
    assert [0, 1, 1][..2] == [0, 1] && [0, 1][..1] == [0] && [0][..0] == [];
    assert [1, 0, 1][..2] == [1, 0] && [1, 0][..1] == [1] && [1][..0] == [];
  }

  //--------------------------------------------------------------------------
  // One block
  //--------------------------------------------------------------------------

  /** A block being decoded: the matrix, `zigzag_order_counter`, the stream. */
  datatype Block = Block(matrix: Matrix, counter: nat, after: State)

  /** The DC loop: decode one category; when it is not 0, read that many bits
      and store their value at the first zig-zag cell. The counter is 1 once a
      code was found, 0 if the stream ended first. */
  function DcF(buf: seq<Byte>, dc: Trie, zz: seq<Cell>, m: Matrix, s: State): (r: Result<Block>)
    requires ValidState(buf, s)
    ensures r.Ok? ==> ValidState(buf, r.value.after) && Forward(buf, s, r.value.after)
  {
    match DecodeF(buf, dc, [], s)
    case Invalid => Err(InvalidHuffmanCode)
    case Ended(e) => Ok(Block(m, 0, e))
    case Found(size, f) =>
      if size == 0 then Ok(Block(m, 1, f))
      else
        var mag := ReadBitsF(buf, f, size);
        BitsGoForward(buf, f, size);
        if |zz| == 0 then Err(IndexOutOfRange)
        else
          match Put(m, zz[0], Extend(mag.value))
          case Err(e) => Err(e)
          case Ok(m1) => Ok(Block(m1, 1, mag.after))
  }

  /** The AC loop from a fresh walk down the tree. */
  function AcF(buf: seq<Byte>, ac: Trie, zz: seq<Cell>, m: Matrix, counter: nat, s: State): (r: Result<Block>)
    requires ValidState(buf, s)
    ensures r.Ok? ==> ValidState(buf, r.value.after) && Forward(buf, s, r.value.after)
    decreases Remaining(buf, s), 0
  {
    AcAfter(buf, ac, zz, m, counter, DecodeF(buf, ac, [], s))
  }

  /** What the AC loop does with a decoded value `RS`: 0 ends the block;
      otherwise the counter skips `R` cells and stops past the last cell;
      with `S != 0` the next `S` bits give the value stored at the counter's
      cell, and the counter moves on; then the walk restarts at the root. */
  function AcAfter(buf: seq<Byte>, ac: Trie, zz: seq<Cell>, m: Matrix, counter: nat, d: Decoded): (r: Result<Block>)
    requires !d.Invalid? ==> ValidState(buf, d.after)
    ensures r.Ok? ==> !d.Invalid? && ValidState(buf, r.value.after) && Forward(buf, d.after, r.value.after)
    decreases if d.Found? then Remaining(buf, d.after) else 0, 1
  {
    match d
    case Invalid => Err(InvalidHuffmanCode)
    case Ended(e) => Ok(Block(m, counter, e))
    case Found(v, f) =>
      if v == 0 then Ok(Block(m, counter, f))
      else
        var c := counter + HighNibble(v);
        if c >= |zz| then Ok(Block(m, c, f))
        else if LowNibble(v) == 0 then AcF(buf, ac, zz, m, c, f)
        else
          var mag := ReadBitsF(buf, f, LowNibble(v));
          BitsGoForward(buf, f, LowNibble(v));
          match Put(m, zz[c], Extend(mag.value))
          case Err(e) => Err(e)
          case Ok(m1) =>
            if c + 1 >= |zz| then Ok(Block(m1, c + 1, mag.after))
            else AcF(buf, ac, zz, m1, c + 1, mag.after)
  }

  /** The two special values of `RS`: `0x00` ends the block where the
      counter is, and `0xF0` moves the counter on by fifteen cells, not the
      sixteen of section F.2.2.2, storing nothing. */
  lemma AcSymbols(buf: seq<Byte>, ac: Trie, zz: seq<Cell>, m: Matrix, counter: nat, f: State)
    requires ValidState(buf, f)
    ensures AcAfter(buf, ac, zz, m, counter, Found(0x00, f)) == Ok(Block(m, counter, f))
    ensures AcAfter(buf, ac, zz, m, counter, Found(0xF0, f)) ==
      if counter + 15 >= |zz| then Ok(Block(m, counter + 15, f)) else AcF(buf, ac, zz, m, counter + 15, f)
  {
  }

  /** `_huffman_trees[id][kind]`: an error when no table of that id was
      defined, or only the other kind. */
  function TreeOf(trees: map<int, seq<Option<Trie>>>, id: int, kind: nat): Result<Trie>
  {
    if id in trees && kind < |trees[id]| && trees[id][kind].Some? then Ok(trees[id][kind].value)
    else Err(UndefinedTable)
  }

  /** What the scan works with. */
  datatype ScanTables = ScanTables(
    trees: map<int, seq<Option<Trie>>>,
    components: seq<ScanComponent>,
    zigzag: seq<Cell>,
    dim: nat)

  /** The component of matrix `k` of a round: 0 for the first four, then
      `k - 3`. */
  function ComponentIndex(k: nat): nat
  {
    if k <= 3 then 0 else k - 3
  }

  /** One block: a zero matrix of the size of quantization table 0, its DC
      coefficient with the DC table of the component's `Td`, then its AC
      coefficients with the AC table of that same `Td`. */
  function BlockF(buf: seq<Byte>, ctx: ScanTables, k: nat, s: State): (r: Result<Block>)
    requires ValidState(buf, s)
    ensures r.Ok? ==> ValidState(buf, r.value.after) && Forward(buf, s, r.value.after)
  {
    var ci := ComponentIndex(k);
    if ci >= |ctx.components| then Err(IndexOutOfRange)
    else
      var td := HighNibble(ctx.components[ci].tables);
      match TreeOf(ctx.trees, td, 0)
      case Err(e) => Err(e)
      case Ok(dc) =>
        match DcF(buf, dc, ctx.zigzag, Zeros(ctx.dim), s)
        case Err(e) => Err(e)
        case Ok(b) =>
          match TreeOf(ctx.trees, td, 1)
          case Err(e) => Err(e)
          case Ok(ac) => AcF(buf, ac, ctx.zigzag, b.matrix, b.counter, b.after)
  }

  /** Two matrices with the same rows of the same lengths. */
  ghost predicate SameShape(a: Matrix, b: Matrix)
  {
    |a| == |b| && forall i | 0 <= i < |a| :: |a[i]| == |b[i]|
  }

  /** The cells of the zig-zag list from position `from` on. */
  ghost function Later(zz: seq<Cell>, from: nat): set<Cell>
  {
    set k | from <= k < |zz| :: zz[k]
  }

  /** The AC loop keeps the matrix's shape, never moves the counter back, and
      writes only cells the zig-zag list holds at or after the counter. */
  lemma {:induction false} AcKeeps(buf: seq<Byte>, ac: Trie, zz: seq<Cell>, m: Matrix, counter: nat, s: State)
    requires ValidState(buf, s)
    ensures var r := AcF(buf, ac, zz, m, counter, s);
      r.Ok? ==> && SameShape(r.value.matrix, m) && counter <= r.value.counter
                && forall i, j | 0 <= i < |m| && 0 <= j < |m[i]| && (i, j) !in Later(zz, counter) ::
                     r.value.matrix[i][j] == m[i][j]
    decreases Remaining(buf, s), 0
  {
    AcAfterKeeps(buf, ac, zz, m, counter, DecodeF(buf, ac, [], s));
  }

  /** AcKeeps, once the value `RS` is decoded. */
  lemma {:induction false} AcAfterKeeps(buf: seq<Byte>, ac: Trie, zz: seq<Cell>, m: Matrix, counter: nat, d: Decoded)
    requires !d.Invalid? ==> ValidState(buf, d.after)
    ensures var r := AcAfter(buf, ac, zz, m, counter, d);
      r.Ok? ==> && SameShape(r.value.matrix, m) && counter <= r.value.counter
                && forall i, j | 0 <= i < |m| && 0 <= j < |m[i]| && (i, j) !in Later(zz, counter) ::
                     r.value.matrix[i][j] == m[i][j]
    decreases if d.Found? then Remaining(buf, d.after) else 0, 1
  {
    if d.Found? && d.value != 0 {
      var v, f := d.value, d.after;
      var c := counter + HighNibble(v);
      if c < |zz| {
        assert Later(zz, c) <= Later(zz, counter);
        if LowNibble(v) == 0 {
          AcKeeps(buf, ac, zz, m, c, f);
        } else {
          var mag := ReadBitsF(buf, f, LowNibble(v));
          BitsGoForward(buf, f, LowNibble(v));
          var p := Put(m, zz[c], Extend(mag.value));
          assert zz[c] in Later(zz, counter);
          if p.Ok? && c + 1 < |zz| {
            assert Later(zz, c + 1) <= Later(zz, counter);
            AcKeeps(buf, ac, zz, p.value, c + 1, mag.after);
          }
        }
      }
    }
  }

  /** The DC loop writes at most the first zig-zag cell and keeps the shape. */
  lemma DcKeeps(buf: seq<Byte>, dc: Trie, zz: seq<Cell>, m: Matrix, s: State)
    requires ValidState(buf, s)
    ensures var r := DcF(buf, dc, zz, m, s);
      r.Ok? ==> && SameShape(r.value.matrix, m) && r.value.counter <= 1
                && forall i, j | 0 <= i < |m| && 0 <= j < |m[i]| && (i, j) !in Later(zz, 0) ::
                     r.value.matrix[i][j] == m[i][j]
  {
    if |zz| > 0 {
      assert zz[0] in Later(zz, 0);
    }
  }

  /** `m'` is `m` with cell `c` set to `v`: the same shape, `v` at `c`, and
      every other cell kept. */
  ghost predicate Stored(m: Matrix, m': Matrix, c: Cell, v: int)
  {
    && InTable(m, c) && SameShape(m', m) && m'[c.0][c.1] == v
    && forall i, j | InTable(m, (i, j)) && (i, j) != c :: m'[i][j] == m[i][j]
  }

  /** A successful `Put` is a store of that one cell. */
  lemma PutStores(m: Matrix, c: Cell, v: int)
    requires InTable(m, c)
    ensures Put(m, c, v).Ok? && Stored(m, Put(m, c, v).value, c, v)
  {
  }

  /** How the DC loop ends, by what the walk down the DC tree finds. A
      category of 0 stores nothing and still moves the counter to 1. A
      category `size > 0` stores the EXTEND of the next `size` bits of the
      buffer at the first zig-zag cell, keeps every other cell, moves the
      counter to 1 and leaves the stream just past those bits; an error when
      that cell is missing. An invalid code is an error; a stream that ends
      first leaves the matrix and the counter 0. */
  lemma DcOutcome(buf: seq<Byte>, dc: Trie, zz: seq<Cell>, m: Matrix, s: State)
    requires ValidState(buf, s)
    ensures var d := DecodeF(buf, dc, [], s);
      var r := DcF(buf, dc, zz, m, s);
      && (d.Invalid? ==> r == Err(InvalidHuffmanCode))
      && (d.Ended? ==> r == Ok(Block(m, 0, d.after)))
      && (d.Found? && d.value == 0 ==> r == Ok(Block(m, 1, d.after)))
      && (d.Found? && d.value > 0 && !(|zz| > 0 && InTable(m, zz[0])) ==> r == Err(IndexOutOfRange))
      && (d.Found? && d.value > 0 && |zz| > 0 && InTable(m, zz[0]) ==>
            && r.Ok? && r.value.counter == 1
            && r.value.after == ReadBitsF(buf, d.after, d.value).after
            && Stored(m, r.value.matrix, zz[0], Extend(Bits(buf, PositionOf(d.after.at), d.value))))
  {
    var d := DecodeF(buf, dc, [], s);
    if d.Found? && d.value > 0 && |zz| > 0 && InTable(m, zz[0]) {
      ReadBitsAgree(buf, d.after, d.value);
      PutStores(m, zz[0], Extend(ReadBitsF(buf, d.after, d.value).value));
    }
  }

  /** What the AC loop does with a decoded `RS` other than 0, where `c` is
      the counter moved on by the run `R`: once `c` reaches the length of the
      zig-zag list the block ends with counter `c`; with `S = 0` the walk
      restarts from `c`; otherwise the EXTEND of the next `S` bits of the
      buffer is stored at cell `c` (an error when that cell is missing), and
      the block ends with counter `c + 1` when that was the last cell, or the
      walk restarts from `c + 1`. */
  lemma AcOutcome(buf: seq<Byte>, ac: Trie, zz: seq<Cell>, m: Matrix, counter: nat, v: Byte, f: State)
    requires ValidState(buf, f)
    ensures var c := counter + HighNibble(v);
      var r := AcAfter(buf, ac, zz, m, counter, Found(v, f));
      && (v == 0 ==> r == Ok(Block(m, counter, f)))
      && (v != 0 && c >= |zz| ==> r == Ok(Block(m, c, f)))
      && (v != 0 && c < |zz| && LowNibble(v) == 0 ==> r == AcF(buf, ac, zz, m, c, f))
      && (v != 0 && c < |zz| && LowNibble(v) != 0 && !InTable(m, zz[c]) ==> r == Err(IndexOutOfRange))
      && (v != 0 && c < |zz| && LowNibble(v) != 0 && InTable(m, zz[c]) ==>
            var after := ReadBitsF(buf, f, LowNibble(v)).after;
            var p := Put(m, zz[c], Extend(Bits(buf, PositionOf(f.at), LowNibble(v))));
            && p.Ok? && Stored(m, p.value, zz[c], Extend(Bits(buf, PositionOf(f.at), LowNibble(v))))
            && r == if c + 1 == |zz| then Ok(Block(p.value, c + 1, after)) else AcF(buf, ac, zz, p.value, c + 1, after))
  {
    var c := counter + HighNibble(v);
    if v != 0 && c < |zz| && LowNibble(v) != 0 && InTable(m, zz[c]) {
      ReadBitsAgree(buf, f, LowNibble(v));
      PutStores(m, zz[c], Extend(Bits(buf, PositionOf(f.at), LowNibble(v))));
    }
  }

  /** A decoded block is `dim` by `dim`, and a cell the zig-zag list does not
      hold stays 0. */
  lemma BlockShape(buf: seq<Byte>, ctx: ScanTables, k: nat, s: State)
    requires ValidState(buf, s)
    ensures var r := BlockF(buf, ctx, k, s);
      r.Ok? ==> && SameShape(r.value.matrix, Zeros(ctx.dim)) && |r.value.matrix| == ctx.dim
                && forall i, j | 0 <= i < ctx.dim && 0 <= j < ctx.dim && (i, j) !in Later(ctx.zigzag, 0) ::
                     r.value.matrix[i][j] == 0
  {
    var ci := ComponentIndex(k);
    if ci < |ctx.components| {
      var td := HighNibble(ctx.components[ci].tables);
      var z := Zeros(ctx.dim);
      if TreeOf(ctx.trees, td, 0).Ok? {
        var dc := TreeOf(ctx.trees, td, 0).value;
        DcKeeps(buf, dc, ctx.zigzag, z, s);
        var d := DcF(buf, dc, ctx.zigzag, z, s);
        if d.Ok? && TreeOf(ctx.trees, td, 1).Ok? {
          var b := d.value;
          AcKeeps(buf, TreeOf(ctx.trees, td, 1).value, ctx.zigzag, b.matrix, b.counter, b.after);
          assert Later(ctx.zigzag, b.counter) <= Later(ctx.zigzag, 0);
        }
      }
    }
  }

  /** Only the high nibble `Td` of a component's table byte matters: the DC
      and the AC table both come from it, and `Ta` is never looked at. */
  lemma BlockIgnoresTa(buf: seq<Byte>, ctx: ScanTables, ctx': ScanTables, k: nat, s: State)
    requires ValidState(buf, s)
    requires ctx'.trees == ctx.trees && ctx'.zigzag == ctx.zigzag && ctx'.dim == ctx.dim
    requires |ctx'.components| == |ctx.components|
    requires forall i | 0 <= i < |ctx.components| ::
      HighNibble(ctx'.components[i].tables) == HighNibble(ctx.components[i].tables)
    ensures BlockF(buf, ctx', k, s) == BlockF(buf, ctx, k, s)
  {
  }

  /** Blocks `k .. 5` of a round, appended to `acc`. */
  function BlocksF(buf: seq<Byte>, ctx: ScanTables, k: nat, acc: seq<Matrix>, s: State): (r: Result<Read<seq<Matrix>>>)
    requires ValidState(buf, s)
    ensures r.Ok? ==> ValidState(buf, r.value.after) && Forward(buf, s, r.value.after)
    ensures r.Ok? ==> |r.value.value| == |acc| + (if k < 6 then 6 - k else 0) && r.value.value[..|acc|] == acc
    decreases 6 - k
  {
    if k >= 6 then Ok(Read(acc, s))
    else
      match BlockF(buf, ctx, k, s)
      case Err(e) => Err(e)
      case Ok(b) =>
        var r := BlocksF(buf, ctx, k + 1, acc + [b.matrix], b.after);
        assert r.Ok? ==> r.value.value[..|acc|] == r.value.value[..|acc| + 1][..|acc|];
        r
  }

  //--------------------------------------------------------------------------
  // Rounds
  //--------------------------------------------------------------------------

  /** Two bytes peeked: read and put back. Unless the stream ended, that
      leaves the cursor where it was. */
  lemma PeekKeeps(buf: seq<Byte>, s: State)
    requires ValidState(buf, s)
    ensures var b := BytesBackF(ReadBytesF(buf, s, 2).after, 2);
      && ValidState(buf, b)
      && (s.ended ==> b.ended)
      && (!b.ended ==> b == s)
  {
    ReadBytesAgree(buf, s, 2);
    BytesBackUndoesReads(buf, s, 2);
  }

  /** Where a round starts decoding: after the stuffed-zero check (two zero
      bytes are consumed, or put back), which says whether the round is
      skipped. */
  function SkipCheck(buf: seq<Byte>, skip: bool, s: State): (r: (bool, State))
    requires ValidState(buf, s)
    ensures ValidState(buf, r.1) && Progress(buf, s, r.1)
  {
    if !skip then (false, s)
    else
      var z := ReadBytesF(buf, s, 2);
      BytesGoForward(buf, s, 2);
      if z.value == [0, 0] then (true, z.after)
      else
        PeekKeeps(buf, s);
        (false, BytesBackF(z.after, 2))
  }

  /** `out` is `acc` followed by a multiple of six matrices, at most
      `6 * rounds`. */
  ghost predicate AddsRounds(acc: seq<Matrix>, out: seq<Matrix>, rounds: nat)
  {
    && |acc| <= |out| <= |acc| + 6 * rounds
    && (|out| - |acc|) % 6 == 0
    && out[..|acc|] == acc
  }

  /** Six matrices, then the matrices of `rounds - 1` rounds. */
  lemma AddsRoundsStep(acc: seq<Matrix>, ms: seq<Matrix>, out: seq<Matrix>, rounds: nat)
    requires rounds > 0 && |ms| == |acc| + 6 && ms[..|acc|] == acc
    requires AddsRounds(ms, out, rounds - 1)
    ensures AddsRounds(acc, out, rounds)
  {
    assert out[..|acc|] == out[..|ms|][..|acc|];
  }

  /** The rounds of the scan: `left` rounds remain, `skip` is `skip_zero`. A
      round first consumes a pending `00 00` pair (the round then decodes
      nothing); then it peeks at two bytes: `FF D9` is consumed and ends the
      scan, `FF 00` sets `skip_zero`; then it decodes six blocks. */
  function RoundsF(buf: seq<Byte>, ctx: ScanTables, left: nat, skip: bool, acc: seq<Matrix>, s: State): (r: Result<Read<seq<Matrix>>>)
    requires ValidState(buf, s)
    ensures r.Ok? ==> ValidState(buf, r.value.after) && Progress(buf, s, r.value.after)
    ensures r.Ok? ==> AddsRounds(acc, r.value.value, left)
    decreases left
  {
    if left == 0 then Ok(Read(acc, s))
    else
      var (skipped, s1) := SkipCheck(buf, skip, s);
      if skipped then RoundsF(buf, ctx, left - 1, false, acc, s1)
      else
        var e := ReadBytesF(buf, s1, 2);
        BytesGoForward(buf, s1, 2);
        if e.value == [0xFF, 0xD9] then Ok(Read(acc, e.after))
        else
          PeekKeeps(buf, s1);
          match BlocksF(buf, ctx, 0, acc, BytesBackF(e.after, 2))
          case Err(err) => Err(err)
          case Ok(b) =>
            var r := RoundsF(buf, ctx, left - 1, skip || e.value == [0xFF, 0x00], b.value, b.after);
            if r.Ok? then AddsRoundsStep(acc, b.value, r.value.value, left); r else r
  }

  /** One round, by the bytes at the cursor's index `i` (byte reads ignore the
      bit number). With `skip_zero`
      set, a `00 00` pair there is consumed and the round decodes nothing.
      `FF D9` there is consumed and ends the scan with the matrices so far.
      Otherwise, with two bytes left, the peeks put the bytes back, six blocks
      are decoded from the cursor itself, and `FF 00` sets `skip_zero`. */
  lemma RoundBytes(buf: seq<Byte>, ctx: ScanTables, left: nat, skip: bool, ms: seq<Matrix>, s: State)
    requires ValidState(buf, s) && left > 0 && !s.ended
    ensures var i, bn := s.at.index, s.at.bitNumber;
      var zeros := skip && ByteAt(buf, i) == 0 && ByteAt(buf, i + 1) == 0;
      var r := RoundsF(buf, ctx, left, skip, ms, s);
      && (zeros ==>
            r == RoundsF(buf, ctx, left - 1, false, ms, State(Cursor(Min(i + 2, |buf|), bn), i + 2 > |buf|)))
      && (ByteAt(buf, i) == 0xFF && ByteAt(buf, i + 1) == 0xD9 ==>
            r == Ok(Read(ms, State(Cursor(i + 2, bn), false))))
      && (!zeros && i + 2 <= |buf| && !(ByteAt(buf, i) == 0xFF && ByteAt(buf, i + 1) == 0xD9) ==>
            r == match BlocksF(buf, ctx, 0, ms, s)
                 case Err(e) => Err(e)
                 case Ok(b) =>
                   RoundsF(buf, ctx, left - 1, skip || (ByteAt(buf, i) == 0xFF && ByteAt(buf, i + 1) == 0),
                           b.value, b.after))
  {
    var i := s.at.index;
    ReadBytesAgree(buf, s, 2);
    PeekKeeps(buf, s);
    var w := ReadBytesF(buf, s, 2).value;
    assert w == [ByteAt(buf, i), ByteAt(buf, i + 1)] by {
      assert w[0] == ByteAt(buf, i) && w[1] == ByteAt(buf, i + 1);
    }
    if i + 2 <= |buf| {
      BytesBackUndoesReads(buf, s, 2);
    }
  }

  //--------------------------------------------------------------------------
  // DC post-pass
  //--------------------------------------------------------------------------

  /** Matrix `i` has a `[0][0]` entry. */
  predicate HasCorner(ms: seq<Matrix>, i: nat)
  {
    i < |ms| && |ms[i]| > 0 && |ms[i][0]| > 0
  }

  /** `ms[i + 1][0][0] += ms[i][0][0]`. */
  function AddCorner(ms: seq<Matrix>, i: nat): seq<Matrix>
    requires HasCorner(ms, i) && HasCorner(ms, i + 1)
  {
    var m := ms[i + 1];
    ms[i + 1 := m[0 := m[0][0 := m[0][0] + ms[i][0][0]]]]
  }

  /** `for (i = from; i < 5; i++) res[i + 1][0][0] += res[i][0][0]`: an
      error at the first `i` where matrix `i` or `i + 1` is missing or has
      no corner. */
  function PostPassFrom(ms: seq<Matrix>, from: nat): Result<seq<Matrix>>
    decreases 5 - from
  {
    if from >= 5 then Ok(ms)
    else if !(HasCorner(ms, from) && HasCorner(ms, from + 1)) then Err(IndexOutOfRange)
    else PostPassFrom(AddCorner(ms, from), from + 1)
  }

  /** The post-pass of `process_start_of_scan`, from matrix 2. */
  function PostPass(ms: seq<Matrix>): Result<seq<Matrix>>
  {
    PostPassFrom(ms, 2)
  }

  /** The post-pass turns the corners of matrices 2 to 5 into running sums
      from matrix 2 on and changes nothing else. */
  lemma PostPassSums(ms: seq<Matrix>)
    requires HasCorner(ms, 2) && HasCorner(ms, 3) && HasCorner(ms, 4) && HasCorner(ms, 5)
    ensures var r := PostPass(ms);
      && r.Ok? && |r.value| == |ms|
      && r.value[2][0][0] == ms[2][0][0]
      && r.value[3][0][0] == ms[2][0][0] + ms[3][0][0]
      && r.value[4][0][0] == ms[2][0][0] + ms[3][0][0] + ms[4][0][0]
      && r.value[5][0][0] == ms[2][0][0] + ms[3][0][0] + ms[4][0][0] + ms[5][0][0]
      && (forall i | 0 <= i < |ms| && (i < 3 || i > 5) :: r.value[i] == ms[i])
      && (forall i | 3 <= i <= 5 :: |r.value[i]| == |ms[i]| && r.value[i][1..] == ms[i][1..])
      && (forall i | 3 <= i <= 5 :: |r.value[i][0]| == |ms[i][0]| && r.value[i][0][1..] == ms[i][0][1..])
  {
  }

  /** The post-pass fails exactly when fewer than six matrices were decoded
      or one of matrices 2 to 5 has no corner. */
  lemma PostPassFails(ms: seq<Matrix>)
    ensures PostPass(ms).Err? <==> |ms| < 6 || !(HasCorner(ms, 2) && HasCorner(ms, 3) && HasCorner(ms, 4) && HasCorner(ms, 5))
  {
  }

  //--------------------------------------------------------------------------
  // The whole scan
  //--------------------------------------------------------------------------

  lemma ScanHeaderGoesForward(buf: seq<Byte>, s: State)
    requires ValidState(buf, s)
    ensures Forward(buf, s, ScanHeaderF(buf, s).after)
  {
    var h := ReadBytesF(buf, s, LengthAndFlags);
    BytesGoForward(buf, s, LengthAndFlags);
    var c := ReadBytesF(buf, h.after, 2 * (h.value[2] as nat));
    BytesGoForward(buf, h.after, 2 * (h.value[2] as nat));
    BytesGoForward(buf, c.after, ScanTailLength);
  }

  /** A scan that decodes completes between one and six rounds: it returns
      a multiple of six matrices, at least six and at most thirty-six. */
  lemma ScanCount(buf: seq<Byte>, trees: map<int, seq<Option<Trie>>>, zigzag: seq<Cell>, dim: nat, s: State)
    requires ValidState(buf, s)
    ensures var r := ScanF(buf, trees, zigzag, dim, s);
      r.Ok? ==> 6 <= |r.value.value| <= 36 && |r.value.value| % 6 == 0
  {
    var h := ScanHeaderF(buf, s);
    ScanHeaderGoesForward(buf, s);
    var ctx := ScanTables(trees, h.value.components, zigzag, dim);
    var r := RoundsF(buf, ctx, 6, false, [], h.after);
    if r.Ok? {
      PostPassFails(r.value.value);
      if PostPass(r.value.value).Ok? {
        PostPassSums(r.value.value);
      }
    }
  }

  /** `process_start_of_scan`: the header, at most six rounds, the post-pass.
      The decoded matrices are returned; the source drops them. */
  function ScanF(buf: seq<Byte>, trees: map<int, seq<Option<Trie>>>, zigzag: seq<Cell>, dim: nat, s: State): (r: Result<Read<seq<Matrix>>>)
    requires ValidState(buf, s)
    ensures r.Ok? ==> ValidState(buf, r.value.after) && Progress(buf, s, r.value.after)
  {
    var h := ScanHeaderF(buf, s);
    ScanHeaderGoesForward(buf, s);
    match RoundsF(buf, ScanTables(trees, h.value.components, zigzag, dim), 6, false, [], h.after)
    case Err(e) => Err(e)
    case Ok(r) =>
      match PostPass(r.value)
      case Err(e) => Err(e)
      case Ok(ms) => Ok(Read(ms, r.after))
  }
}
