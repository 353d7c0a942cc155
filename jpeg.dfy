/** The class `Jpeg` of Jpeg.h and Jpeg.cpp: the decoder's fields, updated in
    place by the marker-segment handlers, the scan decoder and the dispatch
    loop of the constructor. Every method is proved to do to the fields and
    the stream what the function of the same handler in Parser says. */
module Image {
  import opened Common
  import opened Binary
  import opened BitStream
  import opened HuffmanTrie
  import opened Huffman
  import opened Canonical
  import opened Zigzag
  import opened Segments
  import opened Scan
  import opened Parser

  //--------------------------------------------------------------------------
  // One more element at the end
  //--------------------------------------------------------------------------

  /** `k` byte reads and three more are `k + 3` reads, and the component
      specifications they hold gain the one the three bytes make. */
  lemma ComponentStep(buf: seq<Byte>, s: State, k: nat)
    requires ValidState(buf, s)
    ensures var r := ReadBytesF(buf, s, k);
      var a := ReadByteF(buf, r.after);
      var b := ReadByteF(buf, a.after);
      var c := ReadByteF(buf, b.after);
      var r3 := ReadBytesF(buf, s, k + 3);
      && r3.after == c.after
      && ComponentsOf(r3.value) == ComponentsOf(r.value) + [FrameOf(a.value, b.value, c.value)]
  {
    var r := ReadBytesF(buf, s, k);
    var a := ReadByteF(buf, r.after);
    var b := ReadByteF(buf, a.after);
    var c := ReadByteF(buf, b.after);
    ReadBytesStep(buf, s, k);
    ReadBytesStep(buf, s, k + 1);
    ReadBytesStep(buf, s, k + 2);
    assert ReadBytesF(buf, s, k + 3).value == r.value + [a.value, b.value, c.value];
    ComponentsSnoc(r.value, a.value, b.value, c.value);
  }

  /** A prefix one longer is the prefix and the next element. */
  lemma TakeOneMore<T>(s: seq<T>, i: nat)
    requires i < |s|
    ensures s[..i + 1] == s[..i] + [s[i]]
  {
  }

  /** Storing at the end of a prefix extends the prefix. */
  lemma StoreOneMore<T>(s: seq<T>, i: nat, x: T)
    requires i < |s|
    ensures s[i := x][..i + 1] == s[..i] + [x]
  {
  }

  /** `RoundsF` with a round left, unfolded once in its own terms for the
      proof of `DecodeRounds` (`RoundBytes` states a round by the bytes). */
  lemma RoundCases(buf: seq<Byte>, ctx: ScanTables, left: nat, skip: bool, ms: seq<Matrix>, s: State)
    requires ValidState(buf, s) && left > 0
    ensures var c := SkipCheck(buf, skip, s);
      && (c.0 ==> RoundsF(buf, ctx, left, skip, ms, s) == RoundsF(buf, ctx, left - 1, false, ms, c.1))
      && (!c.0 ==>
            var e := ReadBytesF(buf, c.1, 2);
            && (e.value == [0xFF, EOI] ==> RoundsF(buf, ctx, left, skip, ms, s) == Ok(Read(ms, e.after)))
            && (e.value != [0xFF, EOI] ==>
                  var back := BytesBackF(e.after, 2);
                  && ValidState(buf, back)
                  && var b := BlocksF(buf, ctx, 0, ms, back);
                  && (b.Err? ==> RoundsF(buf, ctx, left, skip, ms, s) == Err(b.error))
                  && (b.Ok? ==> RoundsF(buf, ctx, left, skip, ms, s)
                                == RoundsF(buf, ctx, left - 1, skip || e.value == [0xFF, 0x00], b.value.value, b.value.after))))
  {
    PeekKeeps(buf, SkipCheck(buf, skip, s).1);
  }

  /** `RoundsF` at two equal counts, so that a proof need not match the
      counts up by arithmetic. */
  lemma SameRounds(buf: seq<Byte>, ctx: ScanTables, a: nat, b: nat, skip: bool, ms: seq<Matrix>, s: State)
    requires ValidState(buf, s) && a == b
    ensures RoundsF(buf, ctx, a, skip, ms, s) == RoundsF(buf, ctx, b, skip, ms, s)
  {
  }

  /** The dimension of a DQT header depends only on its length. */
  lemma SameDimension(q: QuantizationSpec, size: nat)
    requires q.length == size >= LengthAndFlags
    ensures Dimension(q) == FloorSqrt(size - LengthAndFlags)
  {
  }

  /** A DQT length below 3 is an error. */
  lemma QuantizationShort(buf: seq<Byte>, d: Decoder, size: nat, flags: Byte)
    requires Valid(buf, d)
    requires var h := ReadBytesF(buf, d.at, LengthAndFlags); size == LengthOf(h.value) && flags == h.value[2]
    requires size < LengthAndFlags
    ensures QuantizationStep(buf, d) == Err(BadTableLength)
  {
    assert QuantizationHeaderF(buf, d.at).value.length == size;
  }

  /** With a length of at least 3, DQT is the stores `r` of the entries `e`
      read after the header into table `Tq` resized to `n = ⌊√(Lq - 3)⌋`
      along the list with the order of size `n` appended: their error, or
      the decoder with that table, that list and the stream after the
      entries. */
  lemma QuantizationStored(buf: seq<Byte>, d: Decoder, size: nat, flags: Byte, after: State,
                           e: Read<seq<int>>, r: Result<Matrix>)
    requires Valid(buf, d)
    requires var h := ReadBytesF(buf, d.at, LengthAndFlags);
      size == LengthOf(h.value) && flags == h.value[2] && after == h.after
    requires size >= LengthAndFlags
    requires e == EntriesF(buf, after, EntryCount(size, HighNibble(flags)), HighNibble(flags) != 0)
    requires var n := FloorSqrt(size - LengthAndFlags);
      r == FillTable(Resize(d.tables[LowNibble(flags)], n), d.zigzag + ZigzagOrder(n), e.value)
    ensures QuantizationStep(buf, d) ==
      if r.Err? then Err(r.error)
      else
        var n := FloorSqrt(size - LengthAndFlags);
        Ok(d.(at := e.after, tables := d.tables[LowNibble(flags) := r.value], zigzag := d.zigzag + ZigzagOrder(n)))
  {
    var q := QuantizationHeaderF(buf, d.at);
    assert q == Read(QuantizationSpec(size, HighNibble(flags), LowNibble(flags)), after);
    assert QuantizationEntriesF(buf, d.at) == e;
    SameDimension(q.value, size);
    assert QuantizationStep(buf, d) == QuantizationStore(d.(at := e.after), LowNibble(flags), Dimension(q.value), e.value);
  }

  /** The first `t` of `total` entries are the entries of `t` reads, and
      entry `t` is the one read after them. */
  lemma {:induction false} EntriesPrefix(buf: seq<Byte>, s: State, total: nat, wide: Byte, t: nat)
    requires ValidState(buf, s) && t < total
    ensures var all := EntriesF(buf, s, total, wide != 0).value;
      var e := EntriesF(buf, s, t, wide != 0);
      all[..t] == e.value && all[t] == EntryF(buf, e.after, wide != 0).value
    decreases total
  {
    if t < total - 1 {
      EntriesPrefix(buf, s, total - 1, wide, t);
      var r := EntriesF(buf, s, total - 1, wide != 0).value;
      assert EntriesF(buf, s, total, wide != 0).value[..total - 1] == r;
    }
  }

  /** One more store succeeds or fails as `FillTable` of one more entry. */
  lemma FillStep(m: Matrix, cells: seq<Cell>, all: seq<int>, t: nat)
    requires t < |all| && t < |cells| && FillTable(m, cells, all[..t]).Ok?
    ensures FillTable(m, cells, all[..t + 1]) == Put(FillTable(m, cells, all[..t]).value, cells[t], all[t])
  {
    assert all[..t + 1][..t] == all[..t];
  }

  /** A store that fails makes the whole fill fail. */
  lemma FillFails(m: Matrix, cells: seq<Cell>, all: seq<int>, t: nat)
    requires t < |all| && FillTable(m, cells, all[..t]).Ok?
    requires t >= |cells| || !InTable(FillTable(m, cells, all[..t]).value, cells[t])
    ensures FillTable(m, cells, all).Err?
  {
    FillTableOk(m, cells, all);
    if t < |cells| {
      FillTableOk(m, cells, all[..t]);
      assert !InTable(m, cells[t]);
    }
  }

  /** The loop's `i += 1 + Pq` keeps `i == 3 + t (1 + Pq)`. */
  lemma NextEntryOffset(t: nat, wide: Byte)
    ensures 3 + t * (1 + wide) + 1 + wide == 3 + (t + 1) * (1 + wide)
  {
  }

  /** Appending one element after a concatenation. */
  lemma AppendOne<T>(a: seq<T>, b: seq<T>, x: T)
    ensures (a + b) + [x] == a + (b + [x])
  {
  }

  /** `h` and `v` are the thinning maxima of `fs`. */
  ghost predicate Maxima(fs: seq<Frame>, h: int, v: int)
  {
    h == Largest(Horizontals(fs)) && v == Largest(Verticals(fs))
  }

  /** The thinning maxima of one more component. */
  lemma MaximaStep(fs: seq<Frame>, f: Frame, h: int, v: int)
    requires Maxima(fs, h, v)
    ensures Maxima(fs + [f], Max(f.horizontal, h), Max(f.vertical, v))
  {
    ThinningsSnoc(fs, f);
    LargestSnoc(Horizontals(fs), f.horizontal);
    LargestSnoc(Verticals(fs), f.vertical);
  }

  lemma ComponentsSnoc(bytes: seq<Byte>, id: Byte, thinning: Byte, table: Byte)
    ensures ComponentsOf(bytes + [id, thinning, table]) == ComponentsOf(bytes) + [FrameOf(id, thinning, table)]
  {
    var all := bytes + [id, thinning, table];
    assert all[..|all| - 3] == bytes;
  }

  lemma LargestSnoc(xs: seq<int>, x: int)
    ensures Largest(xs + [x]) == Max(x, Largest(xs))
  {
    assert (xs + [x])[..|xs|] == xs;
  }

  lemma ThinningsSnoc(fs: seq<Frame>, f: Frame)
    ensures Horizontals(fs + [f]) == Horizontals(fs) + [f.horizontal]
    ensures Verticals(fs + [f]) == Verticals(fs) + [f.vertical]
  {
  }

  lemma SumCountsSnoc(bytes: seq<Byte>, b: Byte)
    ensures Sum(Counts(bytes + [b])) == Sum(Counts(bytes)) + b
  {
    assert Counts(bytes + [b])[..|bytes|] == Counts(bytes);
  }

  lemma CountsPrefix(bytes: seq<Byte>, k: nat)
    requires k < |bytes|
    ensures Counts(bytes[..k + 1]) == Counts(bytes[..k]) + [bytes[k] as nat]
    ensures HuffSize(Counts(bytes[..k + 1])) == HuffSize(Counts(bytes[..k])) + Repeat(bytes[k], k + 1)
    ensures Sum(Counts(bytes[..k + 1])) == Sum(Counts(bytes[..k])) + bytes[k]
  {
    assert Counts(bytes[..k + 1])[..k] == Counts(bytes[..k]);
    RepeatIsSeq(bytes[k], k + 1);
  }

  /** `n` copies of `x`, built by appending. */
  function Repeat(n: nat, x: nat): (r: seq<nat>)
    ensures |r| == n
  {
    if n == 0 then [] else Repeat(n - 1, x) + [x]
  }

  lemma {:induction false} RepeatIsSeq(n: nat, x: nat)
    ensures Repeat(n, x) == seq(n, _ => x)
  {
    if n > 0 {
      RepeatIsSeq(n - 1, x);
      assert seq(n, _ => x) == seq(n - 1, _ => x) + [x];
    }
  }

  lemma {:induction false} SumOfPrefix(bytes: seq<Byte>, k: nat)
    requires k <= |bytes|
    ensures Sum(Counts(bytes[..k])) <= Sum(Counts(bytes))
    decreases |bytes| - k
  {
    if k < |bytes| {
      CountsPrefix(bytes, k);
      SumOfPrefix(bytes, k + 1);
    } else {
      assert bytes[..k] == bytes;
    }
  }

  lemma InsertAllSnoc(t: Trie, sizes: seq<nat>, values: seq<Byte>, size: nat, value: Byte)
    requires |sizes| == |values|
    ensures InsertAll(t, sizes + [size], values + [value]) == Add(InsertAll(t, sizes, values), size, value)
  {
    assert (sizes + [size])[..|sizes|] == sizes;
    assert (values + [value])[..|values|] == values;
  }

  /** One more insertion of a run at length `length`. */
  lemma RunStep(sizes: seq<nat>, done: nat, length: nat, values: seq<Byte>, next: nat)
    requires |sizes| + done == next < |values|
    ensures InsertAll(EmptyTrie, sizes + Repeat(done + 1, length), values[..next + 1])
         == Add(InsertAll(EmptyTrie, sizes + Repeat(done, length), values[..next]), length, values[next])
  {
    InsertAllSnoc(EmptyTrie, sizes + Repeat(done, length), values[..next], length, values[next]);
    AppendOne(sizes, Repeat(done, length), length);
    TakeOneMore(values, next);
  }

  lemma FromBitsSnoc(bits: seq<Bit>, b: Bit)
    ensures FromBits(bits + [b]) == 2 * FromBits(bits) + b
  {
    assert (bits + [b])[..|bits|] == bits;
  }

  lemma ScanComponentsSnoc(bytes: seq<Byte>, id: Byte, tables: Byte)
    ensures ScanComponentsOf(bytes + [id, tables]) == ScanComponentsOf(bytes) + [ScanComponent(id, tables)]
  {
    var all := bytes + [id, tables];
    assert all[..|all| - 2] == bytes;
  }

  /** `_huffman_trees[id].resize(2)` on the pointers: missing slots are null. */
  function ResizeSlots(prior: seq<HuffmanTree?>): (r: seq<HuffmanTree?>)
    ensures |r| == TableClasses
    ensures forall k | 0 <= k < TableClasses :: r[k] == if k < |prior| then prior[k] else null
  {
    seq(TableClasses, k requires 0 <= k < TableClasses => if k < |prior| then prior[k] else null)
  }

  /** The pointers of one `_huffman_trees` entry hold the tables `cs`: null
      exactly where there is no table, otherwise a valid tree of `repr`
      holding it. */
  ghost predicate SlotsHold(ts: seq<HuffmanTree?>, cs: seq<Option<Trie>>, repr: set<HuffmanTree>)
    reads repr
  {
    && |ts| == |cs|
    && forall k | 0 <= k < |ts| ::
         && (ts[k] == null <==> cs[k].None?)
         && (ts[k] != null ==> ts[k] in repr && ts[k].Valid() && cs[k] == Some(ts[k].Content()))
  }

  /** More trees do not break the slots that hold. */
  lemma SlotsGrow(ts: seq<HuffmanTree?>, cs: seq<Option<Trie>>, repr: set<HuffmanTree>, more: set<HuffmanTree>)
    requires SlotsHold(ts, cs, repr)
    ensures SlotsHold(ts, cs, repr + more)
  {
  }

  //--------------------------------------------------------------------------
  // The decoder object
  //--------------------------------------------------------------------------

  class Jpeg {
    /** `_image_content`. */
    const stream: InputBitStream
    /** `_huffman_trees`, `_comment`, `_quantization_tables`,
        `_zigzag_order_traversal_indices`, `_frames`,
        `_max_horizontal_thinning`, `_max_vertical_thinning`. */
    var huffmanTrees: map<int, seq<HuffmanTree?>>
    var comment: seq<Byte>
    var quantizationTables: seq<Matrix>
    var zigzag: seq<Cell>
    var frames: seq<Frame>
    var maxHorizontal: int
    var maxVertical: int
    /** The tables the trees hold, and the tree objects. */
    ghost var codes: map<int, seq<Option<Trie>>>
    ghost var Repr: set<HuffmanTree>

    /** The stream is valid, there are 16 quantization tables, and the trees
        hold the tables. */
    ghost predicate Valid()
      reads this, stream, Repr
    {
      stream.Valid() && |quantizationTables| == QuantizationSlots && TreesValid()
    }

    /** Every pointer in `_huffman_trees` is null exactly where `codes` has
        no table, and otherwise a valid tree holding that table. */
    ghost predicate TreesValid()
      reads this`huffmanTrees, this`codes, this`Repr, Repr
    {
      && (forall t | t in Repr :: t.Valid())
      && huffmanTrees.Keys == codes.Keys
      && (forall id | id in huffmanTrees :: SlotsHold(huffmanTrees[id], codes[id], Repr))
    }

    /** The object as a Parser decoder value. */
    ghost function Model(): Decoder
      reads this, stream
    {
      Decoder(stream.Snapshot(), codes, comment, quantizationTables, zigzag, frames, maxHorizontal, maxVertical)
    }

    /** `o` is what a handler whose function gives `r` ends with: on success
        the object is `r`'s decoder, on failure the error is `r`'s. */
    ghost predicate Reached(o: Outcome, r: Result<Decoder>)
      reads this, stream
    {
      match o
      case Pass => r.Ok? && Model() == r.value
      case Fail(e) => r.Err? && r.error == e
    }

    /** The field initialisation of `Jpeg(file_path_)` (Jpeg.h:921-926): the
        stream over the file's bytes and 16 empty quantization tables. */
    constructor (bytes: seq<Byte>)
      ensures Valid() && fresh(stream) && stream.buffer == bytes && Model() == Initial()
    {
      stream := new InputBitStream(bytes);
      huffmanTrees := map[];
      comment := [];
      quantizationTables := seq(QuantizationSlots, _ => []);
      zigzag := [];
      frames := [];
      maxHorizontal := 0;
      maxVertical := 0;
      codes := map[];
      Repr := {};
    }

    //------------------------------------------------------------------------
    // Segment heads
    //------------------------------------------------------------------------

    /** `image_content_ >> size_1 >> size_2` and `size_1 * 0x100 + size_2`. */
    method ReadLength() returns (length: nat)
      requires stream.Valid()
      modifies stream
      ensures stream.Valid()
      ensures var l := ReadBytesF(stream.buffer, old(stream.Snapshot()), 2);
        length == LengthOf(l.value) && stream.Snapshot() == l.after
    {
      ghost var s0 := stream.Snapshot();
      var size1 := stream.ReadByte();
      ReadBytesStep(stream.buffer, s0, 0);
      var size2 := stream.ReadByte();
      ReadBytesStep(stream.buffer, s0, 1);
      length := (size1 as int) * 0x100 + size2;
    }

    /** The length and then the byte after it, as DHT and DQT read them. */
    method ReadLengthAndFlags() returns (length: nat, flags: Byte)
      requires stream.Valid()
      modifies stream
      ensures stream.Valid()
      ensures var h := ReadBytesF(stream.buffer, old(stream.Snapshot()), LengthAndFlags);
        length == LengthOf(h.value) && flags == h.value[2] && stream.Snapshot() == h.after
    {
      ghost var s0 := stream.Snapshot();
      length := ReadLength();
      flags := stream.ReadByte();
      ReadBytesStep(stream.buffer, s0, 2);
    }

    //------------------------------------------------------------------------
    // COM and SOF0
    //------------------------------------------------------------------------

    /** `process_comment` (Jpeg.cpp:403-415). */
    method ProcessComment()
      requires Valid()
      modifies this, stream
      ensures Valid() && Model() == CommentStep(stream.buffer, old(Model()))
    {
      ghost var buf := stream.buffer;
      var size := ReadLength();
      ghost var start, c0 := stream.Snapshot(), comment;
      var i := 2;
      while i < size
        modifies this`comment, stream
        invariant 2 <= i <= Max(size, 2) && stream.Valid()
        invariant var r := ReadBytesF(buf, start, i - 2);
          comment == c0 + r.value && stream.Snapshot() == r.after
        decreases size - i
      {
        var temp := stream.ReadByte();
        ReadBytesStep(buf, start, i - 2);
        comment := comment + [temp];
        i := i + 1;
      }
    }

    /** The frame header `Lf`, `P`, `Y`, `X`, `Nf` of
        `process_start_of_frame_baseline_DCT`; all but `Nf` are dropped, as
        in the source. */
    method ReadFrameHeader() returns (count: Byte)
      requires stream.Valid()
      modifies stream
      ensures stream.Valid()
      ensures var h := ReadBytesF(stream.buffer, old(stream.Snapshot()), FrameHeaderLength);
        count == h.value[7] && stream.Snapshot() == h.after
    {
      ghost var buf, s0 := stream.buffer, stream.Snapshot();
      var size := ReadLength();
      var precision := stream.ReadByte();
      ReadBytesStep(buf, s0, 2);
      var height1 := stream.ReadByte();
      ReadBytesStep(buf, s0, 3);
      var height2 := stream.ReadByte();
      ReadBytesStep(buf, s0, 4);
      var width1 := stream.ReadByte();
      ReadBytesStep(buf, s0, 5);
      var width2 := stream.ReadByte();
      ReadBytesStep(buf, s0, 6);
      count := stream.ReadByte();
      ReadBytesStep(buf, s0, 7);
    }

    /** `process_start_of_frame_baseline_DCT` (Jpeg.cpp:96-132). */
    method ProcessStartOfFrame()
      requires Valid()
      modifies this, stream
      ensures Valid() && Model() == FrameStep(stream.buffer, old(Model()))
    {
      var count := ReadFrameHeader();
      var fs, h, v := ReadComponents(count);
      AddFrames(fs, h, v);
    }

    /** `_frames.push_back` for each component, and the new maxima. */
    method AddFrames(fs: seq<Frame>, h: int, v: int)
      requires Valid()
      modifies this
      ensures Valid() && Model() == old(Model()).(frames := old(frames) + fs, maxHorizontal := h, maxVertical := v)
    {
      frames, maxHorizontal, maxVertical := frames + fs, h, v;
    }

    /** The component loop of Jpeg.cpp:117-131: `count` components of three
        bytes each, and their largest thinnings (starting from 0). */
    method ReadComponents(count: Byte) returns (fs: seq<Frame>, h: int, v: int)
      requires stream.Valid()
      modifies stream
      ensures stream.Valid()
      ensures var c := ReadBytesF(stream.buffer, old(stream.Snapshot()), 3 * count as int);
        && stream.Snapshot() == c.after
        && fs == ComponentsOf(c.value)
        && Maxima(fs, h, v)
    {
      ghost var buf, start := stream.buffer, stream.Snapshot();
      fs, h, v := [], 0, 0;
      var i: nat := 0;
      ghost var got: nat := 0;
      while i < count
        invariant 0 <= i <= count && got == 3 * i && stream.Valid()
        invariant stream.Snapshot() == ReadBytesF(buf, start, got).after
        invariant fs == ComponentsOf(ReadBytesF(buf, start, got).value)
        invariant Maxima(fs, h, v)
      {
        var id := stream.ReadByte();
        var thinning := stream.ReadByte();
        var table := stream.ReadByte();
        ComponentStep(buf, start, got);
        var frame := FrameOf(id, thinning, table);
        MaximaStep(fs, frame, h, v);
        fs := fs + [frame];
        h := Max(frame.horizontal, h);
        v := Max(frame.vertical, v);
        got := got + 3;
        i := i + 1;
      }
    }

    //------------------------------------------------------------------------
    // DHT
    //------------------------------------------------------------------------

    /** The reads of `process_huffman_table` (Jpeg.cpp:146-167): the length,
        `Tc Th`, the 16 code-length counts and as many values as they add up
        to. */
    method ReadHuffmanSpec() returns (spec: HuffmanSpec)
      requires stream.Valid()
      modifies stream
      ensures stream.Valid()
      ensures Read(spec, stream.Snapshot()) == HuffmanTableF(stream.buffer, old(stream.Snapshot()))
    {
      ghost var buf := stream.buffer;
      var size, flags := ReadLengthAndFlags();
      ghost var hAfter := stream.Snapshot();
      var lengths: seq<Byte> := seq(CountsLength, _ => 0);
      var number: nat := 0;
      var i: nat := 0;
      while i < |lengths|
        invariant 0 <= i <= |lengths| == CountsLength && stream.Valid()
        invariant var c := ReadBytesF(buf, hAfter, i);
          stream.Snapshot() == c.after && lengths[..i] == c.value && number == Sum(Counts(c.value))
      {
        var b := stream.ReadByte();
        ReadBytesStep(buf, hAfter, i);
        SumCountsSnoc(lengths[..i], b);
        StoreOneMore(lengths, i, b);
        lengths := lengths[i := b];
        number := number + b;
        i := i + 1;
      }
      assert lengths == lengths[..i];
      ghost var cAfter := stream.Snapshot();
      var values: seq<Byte> := seq(number, _ => 0);
      i := 0;
      while i < |values|
        invariant 0 <= i <= |values| == number && stream.Valid()
        invariant var v := ReadBytesF(buf, cAfter, i);
          stream.Snapshot() == v.after && values[..i] == v.value
      {
        var b := stream.ReadByte();
        ReadBytesStep(buf, cAfter, i);
        StoreOneMore(values, i, b);
        values := values[i := b];
        i := i + 1;
      }
      assert values == values[..i];
      spec := HuffmanSpec(HighNibble(flags), LowNibble(flags), lengths, values);
    }

    /** The insertion loop of `process_huffman_table` (Jpeg.cpp:171-178): a
        new tree, and for each length `i + 1` in turn, `L(i+1)` insertions of
        the next values at that length. */
    static method BuildTree(counts: seq<Byte>, values: seq<Byte>) returns (tree: HuffmanTree)
      requires |values| == Sum(Counts(counts))
      ensures fresh(tree) && tree.Valid()
      ensures |values| == |HuffSize(Counts(counts))|
      ensures tree.Content() == InsertAll(EmptyTrie, HuffSize(Counts(counts)), values)
    {
      HuffSizeShape(Counts(counts));
      tree := new HuffmanTree();
      var lengths := counts;
      var count: nat := 0;
      var i: nat := 0;
      while i < |lengths|
        invariant 0 <= i <= |lengths| == |counts| && lengths == counts
        invariant count == Sum(Counts(counts[..i])) <= |values|
        invariant fresh(tree) && tree.Valid()
        invariant |HuffSize(Counts(counts[..i]))| == count
        invariant tree.Content() == InsertAll(EmptyTrie, HuffSize(Counts(counts[..i])), values[..count])
      {
        CountsPrefix(counts, i);
        SumOfPrefix(counts, i + 1);
        HuffSizeShape(Counts(counts[..i + 1]));
        count := AddLengthRun(tree, HuffSize(Counts(counts[..i])), values, count, i + 1, lengths[i]);
        i := i + 1;
      }
      assert counts[..i] == counts;
      assert values[..count] == values;
    }

    /** The inner loop of Jpeg.cpp:173-177: `n` insertions at length
        `length` of the values from `count` on, counting `n` down. */
    static method AddLengthRun(tree: HuffmanTree, ghost sizes: seq<nat>, values: seq<Byte>, count: nat, length: nat, n: Byte)
      returns (next: nat)
      requires tree.Valid() && |sizes| == count && count + n <= |values|
      requires tree.Content() == InsertAll(EmptyTrie, sizes, values[..count])
      modifies tree
      ensures tree.Valid() && next == count + n
      ensures tree.Content() == InsertAll(EmptyTrie, sizes + Repeat(n, length), values[..next])
    {
      next := count;
      var left: nat := n;
      ghost var done: nat := 0;
      assert sizes + Repeat(0, length) == sizes;
      while left != 0
        invariant left + done == n && next == count + done
        invariant tree.Valid()
        invariant tree.Content() == InsertAll(EmptyTrie, sizes + Repeat(done, length), values[..next])
      {
        tree.AddElement(length, values[next]);
        RunStep(sizes, done, length, values, next);
        next, left, done := next + 1, left - 1, done + 1;
      }
    }

    /** `_huffman_trees[id].resize(2)` and `_huffman_trees[id][kind] = tree`. */
    method StoreTree(id: Byte, kind: Byte, tree: HuffmanTree)
      requires Valid() && tree.Valid() && kind < TableClasses
      modifies this
      ensures Valid()
      ensures Model() == old(Model()).(trees := Install(old(codes), id as int, kind, tree.Content()))
    {
      var prior := if id as int in huffmanTrees then huffmanTrees[id] else [];
      var slots := ResizeSlots(prior)[kind := tree];
      ghost var entry := Slots(codes, id)[kind := Some(tree.Content())];
      forall other | other in huffmanTrees
        ensures SlotsHold(huffmanTrees[other], codes[other], Repr + {tree})
      {
        SlotsGrow(huffmanTrees[other], codes[other], Repr, {tree});
      }
      assert SlotsHold(slots, entry, Repr + {tree});
      huffmanTrees := huffmanTrees[id as int := slots];
      codes := codes[id as int := entry];
      Repr := Repr + {tree};
    }

    /** `process_huffman_table` (Jpeg.cpp:144-179): a class `Tc` past the two
        slots is an error. */
    method ProcessHuffmanTable() returns (o: Outcome)
      requires Valid()
      modifies this, stream
      ensures Valid() && Reached(o, HuffmanStep(stream.buffer, old(Model())))
    {
      var spec, tree := ReadHuffmanTable();
      if spec.coefType >= TableClasses {
        return Fail(IndexOutOfRange);
      }
      StoreTree(spec.tableId, spec.coefType, tree);
      return Pass;
    }

    /** The reads of `process_huffman_table` and the tree they make. */
    method ReadHuffmanTable() returns (spec: HuffmanSpec, tree: HuffmanTree)
      requires stream.Valid()
      modifies stream
      ensures stream.Valid() && fresh(tree) && tree.Valid()
      ensures Read(spec, stream.Snapshot()) == HuffmanTableF(stream.buffer, old(stream.Snapshot()))
      ensures |spec.values| == |HuffSize(Counts(spec.counts))| && tree.Content() == TreeOfSpec(spec)
    {
      spec := ReadHuffmanSpec();
      tree := BuildTree(spec.counts, spec.values);
    }

    //------------------------------------------------------------------------
    // DQT
    //------------------------------------------------------------------------

    /** `calculating_zigzag_order_traversal(size_of_table_, size_of_matrix_)`
        (Jpeg.cpp:422-445): the zig-zag order of an `n` by `n` matrix is
        appended to the list, which is never cleared. The table size is not
        used, as in the source. */
    method CalculateZigzag(size: int, n: nat)
      modifies this`zigzag
      ensures zigzag == old(zigzag) + ZigzagOrder(n)
    {
      ghost var z0 := zigzag;
      var i := 0;
      while i < 2 * n - 1
        invariant 0 <= i <= DiagonalCount(n)
        invariant zigzag == z0 + Diagonals(n, i)
      {
        PushDiagonal(n, i);
        DiagonalsStep(n, i);
        assert zigzag == z0 + (Diagonals(n, i) + Diagonal(n, i));
        i := i + 1;
      }
      AllDiagonals(n, i);
    }

    /** One anti-diagonal of the generator: on odd ones `x` counts up from
        `Lo` and `y` down, on even ones the other way, until a coordinate
        leaves the matrix. */
    method PushDiagonal(n: nat, i: nat)
      requires i < DiagonalCount(n)
      modifies this`zigzag
      ensures zigzag == old(zigzag) + Diagonal(n, i)
    {
      ghost var z0, cells := zigzag, Diagonal(n, i);
      if i % 2 == 1 {
        var x := if i < n then 0 else i - n + 1;
        var y := if i < n then i else n - 1;
        while x < n && y >= 0
          invariant Lo(n, i) <= x <= Hi(n, i) + 1 && y == i - x
          invariant zigzag == z0 + cells[..x - Lo(n, i)]
          decreases n - x
        {
          TakeOneMore(cells, x - Lo(n, i));
          zigzag := zigzag + [(x, y)];
          x, y := x + 1, y - 1;
        }
        assert cells[..x - Lo(n, i)] == cells;
      } else {
        var x := if i < n then i else n - 1;
        var y := if i < n then 0 else i - n + 1;
        while x >= 0 && y < n
          invariant Lo(n, i) - 1 <= x <= Hi(n, i) && y == i - x
          invariant zigzag == z0 + cells[..Hi(n, i) - x]
          decreases x
        {
          TakeOneMore(cells, Hi(n, i) - x);
          zigzag := zigzag + [(x, y)];
          x, y := x - 1, y + 1;
        }
        assert cells[..Hi(n, i) - x] == cells;
      }
    }

    /** The entry loop of `process_quantization_table` (Jpeg.cpp:198-211) on
        the resized table `m`: for `i = 3, 4 + Pq, …` below `Lq`, entry `t`
        goes to the cell `zigzag[t]`, a byte or with `Pq != 0` two bytes
        big-endian. A `t` past the list or a cell outside the table is an
        error. */
    method ReadEntries(m: Matrix, cells: seq<Cell>, size: nat, wide: Byte) returns (r: Result<Matrix>)
      requires stream.Valid()
      modifies stream
      ensures stream.Valid()
      ensures var e := EntriesF(stream.buffer, old(stream.Snapshot()), EntryCount(size, wide), wide != 0);
        && r == FillTable(m, cells, e.value)
        && (r.Ok? ==> stream.Snapshot() == e.after)
    {
      ghost var buf, s0, total := stream.buffer, stream.Snapshot(), EntryCount(size, wide);
      ghost var all := EntriesF(buf, s0, total, wide != 0).value;
      var table := m;
      var i, t := 3, 0;
      while i < size
        invariant stream.Valid() && i == 3 + t * (1 + wide) && t <= total
        invariant Ok(table) == FillTable(m, cells, all[..t])
        invariant stream.Snapshot() == EntriesF(buf, s0, t, wide != 0).after
        decreases size - i
      {
        EntryCountIsLoopCount(size, wide, t);
        EntriesPrefix(buf, s0, total, wide, t);
        if t >= |cells| {
          FillFails(m, cells, all, t);
          return Err(IndexOutOfRange);
        }
        var cell := cells[t];
        var value := ReadEntry(wide);
        if !(0 <= cell.0 < |table| && 0 <= cell.1 < |table[cell.0]|) {
          FillFails(m, cells, all, t);
          return Err(IndexOutOfRange);
        }
        table := table[cell.0 := table[cell.0][cell.1 := value]];
        FillStep(m, cells, all, t);
        i, t := i + 1 + wide, t + 1;
        NextEntryOffset(t - 1, wide);
      }
      EntryCountIsLoopCount(size, wide, t);
      assert all[..t] == all;
      return Ok(table);
    }

    /** One entry of the loop: `first_byte_of_value`, and with `Pq != 0`
        `value * 0x100 + second_byte_of_value`. */
    method ReadEntry(wide: Byte) returns (value: int)
      requires stream.Valid()
      modifies stream
      ensures stream.Valid() && Read(value, stream.Snapshot()) == EntryF(stream.buffer, old(stream.Snapshot()), wide != 0)
    {
      var first := stream.ReadByte();
      value := first;
      if wide != 0 {
        var second := stream.ReadByte();
        value := value * 0x100 + second;
      }
    }

    /** `_quantization_tables[Tq]` after the stores. */
    method StoreTable(id: Byte, table: Matrix)
      requires |quantizationTables| == QuantizationSlots && id < QuantizationSlots
      modifies this`quantizationTables
      ensures quantizationTables == old(quantizationTables)[id := table]
    {
      quantizationTables := quantizationTables[id := table];
    }

    /** `process_quantization_table` (Jpeg.cpp:181-212): a length below 3 is
        an error (the square root of a negative number); otherwise table `Tq`
        is resized to `⌊√(Lq - 3)⌋`, the zig-zag order of that size is
        appended to the list, and the entries are stored along the whole
        list. */
    method ProcessQuantizationTable() returns (o: Outcome)
      requires Valid()
      modifies this, stream
      ensures Valid() && Reached(o, QuantizationStep(stream.buffer, old(Model())))
    {
      ghost var buf, d0 := stream.buffer, Model();
      var size, flags := ReadLengthAndFlags();
      ghost var after := stream.Snapshot();
      if size < LengthAndFlags {
        QuantizationShort(buf, d0, size, flags);
        return Fail(BadTableLength);
      }
      var r := StoreQuantization(size, flags);
      TreesStable();
      ghost var n := FloorSqrt(size - LengthAndFlags);
      ghost var e := EntriesF(buf, after, EntryCount(size, HighNibble(flags)), HighNibble(flags) != 0);
      QuantizationStored(buf, d0, size, flags, after, e, r);
      if r.Err? {
        return Fail(r.error);
      }
      assert Model() == d0.(at := e.after, tables := d0.tables[LowNibble(flags) := r.value], zigzag := d0.zigzag + ZigzagOrder(n));
      return Pass;
    }

    /** The body of `process_quantization_table` after the header: table
        `Tq` resized to `n = ⌊√(Lq - 3)⌋`, the order of size `n` appended to
        the list, the entries stored along the whole list and the table
        written back. */
    method StoreQuantization(size: nat, flags: Byte) returns (r: Result<Matrix>)
      requires stream.Valid() && |quantizationTables| == QuantizationSlots && size >= LengthAndFlags
      modifies this`zigzag, this`quantizationTables, stream
      ensures stream.Valid() && zigzag == old(zigzag) + ZigzagOrder(FloorSqrt(size - LengthAndFlags))
      ensures var n, wide, id := FloorSqrt(size - LengthAndFlags), HighNibble(flags), LowNibble(flags);
        var e := EntriesF(stream.buffer, old(stream.Snapshot()), EntryCount(size, wide), wide != 0);
        && r == FillTable(Resize(old(quantizationTables)[id], n), zigzag, e.value)
        && quantizationTables == (if r.Ok? then old(quantizationTables)[id := r.value] else old(quantizationTables))
        && (r.Ok? ==> stream.Snapshot() == e.after)
    {
      var wide, id := HighNibble(flags), LowNibble(flags);
      var n := FloorSqrt(size - LengthAndFlags);
      var base := Resize(quantizationTables[id], n);
      CalculateZigzag(size, n);
      r := ReadEntries(base, zigzag, size, wide);
      if r.Ok? {
        StoreTable(id, r.value);
      }
    }

    //------------------------------------------------------------------------
    // SOS
    //------------------------------------------------------------------------

    /** Two bytes in a row, `stream >> b[0] >> b[1]`. */
    method ReadTwo() returns (pair: seq<Byte>)
      requires stream.Valid()
      modifies stream
      ensures stream.Valid() && Read(pair, stream.Snapshot()) == ReadBytesF(stream.buffer, old(stream.Snapshot()), 2)
    {
      ghost var s0 := stream.Snapshot();
      var first := stream.ReadByte();
      ReadBytesStep(stream.buffer, s0, 0);
      var second := stream.ReadByte();
      ReadBytesStep(stream.buffer, s0, 1);
      pair := [first, second];
      assert ReadBytesF(stream.buffer, s0, 2).value == pair;
    }

    /** The scan header of `process_start_of_scan` (Jpeg.cpp:221-243): `Ls`,
        `Ns`, `Ns` pairs of component id and table selectors, then `Ss`, `Se`
        and `A`. */
    method ReadScanHeader() returns (h: ScanHeader)
      requires stream.Valid()
      modifies stream
      ensures stream.Valid() && Read(h, stream.Snapshot()) == ScanHeaderF(stream.buffer, old(stream.Snapshot()))
    {
      var size, count := ReadLengthAndFlags();
      var components := ReadScanComponents(count);
      var tail := ReadScanTail();
      h := ScanHeader(components, tail[0], tail[1], HighNibble(tail[2]), tail[2]);
    }

    /** The `Ns` pairs of a scan header: the component id, then the byte of
        table selectors. */
    method ReadScanComponents(count: nat) returns (components: seq<ScanComponent>)
      requires stream.Valid()
      modifies stream
      ensures stream.Valid()
      ensures var c := ReadBytesF(stream.buffer, old(stream.Snapshot()), 2 * count);
        components == ScanComponentsOf(c.value) && stream.Snapshot() == c.after
    {
      ghost var buf, start := stream.buffer, stream.Snapshot();
      components := seq(count, _ => ScanComponent(0, 0));
      var i: nat := 0;
      ghost var got: nat := 0;
      while i < |components|
        invariant i <= |components| == count && got == 2 * i && stream.Valid()
        invariant var c := ReadBytesF(buf, start, got);
          stream.Snapshot() == c.after && components[..i] == ScanComponentsOf(c.value)
      {
        ghost var c := ReadBytesF(buf, start, got);
        var id := stream.ReadByte();
        ReadBytesStep(buf, start, got);
        var tables := stream.ReadByte();
        ReadBytesStep(buf, start, got + 1);
        assert ReadBytesF(buf, start, got + 2).value == c.value + [id, tables];
        ScanComponentsSnoc(c.value, id, tables);
        StoreOneMore(components, i, ScanComponent(id, tables));
        components := components[i := ScanComponent(id, tables)];
        i, got := i + 1, got + 2;
      }
      assert components[..i] == components;
    }

    /** `Ss`, `Se` and the byte `A` after the components. */
    method ReadScanTail() returns (tail: seq<Byte>)
      requires stream.Valid()
      modifies stream
      ensures stream.Valid() && Read(tail, stream.Snapshot()) == ReadBytesF(stream.buffer, old(stream.Snapshot()), ScanTailLength)
    {
      ghost var buf, s0 := stream.buffer, stream.Snapshot();
      var ss := stream.ReadByte();
      ReadBytesStep(buf, s0, 0);
      var se := stream.ReadByte();
      ReadBytesStep(buf, s0, 1);
      var a := stream.ReadByte();
      ReadBytesStep(buf, s0, 2);
      tail := [ss, se, a];
      assert ReadBytesF(buf, s0, 3).value == tail;
    }

    /** The magnitude bits of a coefficient (Jpeg.cpp:297-317, 350-370): the first bit,
        then `size - 1` more shifted in, and with a first bit of 0 the value
        lowered by `(1 << size) - 1`. */
    method ReadMagnitude(size: nat) returns (value: int)
      requires stream.Valid() && size >= 1
      modifies stream
      ensures stream.Valid()
      ensures var bits := ReadBitsF(stream.buffer, old(stream.Snapshot()), size);
        value == Extend(bits.value) && stream.Snapshot() == bits.after
    {
      ghost var buf, s0 := stream.buffer, stream.Snapshot();
      var first := stream.ReadBit();
      ReadBitsStep(buf, s0, 0);
      FromBitsSnoc([], first);
      value := first;
      var i := 1;
      while i < size
        invariant 1 <= i <= size && stream.Valid()
        invariant var bits := ReadBitsF(buf, s0, i);
          && stream.Snapshot() == bits.after && value == FromBits(bits.value) && bits.value[0] == first
      {
        ghost var bits := ReadBitsF(buf, s0, i);
        value := value * 2;
        var next := stream.ReadBit();
        ReadBitsStep(buf, s0, i);
        FromBitsSnoc(bits.value, next);
        value := value + next;
        i := i + 1;
      }
      if first == 0 {
        value := value - (Pow2(size) - 1);
      }
    }

    /** `_huffman_trees[id][kind]` when `id` has a slot of that kind holding a
        tree, and null otherwise (where the source's access is undefined). */
    function TreeAt(id: int, kind: nat): (r: HuffmanTree?)
      reads this`huffmanTrees, this`codes, this`Repr, Repr
      requires TreesValid()
      ensures r != null <==> TreeOf(codes, id, kind).Ok?
      ensures r != null ==> r.Valid() && r.Content() == TreeOf(codes, id, kind).value
    {
      if id in huffmanTrees && kind < |huffmanTrees[id]| then
        assert SlotsHold(huffmanTrees[id], codes[id], Repr);
        huffmanTrees[id][kind]
      else null
    }

    /** The `while (stream >> next)` walk shared by the DC and the AC loops
        (Jpeg.cpp:289-292, 327-331): read a bit, stop when the stream has
        ended, step the iterator, stop at a code end. */
    method DecodeValue(it: HuffmanTreeIterator) returns (d: Decoded)
      requires stream.Valid() && it.Valid() && it.at == []
      modifies stream, it
      ensures stream.Valid()
      ensures d == DecodeF(stream.buffer, it.tree.Content(), [], old(stream.Snapshot()))
      ensures !d.Invalid? ==> stream.Snapshot() == d.after
      ensures d.Found? ==> it.Valid()
    {
      ghost var buf, s0, t := stream.buffer, stream.Snapshot(), it.tree.Content();
      while true
        invariant stream.Valid() && it.Valid()
        invariant DecodeF(buf, t, [], s0) == DecodeF(buf, t, it.at, stream.Snapshot())
        decreases Remaining(buf, stream.Snapshot())
      {
        ghost var s := stream.Snapshot();
        var next := stream.ReadBit();
        DecodeOnce(buf, t, it.at, s);
        if !stream.Good() {
          return Ended(stream.Snapshot());
        }
        var o := it.Step(next);
        if o.Fail? {
          return Invalid;
        }
        if it.IsCodeEnd() {
          return Found(it.GetValue(), stream.Snapshot());
        }
      }
    }

    /** The DC coefficient of a block (Jpeg.cpp:281-322): a fresh iterator on
        the DC tree decodes the number of magnitude bits; when it is not 0,
        their value is stored at the first zig-zag cell. */
    method DecodeDc(tree: HuffmanTree, zz: seq<Cell>, m: Matrix) returns (r: Result<Block>)
      requires stream.Valid() && tree.Valid()
      modifies stream
      ensures stream.Valid()
      ensures r == DcF(stream.buffer, tree.Content(), zz, m, old(stream.Snapshot()))
      ensures r.Ok? ==> stream.Snapshot() == r.value.after
    {
      var it := new HuffmanTreeIterator(tree);
      var d := DecodeValue(it);
      if d.Invalid? {
        return Err(InvalidHuffmanCode);
      }
      if d.Ended? {
        return Ok(Block(m, 0, d.after));
      }
      var size := d.value;
      if size == 0 {
        return Ok(Block(m, 1, d.after));
      }
      var value := ReadMagnitude(size as nat);
      if |zz| == 0 {
        return Err(IndexOutOfRange);
      }
      var p := Put(m, zz[0], value);
      if p.Err? {
        return Err(p.error);
      }
      return Ok(Block(p.value, 1, stream.Snapshot()));
    }

    /** What the AC loop does with a decoded non-zero `RS` (Jpeg.cpp:331-378):
        either the block ends (`more` false, `r` is the block) or `r` holds
        the matrix and position from which `AcF` goes on. */
    method AcCode(ghost t: Trie, v: Byte, zz: seq<Cell>, m: Matrix, c: nat) returns (r: Result<Block>, more: bool)
      requires stream.Valid() && v != 0
      modifies stream
      ensures stream.Valid()
      ensures r.Ok? ==> stream.Snapshot() == r.value.after
      ensures !more ==> r == AcAfter(stream.buffer, t, zz, m, c, Found(v, old(stream.Snapshot())))
      ensures more ==> r.Ok? && Remaining(stream.buffer, r.value.after) <= Remaining(stream.buffer, old(stream.Snapshot()))
      ensures more ==> r.Ok? && AcAfter(stream.buffer, t, zz, m, c, Found(v, old(stream.Snapshot())))
                            == AcF(stream.buffer, t, zz, r.value.matrix, r.value.counter, r.value.after)
    {
      ghost var buf, s0 := stream.buffer, stream.Snapshot();
      var next: nat := c + HighNibble(v);
      if next >= |zz| {
        return Ok(Block(m, next, stream.Snapshot())), false;
      }
      var size := LowNibble(v);
      if size == 0 {
        return Ok(Block(m, next, stream.Snapshot())), true;
      }
      var value := ReadMagnitude(size as nat);
      BitsGoForward(buf, s0, size as nat);
      var p := Put(m, zz[next], value);
      if p.Err? {
        return Err(p.error), false;
      }
      return Ok(Block(p.value, next + 1, stream.Snapshot())), next + 1 < |zz|;
    }

    /** The AC coefficients of a block (Jpeg.cpp:323-379), from zig-zag
        position `counter`: each decoded `RS` of 0 ends the block; otherwise
        the position skips `R` cells, the block ends past the last cell, and
        with `S != 0` the next `S` bits give the value stored at the
        position, which moves on; the iterator is reset after each code. */
    method DecodeAc(tree: HuffmanTree, zz: seq<Cell>, m: Matrix, counter: nat) returns (r: Result<Block>)
      requires stream.Valid() && tree.Valid()
      modifies stream
      ensures stream.Valid()
      ensures r == AcF(stream.buffer, tree.Content(), zz, m, counter, old(stream.Snapshot()))
      ensures r.Ok? ==> stream.Snapshot() == r.value.after
    {
      ghost var buf, s0, t := stream.buffer, stream.Snapshot(), tree.Content();
      var it := new HuffmanTreeIterator(tree);
      var matrix: Matrix, c: nat := m, counter;
      while true
        invariant stream.Valid() && fresh(it) && it.tree == tree && it.Valid() && it.at == []
        invariant AcF(buf, t, zz, m, counter, s0) == AcF(buf, t, zz, matrix, c, stream.Snapshot())
        decreases Remaining(buf, stream.Snapshot())
      {
        var d := DecodeValue(it);
        if d.Invalid? {
          return Err(InvalidHuffmanCode);
        }
        if d.Ended? || d.value == 0 {
          return Ok(Block(matrix, c, d.after));
        }
        var step, more := AcCode(t, d.value, zz, matrix, c);
        if !more {
          return step;
        }
        matrix, c := step.value.matrix, step.value.counter;
        it.Reset();
      }
    }

    /** One block of a round (Jpeg.cpp:278-383): the component is
        `max(k - 3, 0)`, both trees are those of its `Td` nibble, the matrix
        starts as zeros of the size of quantization table 0. */
    method DecodeBlock(components: seq<ScanComponent>, k: nat) returns (r: Result<Block>)
      requires stream.Valid() && TreesValid() && |quantizationTables| > 0
      modifies stream
      ensures stream.Valid()
      ensures r == BlockF(stream.buffer, ScanTables(codes, components, zigzag, |quantizationTables[0]|), k, old(stream.Snapshot()))
      ensures r.Ok? ==> stream.Snapshot() == r.value.after
    {
      var ci := ComponentIndex(k);
      if ci >= |components| {
        return Err(IndexOutOfRange);
      }
      var td := HighNibble(components[ci].tables);
      var dc := TreeAt(td, 0);
      if dc == null {
        return Err(UndefinedTable);
      }
      var b := DecodeDc(dc, zigzag, Zeros(|quantizationTables[0]|));
      if b.Err? {
        return Err(b.error);
      }
      var ac := TreeAt(td, 1);
      if ac == null {
        return Err(UndefinedTable);
      }
      r := DecodeAc(ac, zigzag, b.value.matrix, b.value.counter);
    }

    /** The six blocks of a round (Jpeg.cpp:278-383), appended to `acc`. */
    method DecodeRound(components: seq<ScanComponent>, acc: seq<Matrix>) returns (r: Result<Read<seq<Matrix>>>)
      requires stream.Valid() && TreesValid() && |quantizationTables| > 0
      modifies stream
      ensures stream.Valid()
      ensures r == BlocksF(stream.buffer, ScanTables(codes, components, zigzag, |quantizationTables[0]|), 0, acc, old(stream.Snapshot()))
      ensures r.Ok? ==> stream.Snapshot() == r.value.after
    {
      ghost var buf, s0 := stream.buffer, stream.Snapshot();
      ghost var ctx := ScanTables(codes, components, zigzag, |quantizationTables[0]|);
      var ms := acc;
      var k: nat := 0;
      while k < 6
        invariant k <= 6 && stream.Valid()
        invariant BlocksF(buf, ctx, 0, acc, s0) == BlocksF(buf, ctx, k, ms, stream.Snapshot())
      {
        var b := DecodeBlock(components, k);
        if b.Err? {
          return Err(b.error);
        }
        ms, k := ms + [b.value.matrix], k + 1;
      }
      return Ok(Read(ms, stream.Snapshot()));
    }

    /** The `skip_zero` check that opens a round (Jpeg.cpp:250-263): with
        `skip` set, two bytes are read; `00 00` is consumed and `skipped` is
        true, anything else is put back. */
    method SkipZeros(skip: bool) returns (skipped: bool)
      requires stream.Valid()
      modifies stream
      ensures stream.Valid()
      ensures (skipped, stream.Snapshot()) == SkipCheck(stream.buffer, skip, old(stream.Snapshot()))
    {
      if !skip {
        return false;
      }
      var zeros := ReadTwo();
      if zeros == [0, 0] {
        return true;
      }
      stream.BytesBack(2);
      return false;
    }

    /** The peek for the end of the scan (Jpeg.cpp:264-277): two bytes are
        read, and put back unless they are `FF D9`. */
    method PeekEnd() returns (end: seq<Byte>)
      requires stream.Valid()
      modifies stream
      ensures stream.Valid()
      ensures var e := ReadBytesF(stream.buffer, old(stream.Snapshot()), 2);
        && end == e.value
        && (end == [0xFF, EOI] ==> stream.Snapshot() == e.after)
        && (end != [0xFF, EOI] ==> stream.Snapshot() == BytesBackF(e.after, 2))
    {
      end := ReadTwo();
      if end != [0xFF, EOI] {
        stream.BytesBack(2);
      }
    }

    /** One round of the scan (Jpeg.cpp:248-384), with `left` rounds to go
        counting this one: a pending `00 00` pair is consumed
        (and `skip` cleared), or, unless two bytes `FF D9` end the scan, six
        blocks are decoded and appended to `ms`. Once `done`, `r` is the
        outcome of the whole scan; otherwise the rounds go on from `r`. */
    method DecodeRoundOf(components: seq<ScanComponent>, ghost left: nat, skip: bool, ms: seq<Matrix>)
      returns (r: Result<Read<seq<Matrix>>>, done: bool, skip': bool)
      requires stream.Valid() && TreesValid() && |quantizationTables| > 0 && left > 0
      modifies stream
      ensures stream.Valid()
      ensures r.Ok? ==> stream.Snapshot() == r.value.after
      ensures var ctx := ScanTables(codes, components, zigzag, |quantizationTables[0]|);
        done ==> r == RoundsF(stream.buffer, ctx, left, skip, ms, old(stream.Snapshot()))
      ensures var ctx := ScanTables(codes, components, zigzag, |quantizationTables[0]|);
        !done ==> r.Ok? && RoundsF(stream.buffer, ctx, left, skip, ms, old(stream.Snapshot()))
                           == RoundsF(stream.buffer, ctx, left - 1, skip', r.value.value, r.value.after)
    {
      ghost var ctx := ScanTables(codes, components, zigzag, |quantizationTables[0]|);
      RoundCases(stream.buffer, ctx, left, skip, ms, stream.Snapshot());
      var skipped := SkipZeros(skip);
      if skipped {
        return Ok(Read(ms, stream.Snapshot())), false, false;
      }
      var end := PeekEnd();
      if end == [0xFF, EOI] {
        return Ok(Read(ms, stream.Snapshot())), true, skip;
      }
      skip' := skip || end == [0xFF, 0x00];
      r := DecodeRound(components, ms);
      if r.Err? {
        return r, true, skip';
      }
      done := false;
    }

    /** The rounds of the scan (Jpeg.cpp:246-384): at most six, until one
        ends the scan. */
    method DecodeRounds(components: seq<ScanComponent>) returns (r: Result<Read<seq<Matrix>>>)
      requires stream.Valid() && TreesValid() && |quantizationTables| > 0
      modifies stream
      ensures stream.Valid()
      ensures r == RoundsF(stream.buffer, ScanTables(codes, components, zigzag, |quantizationTables[0]|), 6, false, [], old(stream.Snapshot()))
      ensures r.Ok? ==> stream.Snapshot() == r.value.after
    {
      ghost var buf, s0 := stream.buffer, stream.Snapshot();
      ghost var ctx := ScanTables(codes, components, zigzag, |quantizationTables[0]|);
      var left: nat, skip, ms := 6, false, [];
      while left > 0
        invariant stream.Valid() && stream.buffer == buf
        invariant RoundsF(buf, ctx, 6, false, [], s0) == RoundsF(buf, ctx, left, skip, ms, stream.Snapshot())
      {
        ghost var more := left;
        var round, done, skip' := DecodeRoundOf(components, left, skip, ms);
        left := left - 1;
        if done {
          return round;
        }
        ms, skip := round.value.value, skip';
        SameRounds(buf, ctx, more - 1, left, skip, ms, stream.Snapshot());
      }
      return Ok(Read(ms, stream.Snapshot()));
    }

    /** `process_start_of_scan` (Jpeg.cpp:219-391): the header, the rounds,
        then `res[i + 1][0][0] += res[i][0][0]` for `i` from 2 to 4. The
        decoded matrices are dropped, as in the source. */
    method ProcessStartOfScan() returns (o: Outcome)
      requires Valid()
      modifies stream
      ensures Valid() && Reached(o, ScanStep(stream.buffer, old(Model())))
    {
      ghost var buf, d0 := stream.buffer, Model();
      var h := ReadScanHeader();
      var rounds := DecodeRounds(h.components);
      if rounds.Err? {
        return Fail(rounds.error);
      }
      var results := AddCorners(rounds.value.value);
      if results.Err? {
        return Fail(results.error);
      }
      return Pass;
    }

    //------------------------------------------------------------------------
    // Stubs
    //------------------------------------------------------------------------

    /** `process_start_of_frame_extended_sequential_DCT` (Jpeg.cpp:134-137). */
    method ProcessExtendedSequentialDct() returns (o: Outcome)
      ensures o == Fail(NotImplementedYet(ExtendedSequentialDct))
    {
      return Fail(NotImplementedYet(ExtendedSequentialDct));
    }

    /** `process_start_of_frame_progressive_DCT` (Jpeg.cpp:139-142). */
    method ProcessProgressiveDct() returns (o: Outcome)
      ensures o == Fail(NotImplementedYet(ProgressiveDct))
    {
      return Fail(NotImplementedYet(ProgressiveDct));
    }

    /** `process_arithmetic_table` (Jpeg.cpp:214-217). */
    method ProcessArithmeticTable() returns (o: Outcome)
      ensures o == Fail(NotImplementedYet(ArithmeticConditioning))
    {
      return Fail(NotImplementedYet(ArithmeticConditioning));
    }

    /** `process_restart_interval` (Jpeg.cpp:393-396). */
    method ProcessRestartInterval() returns (o: Outcome)
      ensures o == Fail(NotImplementedYet(RestartInterval))
    {
      return Fail(NotImplementedYet(RestartInterval));
    }

    /** `process_application_specific` (Jpeg.cpp:398-401). */
    method ProcessApplicationSpecific() returns (o: Outcome)
      ensures o == Fail(NotImplementedYet(ApplicationSpecific))
    {
      return Fail(NotImplementedYet(ApplicationSpecific));
    }

    /** `process_number_of_lines` (Jpeg.cpp:417-420). */
    method ProcessNumberOfLines() returns (o: Outcome)
      ensures o == Fail(NotImplementedYet(NumberOfLines))
    {
      return Fail(NotImplementedYet(NumberOfLines));
    }

    /** `check_for_image_correctness` (Jpeg.cpp:77-80): throws before its
        checks, which are comments. */
    method CheckForImageCorrectness() returns (o: Outcome)
      ensures o == Fail(NotImplementedYet(ImageCorrectnessCheck))
    {
      return Fail(NotImplementedYet(ImageCorrectnessCheck));
    }

    //------------------------------------------------------------------------
    // Dispatch
    //------------------------------------------------------------------------

    /** The `switch (marker)` of the constructor (Jpeg.h:938-993), the stream
        just past the marker. RST and APP markers first put the marker byte
        back, then their stubs throw. */
    method ProcessSegment(marker: Byte) returns (o: Outcome)
      requires Valid()
      modifies this, stream
      ensures Valid() && Reached(o, SegmentF(stream.buffer, marker, old(Model())))
    {
      if marker == SOI || marker == EOI {
        return Pass;
      } else if marker == SOF0 {
        ProcessStartOfFrame();
        return Pass;
      } else if marker == SOF1 {
        o := ProcessExtendedSequentialDct();
      } else if marker == SOF2 {
        o := ProcessProgressiveDct();
      } else if marker == DHT {
        o := ProcessHuffmanTable();
      } else if marker == DQT {
        o := ProcessQuantizationTable();
      } else if marker == DRI {
        o := ProcessRestartInterval();
      } else if marker == SOS {
        o := ProcessStartOfScan();
      } else if IsRestart(marker) {
        stream.BytesBack(1);
        o := ProcessRestartInterval();
      } else if IsApplication(marker) {
        stream.BytesBack(1);
        o := ProcessApplicationSpecific();
      } else if marker == COM {
        ProcessComment();
        return Pass;
      } else {
        return Fail(UnsupportedMarker(EOI as int));
      }
    }

    /** The loop of the constructor (Jpeg.h:928-994): read a byte until the
        stream has ended; it must be `0xFF`; the next byte is the marker,
        whose case runs. The exception a handler throws ends the loop. */
    method ParseSegments() returns (o: Outcome)
      requires Valid()
      modifies this, stream
      ensures Valid() && Reached(o, ParseF(stream.buffer, old(Model())))
    {
      ghost var buf, d0 := stream.buffer, Model();
      while true
        invariant Valid() && ParseF(buf, d0) == ParseF(buf, Model())
        decreases if stream.streamEnd then 0 else 1, Remaining(buf, stream.Snapshot())
      {
        ghost var d := Model();
        var temp := stream.ReadByte();
        ReadByteCases(buf, d.at);
        if !stream.Good() {
          return Pass;
        }
        if temp != MarkerPrefix {
          return Fail(MissingMarkerPrefix);
        }
        ghost var p := stream.Snapshot();
        var marker := stream.ReadByte();
        ReadByteCases(buf, p);
        o := ProcessSegment(marker);
        if o.Fail? {
          return;
        }
      }
    }

    /** A change that leaves the tree fields and the trees alone keeps the
        trees valid. */
    twostate lemma TreesStable()
      requires old(TreesValid())
      requires unchanged(this`huffmanTrees, this`codes, this`Repr) && unchanged(old(Repr))
      ensures TreesValid()
    {
    }
  }

  /** The loop after the rounds of `process_start_of_scan` (Jpeg.cpp:385-388):
      for `i` from 2 to 4 the corner of matrix `i` is added to that of matrix
      `i + 1`; a missing matrix or corner is an error. */
  method AddCorners(ms: seq<Matrix>) returns (r: Result<seq<Matrix>>)
    ensures r == PostPass(ms)
  {
    var results := ms;
    var i := 2;
    while i < 5
      invariant 2 <= i <= 5 && PostPassFrom(results, i) == PostPass(ms)
    {
      if !(HasCorner(results, i) && HasCorner(results, i + 1)) {
        return Err(IndexOutOfRange);
      }
      var next := results[i + 1];
      results := results[i + 1 := next[0 := next[0][0 := next[0][0] + results[i][0][0]]]];
      i := i + 1;
    }
    return Ok(results);
  }

  /** `Jpeg(file_path_)` (Jpeg.h:921-995) on the file's bytes: the fields
      initialised, then the segments decoded; `o` is the exception that ends
      the constructor, if any. */
  method Load(bytes: seq<Byte>) returns (j: Jpeg, o: Outcome)
    ensures fresh(j) && j.Valid() && j.stream.buffer == bytes && j.Reached(o, Parse(bytes))
  {
    j := new Jpeg(bytes);
    o := j.ParseSegments();
  }
}
