/** The decoder of Jpeg.h as a value: the fields `Jpeg` declares (Jpeg.h:826-834)
    and the stream, what each marker-segment handler does to them, and the
    marker-dispatch loop of the `Jpeg` constructor (Jpeg.h:921-995). The class
    `Jpeg` is proved against these functions. */
module Parser {
  import opened Common
  import opened BitStream
  import opened HuffmanTrie
  import opened Canonical
  import opened Zigzag
  import opened Segments
  import opened Scan

  //--------------------------------------------------------------------------
  // Marker codes (Table B.1 of ISO/IEC 10918-1, Jpeg.h:59-124)
  //--------------------------------------------------------------------------

  const SOF0: Byte := 0xC0
  const SOF1: Byte := 0xC1
  const SOF2: Byte := 0xC2
  const SOF3: Byte := 0xC3
  const DHT: Byte := 0xC4
  const DAC: Byte := 0xCC
  const RST0: Byte := 0xD0
  const RST7: Byte := 0xD7
  const SOI: Byte := 0xD8
  const EOI: Byte := 0xD9
  const SOS: Byte := 0xDA
  const DQT: Byte := 0xDB
  const DNL: Byte := 0xDC
  const DRI: Byte := 0xDD
  const APP0: Byte := 0xE0
  const APP7: Byte := 0xE7
  const COM: Byte := 0xFE

  /** The byte every marker is prefixed with. */
  const MarkerPrefix: Byte := 0xFF

  /** `coef_type` (Jpeg.h:130-136): the slot of a table class in
      `_huffman_trees[id]`. */
  const DcClass: nat := 0
  const AcClass: nat := 1
  const TableClasses: nat := 2

  /** `_quantization_tables.resize(0x10)`: one table per destination `Tq`. */
  const QuantizationSlots: nat := 16

  //--------------------------------------------------------------------------
  // Decoder state
  //--------------------------------------------------------------------------

  /** The stream and the fields of `Jpeg`: `_huffman_trees` (a slot holds
      `None` for a null pointer), `_comment`, `_quantization_tables`,
      `_zigzag_order_traversal_indices`, `_frames` and the two thinning
      maxima. */
  datatype Decoder = Decoder(
    at: State,
    trees: map<int, seq<Option<Trie>>>,
    comment: seq<Byte>,
    tables: seq<Matrix>,
    zigzag: seq<Cell>,
    frames: seq<Frame>,
    maxHorizontal: int,
    maxVertical: int)

  ghost predicate Valid(buf: seq<Byte>, d: Decoder)
  {
    ValidState(buf, d.at) && |d.tables| == QuantizationSlots
  }

  /** The decoder before the loop: a fresh stream, 16 empty quantization
      tables, everything else empty. */
  function Initial(): (r: Decoder)
    ensures forall buf :: Valid(buf, r)
  {
    Decoder(Start, map[], [], seq(QuantizationSlots, _ => []), [], [], 0, 0)
  }

  //--------------------------------------------------------------------------
  // Handlers
  //--------------------------------------------------------------------------

  lemma CommentGoesForward(buf: seq<Byte>, s: State)
    requires ValidState(buf, s)
    ensures Forward(buf, s, CommentF(buf, s).after)
  {
    var l := ReadBytesF(buf, s, 2);
    BytesGoForward(buf, s, 2);
    BytesGoForward(buf, l.after, Max(LengthOf(l.value) - 2, 0));
  }

  /** `process_comment`: the comment bytes are appended to `_comment`. */
  function CommentStep(buf: seq<Byte>, d: Decoder): (r: Decoder)
    requires Valid(buf, d)
    ensures Valid(buf, r) && Forward(buf, d.at, r.at)
  {
    var c := CommentF(buf, d.at);
    CommentGoesForward(buf, d.at);
    d.(at := c.after, comment := d.comment + c.value)
  }

  lemma FrameGoesForward(buf: seq<Byte>, s: State)
    requires ValidState(buf, s)
    ensures Forward(buf, s, StartOfFrameF(buf, s).after)
  {
    var h := ReadBytesF(buf, s, FrameHeaderLength);
    BytesGoForward(buf, s, FrameHeaderLength);
    BytesGoForward(buf, h.after, 3 * (h.value[7] as nat));
  }

  /** `process_start_of_frame_baseline_DCT`: the components are appended to
      `_frames`; the maxima restart from 0 and take this frame's components
      only. */
  function FrameStep(buf: seq<Byte>, d: Decoder): (r: Decoder)
    requires Valid(buf, d)
    ensures Valid(buf, r) && Forward(buf, d.at, r.at)
  {
    var f := StartOfFrameF(buf, d.at);
    FrameGoesForward(buf, d.at);
    d.(at := f.after, frames := d.frames + f.value,
       maxHorizontal := Largest(Horizontals(f.value)), maxVertical := Largest(Verticals(f.value)))
  }

  /** `_huffman_trees[id].resize(2)`: the slots of `id`, with the missing ones
      null. */
  function Slots(trees: map<int, seq<Option<Trie>>>, id: int): (r: seq<Option<Trie>>)
    ensures |r| == TableClasses
    ensures forall k | 0 <= k < TableClasses :: r[k] == if id in trees && k < |trees[id]| then trees[id][k] else None
  {
    var prior := if id in trees then trees[id] else [];
    seq(TableClasses, k requires 0 <= k < TableClasses => if k < |prior| then prior[k] else None)
  }

  /** `_huffman_trees[id].resize(2)` then `_huffman_trees[id][k] = tree`. */
  function Install(trees: map<int, seq<Option<Trie>>>, id: int, k: nat, t: Trie): map<int, seq<Option<Trie>>>
    requires k < TableClasses
  {
    trees[id := Slots(trees, id)[k := Some(t)]]
  }

  /** Installing a tree fills slot `k` of table `id`, keeps its other slot
      (or leaves it null when the table is new) and keeps every other
      table. */
  lemma InstallSlots(trees: map<int, seq<Option<Trie>>>, id: int, k: nat, t: Trie)
    requires k < TableClasses
    ensures var r := Install(trees, id, k, t);
      && r.Keys == trees.Keys + {id}
      && |r[id]| == TableClasses && r[id][k] == Some(t)
      && r[id][1 - k] == (if id in trees && 1 - k < |trees[id]| then trees[id][1 - k] else None)
      && (forall other | other in trees && other != id :: r[other] == trees[other])
  {
  }

  lemma HuffmanTableGoesForward(buf: seq<Byte>, s: State)
    requires ValidState(buf, s)
    ensures Forward(buf, s, HuffmanTableF(buf, s).after)
  {
    var h := ReadBytesF(buf, s, LengthAndFlags);
    BytesGoForward(buf, s, LengthAndFlags);
    var c := ReadBytesF(buf, h.after, CountsLength);
    BytesGoForward(buf, h.after, CountsLength);
    BytesGoForward(buf, c.after, Sum(Counts(c.value)));
  }

  /** The tree the insertion loop of `process_huffman_table` builds: value
      `k` with the code length `HuffSize` gives it, in declaration order. */
  function TreeOfSpec(h: HuffmanSpec): Trie
    requires |h.values| == |HuffSize(Counts(h.counts))|
  {
    InsertAll(EmptyTrie, HuffSize(Counts(h.counts)), h.values)
  }

  /** `process_huffman_table`: a new tree replaces `_huffman_trees[Th][Tc]`; a
      class `Tc` past the two slots is an error. */
  function HuffmanStep(buf: seq<Byte>, d: Decoder): (r: Result<Decoder>)
    requires Valid(buf, d)
    ensures r.Ok? ==> Valid(buf, r.value) && Forward(buf, d.at, r.value.at)
  {
    var h := HuffmanTableF(buf, d.at);
    HuffmanTableGoesForward(buf, d.at);
    HuffmanValuesBytes(buf, d.at);
    var spec := h.value;
    if spec.coefType >= TableClasses then Err(IndexOutOfRange)
    else
      Ok(d.(at := h.after, trees := Install(d.trees, spec.tableId, spec.coefType, TreeOfSpec(spec))))
  }

  lemma QuantizationGoesForward(buf: seq<Byte>, s: State)
    requires ValidState(buf, s)
    ensures Forward(buf, s, QuantizationHeaderF(buf, s).after)
    ensures Forward(buf, QuantizationHeaderF(buf, s).after, QuantizationEntriesF(buf, s).after)
  {
    var h := QuantizationHeaderF(buf, s);
    BytesGoForward(buf, s, LengthAndFlags);
    var count, wide := EntryCount(h.value.length, h.value.precision), h.value.precision != 0;
    EntriesAgree(buf, h.after, count, wide, 0);
    BytesGoForward(buf, h.after, count * (if wide then 2 else 1));
  }

  /** The stores of `process_quantization_table` once the header and the
      entries are read: table `Tq` is resized to `⌊√(Lq - 3)⌋`, the zig-zag
      order of that size is appended to the list, and entry `t` is stored at
      cell `t` of the whole list. */
  function QuantizationStore(d: Decoder, id: nat, n: nat, entries: seq<int>): (r: Result<Decoder>)
    requires |d.tables| == QuantizationSlots && id < QuantizationSlots
    ensures r.Ok? ==> |r.value.tables| == QuantizationSlots && r.value.at == d.at
  {
    var zz := d.zigzag + ZigzagOrder(n);
    match FillTable(Resize(d.tables[id], n), zz, entries)
    case Err(err) => Err(err)
    case Ok(m) => Ok(d.(tables := d.tables[id := m], zigzag := zz))
  }

  /** The table dimension `(int)sqrt(Lq - 3)`. */
  function Dimension(q: QuantizationSpec): nat
    requires q.length >= LengthAndFlags
  {
    FloorSqrt(q.length - LengthAndFlags)
  }

  /** `process_quantization_table`: the header, then the entries, then the
      stores. A length below 3 is an error (the square root of a negative
      number). */
  function QuantizationStep(buf: seq<Byte>, d: Decoder): (r: Result<Decoder>)
    requires Valid(buf, d)
    ensures r.Ok? ==> Valid(buf, r.value) && Forward(buf, d.at, r.value.at)
  {
    var q := QuantizationHeaderF(buf, d.at).value;
    QuantizationGoesForward(buf, d.at);
    if q.length < LengthAndFlags then Err(BadTableLength)
    else
      var e := QuantizationEntriesF(buf, d.at);
      QuantizationStore(d.(at := e.after), q.tableId, Dimension(q), e.value)
  }

  /** `process_start_of_scan`: the decoded matrices are dropped, so only the
      stream moves. */
  function ScanStep(buf: seq<Byte>, d: Decoder): (r: Result<Decoder>)
    requires Valid(buf, d)
    ensures r.Ok? ==> Valid(buf, r.value) && Progress(buf, d.at, r.value.at)
  {
    match ScanF(buf, d.trees, d.zigzag, |d.tables[0]|, d.at)
    case Err(e) => Err(e)
    case Ok(s) => Ok(d.(at := s.after))
  }

  //--------------------------------------------------------------------------
  // Dispatch
  //--------------------------------------------------------------------------

  predicate IsRestart(marker: Byte)
  {
    RST0 <= marker <= RST7
  }

  predicate IsApplication(marker: Byte)
  {
    APP0 <= marker <= APP7
  }

  /** The markers the switch names. */
  predicate Handled(marker: Byte)
  {
    marker in {SOI, SOF0, SOF1, SOF2, DHT, DQT, DRI, SOS, COM, EOI} || IsRestart(marker) || IsApplication(marker)
  }

  /** The stub a marker is dispatched to, if any. */
  function StubOf(marker: Byte): Option<Feature>
  {
    if marker == SOF1 then Some(ExtendedSequentialDct)
    else if marker == SOF2 then Some(ProgressiveDct)
    else if marker == DRI || IsRestart(marker) then Some(RestartInterval)
    else if IsApplication(marker) then Some(ApplicationSpecific)
    else None
  }

  /** One case of the switch, the stream just past the marker. SOI and EOI
      do nothing; the stubs fail; an unlisted marker fails with a message
      naming EOI's code. (The `BytesBack(1)` before the restart and
      application stubs is lost with the exception.) */
  function SegmentF(buf: seq<Byte>, marker: Byte, d: Decoder): (r: Result<Decoder>)
    requires Valid(buf, d)
    ensures r.Ok? ==> Valid(buf, r.value) && Progress(buf, d.at, r.value.at)
  {
    if marker == SOI || marker == EOI then Ok(d)
    else if marker == SOF0 then Ok(FrameStep(buf, d))
    else if marker == DHT then HuffmanStep(buf, d)
    else if marker == DQT then QuantizationStep(buf, d)
    else if marker == SOS then ScanStep(buf, d)
    else if marker == COM then Ok(CommentStep(buf, d))
    else if StubOf(marker).Some? then Err(NotImplementedYet(StubOf(marker).value))
    else Err(UnsupportedMarker(EOI))
  }

  /** The loop `while (_image_content >> temp)`: stop once a prefix read
      finds the stream ended; a prefix other than `0xFF` is an error;
      otherwise read the marker (unchecked: past the end it reads 0) and
      run its case. */
  function ParseF(buf: seq<Byte>, d: Decoder): (r: Result<Decoder>)
    requires Valid(buf, d)
    ensures r.Ok? ==> Valid(buf, r.value) && r.value.at.ended
    decreases if d.at.ended then 0 else 1, Remaining(buf, d.at)
  {
    var p := ReadByteF(buf, d.at);
    ReadByteCases(buf, d.at);
    if p.after.ended then Ok(d.(at := p.after))
    else if p.value != MarkerPrefix then Err(MissingMarkerPrefix)
    else
      var m := ReadByteF(buf, p.after);
      ReadByteCases(buf, p.after);
      match SegmentF(buf, m.value, d.(at := m.after))
      case Err(e) => Err(e)
      case Ok(d') => ParseF(buf, d')
  }

  /** What the `Jpeg` constructor computes from the file's bytes. */
  function Parse(buf: seq<Byte>): Result<Decoder>
  {
    ParseF(buf, Initial())
  }

  //--------------------------------------------------------------------------
  // The dispatch loop
  //--------------------------------------------------------------------------

  /** The stream state two bytes on, where a marker's case starts. */
  function PastMarker(s: State): State
  {
    State(Cursor(s.at.index + 2, s.at.bitNumber), s.ended)
  }

  /** A file with no bytes decodes to the initial decoder, the stream ended. */
  lemma EmptyInputParses()
    ensures Parse([]) == Ok(Initial().(at := State(Cursor(0, 7), true)))
  {
  }

  /** The loop ends exactly when the prefix read finds the stream ended, and
      then returns the decoder as it is. */
  lemma StopsAtTheEnd(buf: seq<Byte>, d: Decoder)
    requires Valid(buf, d)
    ensures (d.at.ended || d.at.at.index == |buf|) ==> ParseF(buf, d) == Ok(d.(at := ReadByteF(buf, d.at).after))
    ensures !(d.at.ended || d.at.at.index == |buf|) ==> ParseF(buf, d) != Ok(d.(at := ReadByteF(buf, d.at).after))
  {
    ReadByteCases(buf, d.at);
    if !(d.at.ended || d.at.at.index == |buf|) {
      var r := ParseF(buf, d);
      if r.Ok? {
        assert r.value.at.ended;
      }
    }
  }

  /** A marker must be preceded by `0xFF`. */
  lemma PrefixRequired(buf: seq<Byte>, d: Decoder)
    requires Valid(buf, d) && !d.at.ended && d.at.at.index < |buf|
    ensures ParseF(buf, d).Err? || buf[d.at.at.index] == MarkerPrefix
    ensures buf[d.at.at.index] != MarkerPrefix ==> ParseF(buf, d) == Err(MissingMarkerPrefix)
  {
    ReadByteCases(buf, d.at);
  }

  /** SOI and EOI do nothing and the loop goes on: EOI does not end the
      decoding. */
  lemma StartAndEndAreSkipped(buf: seq<Byte>, d: Decoder)
    requires Valid(buf, d) && !d.at.ended && d.at.at.index + 1 < |buf|
    requires buf[d.at.at.index] == MarkerPrefix && buf[d.at.at.index + 1] in {SOI, EOI}
    ensures ParseF(buf, d) == ParseF(buf, d.(at := PastMarker(d.at)))
  {
    ReadByteCases(buf, d.at);
    ReadByteCases(buf, ReadByteF(buf, d.at).after);
  }

  /** The markers dispatched to a stub fail with that stub's feature; every
      marker the switch does not list (DAC, DNL, SOF3, the JPGn codes among
      them) fails with the code of EOI in place of its own. */
  lemma UnhandledMarkersFail(buf: seq<Byte>, d: Decoder)
    requires Valid(buf, d) && !d.at.ended && d.at.at.index + 1 < |buf| && buf[d.at.at.index] == MarkerPrefix
    ensures var m, r := buf[d.at.at.index + 1], ParseF(buf, d);
      && (m == SOF1 ==> r == Err(NotImplementedYet(ExtendedSequentialDct)))
      && (m == SOF2 ==> r == Err(NotImplementedYet(ProgressiveDct)))
      && (m == DRI || RST0 <= m <= RST7 ==> r == Err(NotImplementedYet(RestartInterval)))
      && (APP0 <= m <= APP7 ==> r == Err(NotImplementedYet(ApplicationSpecific)))
      && (!Handled(m) ==> r == Err(UnsupportedMarker(217)))
      && (m in {DAC, DNL, SOF3} || 0xF0 <= m <= 0xFD ==> r == Err(UnsupportedMarker(217)))
  {
    ReadByteCases(buf, d.at);
    ReadByteCases(buf, ReadByteF(buf, d.at).after);
  }

  /** A `0xFF` as the last byte is followed by the 0 a read past the end
      yields, which is no marker. */
  lemma TrailingPrefixFails(buf: seq<Byte>, d: Decoder)
    requires Valid(buf, d) && !d.at.ended && d.at.at.index + 1 == |buf| && buf[d.at.at.index] == MarkerPrefix
    ensures ParseF(buf, d) == Err(UnsupportedMarker(217))
  {
    ReadByteCases(buf, d.at);
    ReadByteCases(buf, ReadByteF(buf, d.at).after);
  }

  //--------------------------------------------------------------------------
  // What the handlers record
  //--------------------------------------------------------------------------

  /** COM appends the `Lc - 2` bytes after the length, or none, and changes
      nothing else. */
  lemma CommentRecorded(buf: seq<Byte>, d: Decoder)
    requires Valid(buf, d)
    ensures var i := d.at.at.index;
      var lc := BigEndian16(ByteAt(buf, i), ByteAt(buf, i + 1));
      CommentStep(buf, d) == d.(at := CommentF(buf, d.at).after, comment := d.comment + Window(buf, i + 2, Max(lc - 2, 0)))
  {
    CommentBytes(buf, d.at);
    ReadBytesAgree(buf, d.at, 2);
  }

  /** SOF0 appends `Nf` components, component `k` read from bytes
      `8 + 3k .. 10 + 3k` past the marker, and changes no table. */
  lemma FrameRecorded(buf: seq<Byte>, d: Decoder, k: nat)
    requires Valid(buf, d)
    ensures var i, r := d.at.at.index, FrameStep(buf, d);
      var nf, before := ByteAt(buf, i + 7), |d.frames|;
      && |r.frames| == before + nf && r.frames[..before] == d.frames
      && (k < nf ==> r.frames[before + k] == FrameOf(ByteAt(buf, i + 8 + 3 * k), ByteAt(buf, i + 9 + 3 * k), ByteAt(buf, i + 10 + 3 * k)))
      && r.trees == d.trees && r.comment == d.comment && r.tables == d.tables && r.zigzag == d.zigzag
  {
    StartOfFrameBytes(buf, d.at, k);
    var f := StartOfFrameF(buf, d.at).value;
    assert FrameStep(buf, d).frames == d.frames + f;
  }

  /** The thinning maxima are the largest factors of this frame's
      components alone, 0 when it has none. */
  lemma FrameMaxima(buf: seq<Byte>, d: Decoder)
    requires Valid(buf, d)
    ensures var r := FrameStep(buf, d);
      var added := r.frames[|d.frames|..];
      && (forall j | 0 <= j < |added| :: added[j].horizontal <= r.maxHorizontal && added[j].vertical <= r.maxVertical)
      && (r.maxHorizontal == 0 || exists j | 0 <= j < |added| :: added[j].horizontal == r.maxHorizontal)
      && (r.maxVertical == 0 || exists j | 0 <= j < |added| :: added[j].vertical == r.maxVertical)
  {
    var f := StartOfFrameF(buf, d.at).value;
    var r := FrameStep(buf, d);
    assert r.frames[|d.frames|..] == f;
    ThinningMaxima(f);
  }

  /** `Largest` over the factors bounds each factor and is one of them. */
  lemma ThinningMaxima(fs: seq<Frame>)
    ensures forall j | 0 <= j < |fs| :: fs[j].horizontal <= Largest(Horizontals(fs)) && fs[j].vertical <= Largest(Verticals(fs))
    ensures Largest(Horizontals(fs)) == 0 || exists j | 0 <= j < |fs| :: fs[j].horizontal == Largest(Horizontals(fs))
    ensures Largest(Verticals(fs)) == 0 || exists j | 0 <= j < |fs| :: fs[j].vertical == Largest(Verticals(fs))
  {
    var hs, vs := Horizontals(fs), Verticals(fs);
    assert forall j | 0 <= j < |fs| :: hs[j] == fs[j].horizontal && vs[j] == fs[j].vertical;
  }

  /** DHT fails exactly when the class `Tc` is past AC, and otherwise
      installs the tree of its table in slot `Tc` of table `Th`, changing
      nothing but the tables and the stream. */
  lemma HuffmanTableSlots(buf: seq<Byte>, d: Decoder)
    requires Valid(buf, d)
    ensures var h, r := HuffmanTableF(buf, d.at), HuffmanStep(buf, d);
      && (r.Ok? <==> h.value.coefType < TableClasses)
      && |h.value.values| == |HuffSize(Counts(h.value.counts))|
      && (r.Ok? ==>
            r.value == d.(at := h.after, trees := Install(d.trees, h.value.tableId, h.value.coefType, TreeOfSpec(h.value))))
  {
    HuffmanValuesBytes(buf, d.at);
  }

  /** The tree DHT installs holds the codes of Annex C for its values when
      the code lengths fit. */
  lemma HuffmanTableCodes(buf: seq<Byte>, d: Decoder)
    requires Valid(buf, d)
    ensures var h, r := HuffmanTableF(buf, d.at).value, HuffmanStep(buf, d);
      var sizes := HuffSize(Counts(h.counts));
      && |h.values| == |sizes| && Ascending(sizes)
      && (r.Ok? && Fits(sizes) ==> CanonicalTable(r.value.trees[h.tableId][h.coefType].value, sizes, h.values))
  {
    var h := HuffmanTableF(buf, d.at).value;
    var sizes := HuffSize(Counts(h.counts));
    HuffmanValuesBytes(buf, d.at);
    HuffSizeShape(Counts(h.counts));
    var r := HuffmanStep(buf, d);
    if r.Ok? && Fits(sizes) {
      HuffmanTableSlots(buf, d);
      InstallSlots(d.trees, h.tableId, h.coefType, TreeOfSpec(h));
      assert r.value.trees[h.tableId][h.coefType].value == InsertAll(EmptyTrie, sizes, h.values);
      CanonicalCodes(sizes, h.values);
    }
  }

  /** `⌊√(n²)⌋ = n`. */
  lemma SqrtOfSquare(n: nat)
    ensures FloorSqrt(n * n) == n
  {
    var r := FloorSqrt(n * n);
    SquareOrder(r, n);
    SquareOrder(r + 1, n);
  }

  /** Squaring keeps the order of naturals, both ways. */
  lemma SquareOrder(a: nat, b: nat)
    ensures a <= b <==> a * a <= b * b
  {
    if a <= b {
      MulMonotone(a, b);
    } else {
      MulMonotone(b + 1, a);
    }
  }

  lemma MulMonotone(a: nat, b: nat)
    requires a <= b
    ensures a * a <= b * b
  {
    assert a * a <= a * b <= b * b;
  }

  /** DQT fails exactly when `Lq < 3`, or when an entry has no cell in the
      whole zig-zag list or its cell is outside the resized table. Otherwise
      it appends the order of size `⌊√(Lq - 3)⌋` to the list, keeping the
      cells already there, and changes only table `Tq`. */
  lemma QuantizationOutcome(buf: seq<Byte>, d: Decoder)
    requires Valid(buf, d)
    ensures var q, r := QuantizationHeaderF(buf, d.at).value, QuantizationStep(buf, d);
      && (q.length < 3 <==> r == Err(BadTableLength))
      && (q.length >= 3 ==> r == QuantizationStore(d.(at := QuantizationEntriesF(buf, d.at).after), q.tableId, Dimension(q), QuantizationEntriesF(buf, d.at).value))
      && |QuantizationEntriesF(buf, d.at).value| == EntryCount(q.length, q.precision)
  {
    var q := QuantizationHeaderF(buf, d.at).value;
    var e := QuantizationEntriesF(buf, d.at);
    assert |e.value| == EntryCount(q.length, q.precision);
  }

  /** The stores fail exactly when an entry has no cell in the whole list or
      its cell is outside the resized table; they append the order of size
      `⌊√(Lq - 3)⌋` to the list, keeping the cells already there, and change
      only table `Tq`. */
  lemma StoreErrors(d: Decoder, id: nat, n: nat, entries: seq<int>)
    requires |d.tables| == QuantizationSlots && id < QuantizationSlots
    ensures var r := QuantizationStore(d, id, n, entries);
      var zz := d.zigzag + ZigzagOrder(n);
      var m := Resize(d.tables[id], n);
      && (r.Ok? <==> |entries| <= |zz| && forall t | 0 <= t < |entries| :: InTable(m, zz[t]))
      && (r.Err? ==> r.error == IndexOutOfRange)
      && (r.Ok? ==>
            && r.value.zigzag == zz && |zz| == |d.zigzag| + n * n
            && |r.value.tables[id]| == n
            && (forall k | 0 <= k < QuantizationSlots && k != id :: r.value.tables[k] == d.tables[k])
            && r.value == d.(tables := r.value.tables, zigzag := zz))
  {
    ZigzagLength(n);
    FillTableOk(Resize(d.tables[id], n), d.zigzag + ZigzagOrder(n), entries);
  }

  /** The number of cells of an `n`×`n` table. */
  function Area(n: nat): nat
  {
    n * n
  }

  /** Table `m` is `n`×`n` and holds at cell `(row, col)` the entry at the
      place of that cell in the zig-zag order. */
  ghost predicate InZigzagOrder(m: Matrix, n: nat, entries: seq<int>)
  {
    && |m| == n && (forall row | 0 <= row < n :: |m[row]| == n)
    && forall row, col | 0 <= row < n && 0 <= col < n ::
         0 <= Rank(n, (row, col)) < |entries| && m[row][col] == entries[Rank(n, (row, col))]
  }

  /** The first DQT of an `n`×`n` table with one-byte entries fills the table
      from the `n²` bytes after the header in zig-zag order. */
  lemma FirstQuantizationTable(buf: seq<Byte>, d: Decoder, n: nat)
    requires Valid(buf, d) && d.zigzag == []
    requires var q := QuantizationHeaderF(buf, d.at).value;
      q.precision == 0 && q.length == 3 + Area(n) && d.tables[q.tableId] == []
    ensures var q, r := QuantizationHeaderF(buf, d.at).value, QuantizationStep(buf, d);
      && r.Ok? && r.value.zigzag == ZigzagOrder(n)
      && InZigzagOrder(r.value.tables[q.tableId], n, Window(buf, d.at.at.index + 3, Area(n)))
  {
    var q := QuantizationHeaderF(buf, d.at).value;
    OneByteEntries(buf, d, n);
    StoreFirstTable(d.(at := QuantizationEntriesF(buf, d.at).after), q.tableId, Window(buf, d.at.at.index + 3, Area(n)), n);
  }

  /** With one-byte entries and `Lq = 3 + n²`, DQT stores the `n²` bytes after
      the header into a table of size `n`. */
  lemma OneByteEntries(buf: seq<Byte>, d: Decoder, n: nat)
    requires Valid(buf, d)
    requires var q := QuantizationHeaderF(buf, d.at).value; q.precision == 0 && q.length == 3 + Area(n)
    ensures var q := QuantizationHeaderF(buf, d.at).value;
      QuantizationStep(buf, d) ==
        QuantizationStore(d.(at := QuantizationEntriesF(buf, d.at).after), q.tableId, n, Window(buf, d.at.at.index + 3, Area(n)))
  {
    var q := QuantizationHeaderF(buf, d.at).value;
    QuantizationBytes(buf, d.at);
    SqrtOfSquare(n);
    assert Dimension(q) == n;
  }

  /** The stores of a first table: an `n`×`n` table whose cell `(row, col)`
      holds the entry at its place in the zig-zag order. */
  lemma StoreFirstTable(d: Decoder, id: nat, entries: seq<int>, n: nat)
    requires |d.tables| == QuantizationSlots && id < QuantizationSlots && d.zigzag == []
    requires d.tables[id] == [] && |entries| == n * n
    ensures var r := QuantizationStore(d, id, n, entries);
      r.Ok? && r.value.zigzag == ZigzagOrder(n) && InZigzagOrder(r.value.tables[id], n, entries)
  {
    assert d.zigzag + ZigzagOrder(n) == ZigzagOrder(n);
    FilledInOrder(n, entries);
  }

  /** Entries stored by the zig-zag order of size `n` into an empty table
      land each at its rank. */
  lemma FilledInOrder(n: nat, entries: seq<int>)
    requires |entries| == n * n
    ensures var r := FillTable(Resize([], n), ZigzagOrder(n), entries);
      r.Ok? && InZigzagOrder(r.value, n, entries)
  {
    var zz, m := ZigzagOrder(n), Resize([], n);
    OrderFitsTable(n);
    FillTableStores(m, zz, entries);
    var table := FillTable(m, zz, entries).value;
    assert |table| == n && forall row | 0 <= row < n :: |table[row]| == n;
    forall row, col | 0 <= row < n && 0 <= col < n
      ensures 0 <= Rank(n, (row, col)) < n * n && table[row][col] == entries[Rank(n, (row, col))]
    {
      FilledCell(n, zz, table, entries, row, col);
    }
  }

  /** One cell of `FilledInOrder`: the cell holds the entry at its rank. */
  lemma FilledCell(n: nat, zz: seq<Cell>, table: Matrix, entries: seq<int>, row: int, col: int)
    requires zz == ZigzagOrder(n) && |zz| == n * n && |entries| == n * n
    requires forall t | 0 <= t < |entries| :: InTable(table, zz[t]) && table[zz[t].0][zz[t].1] == entries[t]
    requires 0 <= row < n && 0 <= col < n && |table| == n && forall i | 0 <= i < n :: |table[i]| == n
    ensures 0 <= Rank(n, (row, col)) < n * n && table[row][col] == entries[Rank(n, (row, col))]
  {
    ZigzagCovers(n, (row, col));
    var t := Rank(n, (row, col));
    assert table[zz[t].0][zz[t].1] == entries[t];
  }

  /** The order of size `n` lists distinct cells of an empty table resized to
      `n`. */
  lemma OrderFitsTable(n: nat)
    ensures var zz, m := ZigzagOrder(n), Resize([], n);
      && |zz| == n * n
      && (forall t | 0 <= t < |zz| :: InTable(m, zz[t]))
      && (forall t, u | 0 <= t < u < |zz| :: zz[t] != zz[u])
  {
    ZigzagLength(n);
    var zz, m := ZigzagOrder(n), Resize([], n);
    forall t | 0 <= t < |zz| ensures InTable(m, zz[t]) {
      ZigzagRanks(n, t);
    }
    forall t, u | 0 <= t < u < |zz| ensures zz[t] != zz[u] {
      ZigzagDistinct(n, t, u);
    }
  }

  /** The list is never cleared, so a DQT of a smaller table after an 8×8 one
      places its entries by the 8×8 order and fails: with `Lq = 7` (a 2×2
      table) the fourth entry goes to cell (2, 0). */
  lemma SmallerTableAfterLargerFails(buf: seq<Byte>, d: Decoder)
    requires Valid(buf, d) && d.zigzag == ZigzagOrder(8)
    requires var q := QuantizationHeaderF(buf, d.at).value; q.precision == 0 && q.length == 7
    ensures QuantizationStep(buf, d) == Err(IndexOutOfRange)
  {
    var q := QuantizationHeaderF(buf, d.at).value;
    var e := QuantizationEntriesF(buf, d.at);
    QuantizationOutcome(buf, d);
    SqrtOfSquare(2);
    assert Dimension(q) == 2;
    ZigzagEnds(8);
    var zz := d.zigzag + ZigzagOrder(2);
    assert zz[3] == (2, 0);
    StoreErrors(d.(at := e.after), q.tableId, 2, e.value);
    assert !InTable(Resize(d.tables[q.tableId], 2), zz[3]);
  }
}
