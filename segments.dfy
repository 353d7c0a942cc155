/** What the marker-segment handlers of Jpeg.cpp read, as functions of the
    stream state: each handler is the composition of `k`-byte reads of
    BitStream, and the lemmas here say which bytes of the buffer end up in
    which field. */
module Segments {
  import opened Common
  import opened BitStream
  import opened Canonical
  import opened Zigzag

  //--------------------------------------------------------------------------
  // Reading at a known offset
  //--------------------------------------------------------------------------

  /** Windows starting past the end read only zeros, wherever they start. */
  lemma WindowClamp(buf: seq<Byte>, i: nat, k: nat)
    ensures Window(buf, Min(i, |buf|), k) == Window(buf, i, k)
  {
    var m := Min(i, |buf|);
    forall j | 0 <= j < k ensures Window(buf, m, k)[j] == Window(buf, i, k)[j] {
      assert Window(buf, m, k)[j] == ByteAt(buf, m + j);
      assert Window(buf, i, k)[j] == ByteAt(buf, i + j);
    }
  }

  /** After `a` byte reads, the next `b` reads see the bytes at offset `a`. */
  lemma LaterWindow(buf: seq<Byte>, s: State, a: nat, b: nat)
    requires ValidState(buf, s)
    ensures ReadBytesF(buf, ReadBytesF(buf, s, a).after, b).value == Window(buf, s.at.index + a, b)
  {
    var r := ReadBytesF(buf, s, a);
    ReadBytesAgree(buf, s, a);
    ReadBytesAgree(buf, r.after, b);
    WindowClamp(buf, s.at.index + a, b);
  }

  /** The length field and the byte after it that DHT, DQT and SOS begin with. */
  const LengthAndFlags: nat := 3

  /** The big-endian length field at the head of a segment. */
  function LengthOf(bytes: seq<Byte>): nat
    requires |bytes| >= 2
  {
    BigEndian16(bytes[0], bytes[1])
  }

  //--------------------------------------------------------------------------
  // COM: process_comment
  //--------------------------------------------------------------------------

  /** The bytes `process_comment` appends to `_comment`: after the length
      `Lc`, one byte for each `i` in `2 .. Lc - 1`. */
  function CommentF(buf: seq<Byte>, s: State): Read<seq<Byte>>
    requires ValidState(buf, s)
  {
    var l := ReadBytesF(buf, s, 2);
    ReadBytesF(buf, l.after, Max(LengthOf(l.value) - 2, 0))
  }

  /** The comment is the `Lc - 2` bytes that follow the length field. */
  lemma CommentBytes(buf: seq<Byte>, s: State)
    requires ValidState(buf, s)
    ensures var i := s.at.index;
      var lc := BigEndian16(ByteAt(buf, i), ByteAt(buf, i + 1));
      CommentF(buf, s).value == Window(buf, i + 2, Max(lc - 2, 0))
  {
    ReadBytesAgree(buf, s, 2);
    LaterWindow(buf, s, 2, Max(LengthOf(ReadBytesF(buf, s, 2).value) - 2, 0));
  }

  //--------------------------------------------------------------------------
  // SOF0: process_start_of_frame_baseline_DCT
  //--------------------------------------------------------------------------

  /** `Jpeg::Frame`: one frame component. */
  datatype Frame = Frame(id: Byte, horizontal: Byte, vertical: Byte, quantizationTable: Byte)

  /** The component read from three bytes: identifier, sampling factors
      packed as `H << 4 | V`, quantization table selector. */
  function FrameOf(id: Byte, thinning: Byte, table: Byte): Frame
  {
    Frame(id, HighNibble(thinning), LowNibble(thinning), table)
  }

  /** The components of a run of component specifications, three bytes each. */
  function ComponentsOf(bytes: seq<Byte>): (r: seq<Frame>)
    ensures |r| == |bytes| / 3
    decreases |bytes|
  {
    if |bytes| < 3 then []
    else
      var n := |bytes|;
      ComponentsOf(bytes[..n - 3]) + [FrameOf(bytes[n - 3], bytes[n - 2], bytes[n - 1])]
  }

  /** Component `k` is built from bytes `3k .. 3k + 2`. */
  lemma {:induction false} ComponentAt(bytes: seq<Byte>, k: nat)
    requires |bytes| % 3 == 0 && k < |bytes| / 3
    ensures ComponentsOf(bytes)[k] == FrameOf(bytes[3 * k], bytes[3 * k + 1], bytes[3 * k + 2])
    decreases |bytes|
  {
    var n := |bytes|;
    if k < (n - 3) / 3 {
      ComponentAt(bytes[..n - 3], k);
    }
  }

  /** `std::max` folded from 0, as the thinning maxima are accumulated. */
  function Largest(xs: seq<int>): (r: int)
    ensures r >= 0 && forall i | 0 <= i < |xs| :: xs[i] <= r
    ensures r == 0 || exists i | 0 <= i < |xs| :: xs[i] == r
    decreases |xs|
  {
    if |xs| == 0 then 0
    else
      var m := Largest(xs[..|xs| - 1]);
      assert forall i | 0 <= i < |xs| - 1 :: xs[..|xs| - 1][i] == xs[i];
      Max(xs[|xs| - 1], m)
  }

  function Horizontals(fs: seq<Frame>): seq<int>
  {
    seq(|fs|, i requires 0 <= i < |fs| => fs[i].horizontal)
  }

  function Verticals(fs: seq<Frame>): seq<int>
  {
    seq(|fs|, i requires 0 <= i < |fs| => fs[i].vertical)
  }

  /** `Lf`, `P`, `Y`, `X` and `Nf`. */
  const FrameHeaderLength: nat := 8

  /** What `process_start_of_frame_baseline_DCT` reads: the 8 header bytes
      (`Lf`, `P`, `Y`, `X`, `Nf`), then `Nf` component specifications. */
  function StartOfFrameF(buf: seq<Byte>, s: State): Read<seq<Frame>>
    requires ValidState(buf, s)
  {
    var h := ReadBytesF(buf, s, FrameHeaderLength);
    var c := ReadBytesF(buf, h.after, 3 * (h.value[7] as nat));
    Read(ComponentsOf(c.value), c.after)
  }

  /** The frame has `Nf` components, where `Nf` is the byte 7 bytes past the
      marker, and component `k` takes bytes `8 + 3k .. 10 + 3k`. */
  lemma StartOfFrameBytes(buf: seq<Byte>, s: State, k: nat)
    requires ValidState(buf, s)
    ensures var i := s.at.index;
      var fs := StartOfFrameF(buf, s).value;
      && |fs| == ByteAt(buf, i + 7)
      && (k < |fs| ==> fs[k] == FrameOf(ByteAt(buf, i + 8 + 3 * k), ByteAt(buf, i + 9 + 3 * k), ByteAt(buf, i + 10 + 3 * k)))
  {
    var h := ReadBytesF(buf, s, FrameHeaderLength);
    ReadBytesAgree(buf, s, FrameHeaderLength);
    var nf: nat := h.value[7];
    LaterWindow(buf, s, FrameHeaderLength, 3 * nf);
    var c := ReadBytesF(buf, h.after, 3 * nf);
    if k < nf {
      ComponentAt(c.value, k);
    }
  }

  //--------------------------------------------------------------------------
  // DHT: process_huffman_table
  //--------------------------------------------------------------------------

  /** A Huffman table specification: `Tc`, `Th`, the 16 counts `L1..L16` and
      the values `V`. */
  datatype HuffmanSpec = HuffmanSpec(coefType: Byte, tableId: Byte, counts: seq<Byte>, values: seq<Byte>)

  /** The bytes as counts. */
  function Counts(bytes: seq<Byte>): seq<nat>
  {
    seq(|bytes|, i requires 0 <= i < |bytes| => bytes[i] as nat)
  }

  /** The number of code-length counts, `L1 .. L16`. */
  const CountsLength: nat := 16

  /** What `process_huffman_table` reads: `Lh`, `Tc Th`, 16 counts, then as
      many values as the counts add up to. */
  function HuffmanTableF(buf: seq<Byte>, s: State): Read<HuffmanSpec>
    requires ValidState(buf, s)
  {
    var h := ReadBytesF(buf, s, LengthAndFlags);
    var c := ReadBytesF(buf, h.after, CountsLength);
    var v := ReadBytesF(buf, c.after, Sum(Counts(c.value)));
    Read(HuffmanSpec(HighNibble(h.value[2]), LowNibble(h.value[2]), c.value, v.value), v.after)
  }

  /** `Tc` and `Th` are the nibbles of the byte after the length and the
      counts are the 16 bytes after it. */
  lemma HuffmanTableBytes(buf: seq<Byte>, s: State)
    requires ValidState(buf, s)
    ensures var i := s.at.index;
      var t := HuffmanTableF(buf, s).value;
      && t.coefType == HighNibble(ByteAt(buf, i + 2))
      && t.tableId == LowNibble(ByteAt(buf, i + 2))
      && t.counts == Window(buf, i + 3, 16)
  {
    ReadBytesAgree(buf, s, LengthAndFlags);
    LaterWindow(buf, s, 3, 16);
  }

  /** The values are the bytes after the counts, one for each length
      `HuffSize` lists. */
  lemma HuffmanValuesBytes(buf: seq<Byte>, s: State)
    requires ValidState(buf, s)
    ensures var t := HuffmanTableF(buf, s).value;
      && t.values == Window(buf, s.at.index + 19, Sum(Counts(t.counts)))
      && |t.values| == |HuffSize(Counts(t.counts))|
  {
    var c := ReadBytesF(buf, ReadBytesF(buf, s, LengthAndFlags).after, CountsLength);
    var total := Sum(Counts(c.value));
    ReadBytesSplit(buf, s, 3, 16);
    LaterWindow(buf, s, 19, total);
    HuffSizeShape(Counts(c.value));
  }

  //--------------------------------------------------------------------------
  // DQT: process_quantization_table
  //--------------------------------------------------------------------------

  /** `(int)sqrt(x)` for a non-negative integer `x`: the integer square root
      (the double square root is exact at these magnitudes). */
  function FloorSqrt(x: nat): (r: nat)
    ensures r * r <= x < (r + 1) * (r + 1)
  {
    if x == 0 then 0
    else
      var r := FloorSqrt(x - 1);
      if (r + 1) * (r + 1) <= x then
        assert x == (r + 1) * (r + 1);
        assert (r + 2) * (r + 2) == (r + 1) * (r + 1) + 2 * r + 3;
        r + 1
      else r
  }

  /** The number of iterations of `for (i = 3; i < Lq; i += 1 + Pq)`. */
  function EntryCount(length: int, precision: nat): nat
  {
    if length <= 3 then 0 else (length - 3 + precision) / (1 + precision)
  }

  /** Iteration `t` of the entry loop runs exactly when `3 + t(1 + Pq) < Lq`. */
  lemma EntryCountIsLoopCount(length: int, precision: nat, t: nat)
    ensures t < EntryCount(length, precision) <==> 3 + t * (1 + precision) < length
  {
    var d := 1 + precision;
    ScaleOrder(0, t, d);
    if length > 3 {
      FloorDivision(length - 3 + precision, d, t + 1);
      assert (t + 1) * d == t * d + d;
    }
  }

  /** `k` is at most `⌊x / d⌋` exactly when `k d` is at most `x`. */
  lemma FloorDivision(x: nat, d: nat, k: nat)
    requires d > 0
    ensures k <= x / d <==> k * d <= x
  {
    var q := x / d;
    assert x == q * d + x % d && x % d < d;
    ScaleOrder(k, q, d);
    ScaleOrder(q + 1, k, d);
    assert (q + 1) * d == q * d + d;
  }

  /** Scaling by a positive factor keeps the order. */
  lemma ScaleOrder(a: int, b: int, d: int)
    requires d > 0
    ensures a <= b <==> a * d <= b * d
  {
    assert b * d - a * d == (b - a) * d;
  }

  /** One table entry: a byte, or with `Pq != 0` two bytes `b1 * 0x100 + b2`. */
  function EntryF(buf: seq<Byte>, s: State, wide: bool): Read<int>
    requires ValidState(buf, s)
  {
    var a := ReadByteF(buf, s);
    if !wide then Read(a.value, a.after)
    else
      var b := ReadByteF(buf, a.after);
      Read(a.value * 0x100 + b.value, b.after)
  }

  /** `count` entries in a row. */
  function EntriesF(buf: seq<Byte>, s: State, count: nat, wide: bool): (r: Read<seq<int>>)
    requires ValidState(buf, s)
    ensures |r.value| == count && ValidState(buf, r.after)
    decreases count
  {
    if count == 0 then Read([], s)
    else
      var r := EntriesF(buf, s, count - 1, wide);
      ReadByteCases(buf, r.after);
      ReadByteCases(buf, ReadByteF(buf, r.after).after);
      var e := EntryF(buf, r.after, wide);
      Read(r.value + [e.value], e.after)
  }

  /** Entry reads are byte reads: `count` entries take `count` or `2 count`
      bytes, entry `t` being byte `t` or the big-endian pair at `2t`. */
  lemma {:induction false} EntriesAgree(buf: seq<Byte>, s: State, count: nat, wide: bool, t: nat)
    requires ValidState(buf, s)
    ensures var w := if wide then 2 else 1;
      var r := EntriesF(buf, s, count, wide);
      var b := ReadBytesF(buf, s, count * w);
      && r.after == b.after
      && (t < count ==> r.value[t] == if wide then (b.value[2 * t] as int) * 0x100 + b.value[2 * t + 1] else b.value[t])
    decreases count
  {
    if count > 0 {
      var w := if wide then 2 else 1;
      EntriesAgree(buf, s, count - 1, wide, t);
      var p := ReadBytesF(buf, s, (count - 1) * w);
      ReadBytesSplit(buf, s, (count - 1) * w, w);
      assert (count - 1) * w + w == count * w;
      var q := ReadBytesF(buf, p.after, w);
      assert q.value[0] == ReadByteF(buf, p.after).value;
      if wide {
        assert q.value[1] == ReadByteF(buf, ReadByteF(buf, p.after).after).value;
        assert q.after == ReadByteF(buf, ReadByteF(buf, p.after).after).after;
        assert 2 * (count - 1) == (count - 1) * w;
      }
      var b := ReadBytesF(buf, s, count * w);
      assert b.value == p.value + q.value;
      if t == count - 1 {
        if wide {
          assert b.value[2 * t] == q.value[0] && b.value[2 * t + 1] == q.value[1];
        } else {
          assert b.value[t] == q.value[0];
        }
      } else if t < count - 1 {
        if wide {
          assert b.value[2 * t] == p.value[2 * t] && b.value[2 * t + 1] == p.value[2 * t + 1];
        } else {
          assert b.value[t] == p.value[t];
        }
      }
    }
  }

  /** `std::vector<std::vector<int>>`. */
  type Matrix = seq<seq<int>>

  /** `matrix[zz.first][zz.second] = v`, an error when either index is out of
      range. */
  function Put(m: Matrix, c: Cell, v: int): (r: Result<Matrix>)
    ensures r.Ok? <==> 0 <= c.0 < |m| && 0 <= c.1 < |m[c.0]|
    ensures r.Ok? ==> |r.value| == |m| && forall i | 0 <= i < |m| :: |r.value[i]| == |m[i]|
  {
    if 0 <= c.0 < |m| && 0 <= c.1 < |m[c.0]| then Ok(m[c.0 := m[c.0][c.1 := v]]) else Err(IndexOutOfRange)
  }

  /** A `dim` by `dim` matrix of zeros. */
  function Zeros(dim: nat): Matrix
  {
    seq(dim, _ => seq(dim, _ => 0))
  }

  /** `resize(n, std::vector<int>(n))`: rows past `n` are dropped, missing
      rows are `n` zeros, and rows that were already there keep their
      length. */
  function Resize(m: Matrix, n: nat): (r: Matrix)
    ensures |r| == n
    ensures forall i | 0 <= i < n :: r[i] == if i < |m| then m[i] else seq(n, _ => 0)
  {
    seq(n, i requires 0 <= i < n => if i < |m| then m[i] else seq(n, _ => 0))
  }

  /** The entry loop's stores: entry `t` goes to `zigzag[t]` of the whole
      list; an error when `t` is past the list or the cell is not in the
      table. */
  function FillTable(m: Matrix, zigzag: seq<Cell>, entries: seq<int>): (r: Result<Matrix>)
    ensures r.Ok? ==> |r.value| == |m| && forall i | 0 <= i < |m| :: |r.value[i]| == |m[i]|
    ensures r.Err? ==> r.error == IndexOutOfRange
    decreases |entries|
  {
    if |entries| == 0 then Ok(m)
    else
      var t := |entries| - 1;
      match FillTable(m, zigzag, entries[..t])
      case Err(e) => Err(e)
      case Ok(m1) => if t >= |zigzag| then Err(IndexOutOfRange) else Put(m1, zigzag[t], entries[t])
  }

  /** Cell `c` is inside matrix `m`. */
  predicate InTable(m: Matrix, c: Cell)
  {
    0 <= c.0 < |m| && 0 <= c.1 < |m[c.0]|
  }

  /** The stores succeed exactly when every entry has a cell in the list and
      that cell is in the table. */
  lemma {:induction false} FillTableOk(m: Matrix, zigzag: seq<Cell>, entries: seq<int>)
    ensures FillTable(m, zigzag, entries).Ok? <==>
      |entries| <= |zigzag| && forall t | 0 <= t < |entries| :: InTable(m, zigzag[t])
    decreases |entries|
  {
    if |entries| > 0 {
      var t := |entries| - 1;
      FillTableOk(m, zigzag, entries[..t]);
    }
  }

  /** With distinct cells in the table, entry `t` ends up at cell `t` and the
      cells not listed keep their value. */
  lemma {:induction false} FillTableStores(m: Matrix, zigzag: seq<Cell>, entries: seq<int>)
    requires |entries| <= |zigzag| && forall t | 0 <= t < |entries| :: InTable(m, zigzag[t])
    requires forall t, u | 0 <= t < u < |entries| :: zigzag[t] != zigzag[u]
    ensures FillTable(m, zigzag, entries).Ok?
    ensures var r := FillTable(m, zigzag, entries).value;
      && (forall t | 0 <= t < |entries| :: InTable(r, zigzag[t]) && r[zigzag[t].0][zigzag[t].1] == entries[t])
      && (forall i, j | InTable(m, (i, j)) && (i, j) !in zigzag[..|entries|] :: r[i][j] == m[i][j])
    decreases |entries|
  {
    FillTableOk(m, zigzag, entries);
    if |entries| > 0 {
      var t := |entries| - 1;
      FillTableStores(m, zigzag, entries[..t]);
      var m1 := FillTable(m, zigzag, entries[..t]).value;
      var r := FillTable(m, zigzag, entries).value;
      var c := zigzag[t];
      assert r == m1[c.0 := m1[c.0][c.1 := entries[t]]];
      assert InTable(r, c);
      forall u | 0 <= u < t ensures InTable(r, zigzag[u]) && r[zigzag[u].0][zigzag[u].1] == entries[u] {
        assert zigzag[u] != c;
        assert entries[..t][u] == entries[u];
      }
      forall i, j | InTable(m, (i, j)) && (i, j) !in zigzag[..|entries|] ensures r[i][j] == m[i][j] {
        assert zigzag[..|entries|][t] == c;
        assert forall u | 0 <= u < t :: zigzag[..t][u] == zigzag[..|entries|][u];
      }
    }
  }

  /** A quantization table specification header: `Lq`, `Pq` (any high
      nibble, not only 0 or 1) and `Tq`. */
  datatype QuantizationSpec = QuantizationSpec(length: nat, precision: Byte, tableId: Byte)

  function QuantizationHeaderF(buf: seq<Byte>, s: State): Read<QuantizationSpec>
    requires ValidState(buf, s)
  {
    var h := ReadBytesF(buf, s, LengthAndFlags);
    Read(QuantizationSpec(LengthOf(h.value), HighNibble(h.value[2]), LowNibble(h.value[2])), h.after)
  }

  /** The entries read after the header. */
  function QuantizationEntriesF(buf: seq<Byte>, s: State): Read<seq<int>>
    requires ValidState(buf, s)
  {
    var h := QuantizationHeaderF(buf, s);
    EntriesF(buf, h.after, EntryCount(h.value.length, h.value.precision), h.value.precision != 0)
  }

  /** With `Pq == 0` the entries are the `Lq - 3` bytes after the header. */
  lemma QuantizationBytes(buf: seq<Byte>, s: State)
    requires ValidState(buf, s)
    ensures var i := s.at.index;
      var h := QuantizationHeaderF(buf, s).value;
      && h.length == BigEndian16(ByteAt(buf, i), ByteAt(buf, i + 1))
      && h.precision == HighNibble(ByteAt(buf, i + 2))
      && h.tableId == LowNibble(ByteAt(buf, i + 2))
      && (h.precision == 0 ==> QuantizationEntriesF(buf, s).value == Window(buf, i + 3, Max(h.length - 3, 0)))
  {
    var h := ReadBytesF(buf, s, LengthAndFlags);
    ReadBytesAgree(buf, s, LengthAndFlags);
    var spec := QuantizationHeaderF(buf, s).value;
    if spec.precision == 0 {
      var n := EntryCount(spec.length, 0);
      assert n == Max(spec.length - 3, 0);
      LaterWindow(buf, s, 3, n);
      var e := QuantizationEntriesF(buf, s).value;
      var b := ReadBytesF(buf, h.after, n * 1);
      forall t | 0 <= t < n ensures e[t] == b.value[t] {
        EntriesAgree(buf, h.after, n, false, t);
      }
    }
  }

  //--------------------------------------------------------------------------
  // SOS header: process_start_of_scan
  //--------------------------------------------------------------------------

  /** `component_t`: a scan component selector and its packed `Td Ta`. */
  datatype ScanComponent = ScanComponent(id: Byte, tables: Byte)

  /** The scan header as the source splits it; `al` is `A & 0xFF`, which is
      the whole byte `A`, not its low nibble. */
  datatype ScanHeader = ScanHeader(components: seq<ScanComponent>, ss: Byte, se: Byte, ah: Byte, al: Byte)

  function ScanComponentsOf(bytes: seq<Byte>): (r: seq<ScanComponent>)
    ensures |r| == |bytes| / 2
    decreases |bytes|
  {
    if |bytes| < 2 then []
    else
      var n := |bytes|;
      ScanComponentsOf(bytes[..n - 2]) + [ScanComponent(bytes[n - 2], bytes[n - 1])]
  }

  lemma {:induction false} ScanComponentAt(bytes: seq<Byte>, k: nat)
    requires |bytes| % 2 == 0 && k < |bytes| / 2
    ensures ScanComponentsOf(bytes)[k] == ScanComponent(bytes[2 * k], bytes[2 * k + 1])
    decreases |bytes|
  {
    var n := |bytes|;
    if k < (n - 2) / 2 {
      ScanComponentAt(bytes[..n - 2], k);
    }
  }

  /** `Ss`, `Se` and `A`. */
  const ScanTailLength: nat := 3

  /** `Ls`, `Ns`, `Ns` component pairs, then `Ss`, `Se` and `A`. */
  function ScanHeaderF(buf: seq<Byte>, s: State): Read<ScanHeader>
    requires ValidState(buf, s)
  {
    var h := ReadBytesF(buf, s, LengthAndFlags);
    var c := ReadBytesF(buf, h.after, 2 * (h.value[2] as nat));
    var t := ReadBytesF(buf, c.after, ScanTailLength);
    Read(ScanHeader(ScanComponentsOf(c.value), t.value[0], t.value[1], HighNibble(t.value[2]), t.value[2]), t.after)
  }

  /** Component `k` of a scan takes the bytes `3 + 2k`, `4 + 2k` past the
      marker, and `Ah` and `Al` both come from the byte
      after `Ss` and `Se`. */
  lemma ScanHeaderBytes(buf: seq<Byte>, s: State, k: nat)
    requires ValidState(buf, s)
    ensures var i := s.at.index;
      var ns := ByteAt(buf, i + 2);
      var hd := ScanHeaderF(buf, s).value;
      && |hd.components| == ns
      && (k < ns ==> hd.components[k] == ScanComponent(ByteAt(buf, i + 3 + 2 * k), ByteAt(buf, i + 4 + 2 * k)))
      && hd.ss == ByteAt(buf, i + 3 + 2 * ns)
      && hd.se == ByteAt(buf, i + 4 + 2 * ns)
      && hd.ah == HighNibble(ByteAt(buf, i + 5 + 2 * ns))
      && hd.al == ByteAt(buf, i + 5 + 2 * ns)
  {
    var i := s.at.index;
    var h := ReadBytesF(buf, s, LengthAndFlags);
    ReadBytesAgree(buf, s, LengthAndFlags);
    var ns: nat := h.value[2];
    assert ns == ByteAt(buf, i + 2);
    var c := ReadBytesF(buf, h.after, 2 * ns);
    LaterWindow(buf, s, LengthAndFlags, 2 * ns);
    ReadBytesSplit(buf, s, LengthAndFlags, 2 * ns);
    var t := ReadBytesF(buf, c.after, ScanTailLength);
    TailWindow(buf, s, 2 * ns, c.after);
    assert t.value == Window(buf, i + 3 + 2 * ns, 3);
    assert t.value[0] == ByteAt(buf, i + 3 + 2 * ns);
    assert t.value[1] == ByteAt(buf, i + 4 + 2 * ns);
    assert t.value[2] == ByteAt(buf, i + 5 + 2 * ns);
    if k < ns {
      ComponentBytes(buf, i, c.value, ns, k);
    }
  }

  /** Component `k` of the component bytes that start at index `i + 3`. */
  lemma ComponentBytes(buf: seq<Byte>, i: nat, bytes: seq<Byte>, ns: nat, k: nat)
    requires bytes == Window(buf, i + LengthAndFlags, 2 * ns) && k < ns
    ensures ScanComponentsOf(bytes)[k] == ScanComponent(ByteAt(buf, i + 3 + 2 * k), ByteAt(buf, i + 4 + 2 * k))
  {
    ScanComponentAt(bytes, k);
    assert bytes[2 * k] == ByteAt(buf, i + 3 + 2 * k);
    assert bytes[2 * k + 1] == ByteAt(buf, i + 4 + 2 * k);
  }

  /** The three bytes after the header and `m` more. */
  lemma TailWindow(buf: seq<Byte>, s: State, m: nat, after: State)
    requires ValidState(buf, s) && after == ReadBytesF(buf, s, LengthAndFlags + m).after
    ensures ReadBytesF(buf, after, ScanTailLength).value == Window(buf, s.at.index + 3 + m, 3)
  {
    LaterWindow(buf, s, LengthAndFlags + m, ScanTailLength);
  }
}
