# SteganAssist baseline JPEG parser, modelled in Dafny

This project models the core of the SteganAssist JPEG decoder, which follows
ISO/IEC 10918-1 (ITU-T T.81). The core is:

- `InputBitStream`, a bit and byte cursor over an immutable buffer with a
  sticky end-of-stream flag;
- the pointer-based `HuffmanTree`, filled by a left-first recursive
  insertion, and its `HuffmanTreeIterator`;
- the zig-zag index generator;
- the SOF0, DHT, DQT and COM marker-segment handlers;
- the SOS scan decoder, which decodes DC/AC coefficients through the
  Huffman iterators;
- the marker-dispatch loop of the `Jpeg` constructor, with its throwing
  stub handlers.

The model is imperative where the source is:

- `BitStream.InputBitStream`, `Huffman.HuffmanTree`,
  `Huffman.HuffmanTreeIterator` and `Image.Jpeg` are classes whose methods
  update their fields in place.
- Every method is proved against a pure function of the old state:
  `BitStream.ReadBitF`, `HuffmanTrie.AddAt`, `Scan.AcF`, `Parser.ParseF`, …
- The properties the source promises are proved as lemmas about those
  functions. Examples: the left-first tree holds exactly the codes of
  Annex C; the zig-zag order lists every grid cell once; the dispatch loop
  requires the `0xFF` prefix.
- C++ exceptions, and the unchecked accesses that would be undefined
  behaviour, become the typed errors of `Common.Error`.

Modules, in dependency order:

| module | file | contents |
|---|---|---|
| Common | common.dfy | bytes, bits, errors, `Result`, nibbles |
| Binary | binary.dfy | bit strings as numbers (MSB first) |
| BitStream | bitstream.dfy | the stream state as a value, the read functions, class `InputBitStream` |
| HuffmanTrie | huffman_trie.dfy | a tree as a map from paths to node labels; `add_element` as `AddAt` |
| Canonical | canonical.dfy | Figures C.1/C.2 of Annex C and the proof that the left-first insertion yields them |
| Huffman | huffman.dfy | the node arena and the classes `HuffmanTree`, `HuffmanTreeIterator` |
| Zigzag | zigzag.dfy | the order the generator appends |
| Segments | segments.dfy | what the COM, SOF0, DHT, DQT and SOS-header handlers read |
| Scan | scan.dfy | Huffman decoding, EXTEND, the DC and AC loops, rounds, the DC post-pass |
| Parser | parser.dfy | the decoder's fields as a value; each handler and the dispatch loop as a function |
| Image | jpeg.dfy | class `Jpeg` with its handlers and the dispatch loop, proved against Parser |

## Model

| member | source | states |
|---|---|---|
| BitStream.InputBitStream.constructor | SteganAssist/BitStream.cpp:4-10 | the stream holds the given bytes at index 0, bit number 7, not ended |
| BitStream.InputBitStream.FromString | SteganAssist/BitStream.cpp:12-18 | for characters that are bytes (below 256), byte `i` of the buffer is character `i`; the start state is the same as the vector constructor's |
| BitStream.InputBitStream.ReadBit | SteganAssist/BitStream.cpp:20-38 | the fields and the value are those of `ReadBitF` on the old state |
| BitStream.InputBitStream.ReadByte | SteganAssist/BitStream.cpp:39-52 | the fields and the value are those of `ReadByteF`; the bit number is not touched |
| BitStream.InputBitStream.BitsBack | SteganAssist/BitStream.cpp:60-71 | the cursor becomes `BitsBackCursor` of the old one; the end flag is kept |
| BitStream.InputBitStream.BytesBack | SteganAssist/BitStream.cpp:73-77 | the index drops by `n`, clamped at 0; bit number and end flag are kept |
| BitStream.InputBitStream.Size | SteganAssist/BitStream.cpp:79-82 | `Size() + index` is the buffer length, whatever the bit number |
| BitStream.ReadBitCases | SteganAssist/BitStream.cpp:20-38 | an in-bounds read yields bit `_bit_number` of the current byte and moves to the next lower bit, or to bit 7 of the next byte after bit 0; a read at the end yields 0, sets the end flag and moves nothing |
| BitStream.ReadByteCases | SteganAssist/BitStream.cpp:39-52 | an in-bounds read yields `_buffer[_index]` and advances the index by one, keeping the bit number even in mid-byte; a read at the end yields 0 and sets the end flag |
| BitStream.EightBitsMakeTheByte | SteganAssist/BitStream.cpp:20-32 | eight bit reads from bit 7, reassembled MSB first, give back the byte |
| BitStream.ReadBitAgrees | SteganAssist/BitStream.cpp:20-38 | a bit read yields the buffer's bit at the absolute position (0 past the end) and advances the position up to the end and no further |
| BitStream.ReadBitsAgree | SteganAssist/BitStream.cpp:20-38 | `k` bit reads yield the `k` bits at the position; the end flag is set exactly when they run past the end |
| BitStream.ReadBytesAgree | SteganAssist/BitStream.cpp:39-52 | `k` byte reads yield the window of `k` bytes (zeros past the end), keep the bit number, and set the end flag exactly when they run past the end |
| BitStream.EndIsSticky | SteganAssist/BitStream.cpp:55-77 | no read and no `BytesBack` clears the end flag |
| BitStream.BytesBackCursor | SteganAssist/BitStream.cpp:73-77 | the index drops by `n`, clamped at 0, and the bit number is kept |
| BitStream.BytesBackUndoesReads | SteganAssist/BitStream.cpp:73-77 | `BytesBack(0)` changes nothing; `BytesBack(n)` after `n` in-bounds byte reads returns to where they started |
| BitStream.BitsBackShape | SteganAssist/BitStream.cpp:60-71 | for a multiple of 8, `BitsBack(n)` is `BytesBack(n / 8)`; otherwise the bit number drops by `n % 8`, plus 8 and one byte back on underflow; the index never ends negative |
| BitStream.BitsBackDoesNotUndoARead | SteganAssist/BitStream.cpp:60-71 | after one bit read from (0, 7), `BitsBack(1)` gives (0, 5), not (0, 7); the corrected rewind gives (0, 7) |
| BitStream.RewindBitsUndoes | SteganAssist/BitStream.cpp:60-71 | the corrected rewind moves the absolute bit position back by exactly `n` and leaves a valid cursor |
| HuffmanTrie.AbsentSucceeds | SteganAssist/Jpeg.cpp:11-34 | inserting at a missing node always succeeds |
| HuffmanTrie.FailureChangesNothing | SteganAssist/Jpeg.cpp:11-34 | a failed `add_element` leaves the tree unchanged |
| HuffmanTrie.SuccessPlaces | SteganAssist/Jpeg.cpp:11-34 | a successful insert of (L, v) marks a node exactly L steps below as a code end holding v, on a path that passes no old code end |
| HuffmanTrie.InsertionFrame | SteganAssist/Jpeg.cpp:11-34 | old nodes stay; new nodes lie only on the path to the placed value; every other label is kept; the result is a tree |
| HuffmanTrie.LeastFree | SteganAssist/Jpeg.cpp:11-34 | `add_element` succeeds exactly when some path of L steps below passes no code end, and then it uses the left-most such path (left tried before right) |
| HuffmanTrie.AddFacts | SteganAssist/Jpeg.cpp:40-43 | `AddElement` keeps a tree; it fails (changing nothing) or places v at the left-most free path; the code ends grow by exactly that path |
| HuffmanTrie.InsertAllKeepsTrie | SteganAssist/Jpeg.cpp:171-178 | any sequence of insertions keeps a tree a tree |
| Huffman.WithChild | SteganAssist/Jpeg.cpp:15-18 | setting one child pointer leaves the other pointer, the value and the code-end flag alone |
| Huffman.CreateStep | SteganAssist/Jpeg.cpp:15-18 | a `new Node()` for a missing child, appended to the arena, adds exactly that path with a fresh label (0xFF, not a code end) |
| Huffman.MarkStep | SteganAssist/Jpeg.cpp:19-24 | marking a node sets exactly that path's label to (v, code end) |
| Huffman.ArenaIsTrie | SteganAssist/Jpeg.cpp:3-10 | the paths of the node arena form a tree |
| Huffman.CreatedFirst | SteganAssist/Jpeg.cpp:13-18 | creating the node before the insertion does not change what `add_element` does |
| Huffman.HuffmanTree.constructor | SteganAssist/Jpeg.cpp:35-39 | the new tree is just a root |
| Huffman.HuffmanTree.Insert | SteganAssist/Jpeg.cpp:11-34 | the result and the new tree are those of `AddAt` on the old tree; nodes keep their place in the arena |
| Huffman.HuffmanTree.NewChild | SteganAssist/Jpeg.cpp:15-18 | the missing child is created with a fresh label and nothing else changes |
| Huffman.HuffmanTree.Settle | SteganAssist/Jpeg.cpp:19-33 | the rest of `add_element` on an existing non-leaf node agrees with `AddAt` |
| Huffman.HuffmanTree.Descend | SteganAssist/Jpeg.cpp:25-33 | the left insertion is tried first, and the right one only when it fails |
| Huffman.HuffmanTree.AddElement | SteganAssist/Jpeg.cpp:40-43 | the new tree is `Add` of the old one; the result is dropped |
| Huffman.HuffmanTree.GetRoot | SteganAssist/Jpeg.cpp:44-47 | the root node is the node of the empty path |
| Huffman.HuffmanTreeIterator.constructor | SteganAssist/Jpeg.cpp:49-53 | the iterator starts at the root |
| Huffman.HuffmanTreeIterator.Step | SteganAssist/Jpeg.cpp:54-62 | `Step(0)` moves left and any other way right; it succeeds exactly when that child exists, and otherwise fails with `InvalidHuffmanCode` |
| Huffman.HuffmanTreeIterator.IsCodeEnd | SteganAssist/Jpeg.cpp:63-66 | the code-end flag of the current node |
| Huffman.HuffmanTreeIterator.GetValue | SteganAssist/Jpeg.cpp:67-70 | the value of the current node |
| Huffman.HuffmanTreeIterator.Reset | SteganAssist/Jpeg.cpp:71-74 | the iterator is back at the root |
| Canonical.HuffSizeShape | SteganAssist/Jpeg.cpp:171-178 | the insertion lengths are `Sum(counts)` many, ascending, and each between 1 and 16 |
| Canonical.HuffCode | SteganAssist/Jpeg.cpp:171-178 | the Figure C.2 codes, one per length |
| Canonical.CanonicalCodes | SteganAssist/Jpeg.cpp:171-178 | with fitting lengths, inserting in ascending length order gives exactly the codes of Annex C, each holding its value, and no other code ends |
| Canonical.NextInsertion | SteganAssist/Jpeg.cpp:40-43 | with the earlier codes in the tree, the next insertion places its value at the next Annex C code |
| Canonical.OverfullDrops | SteganAssist/Jpeg.cpp:40-43 | when the next Annex C code does not fit in its length, `AddElement` fails and the value is silently dropped |
| Canonical.FreeIffAbove | SteganAssist/Jpeg.cpp:11-34 | in a tree holding the codes so far, a long enough path passes no code end exactly when its number is at least the next code |
| Canonical.PrefixFree | SteganAssist/Jpeg.cpp:171-178 | no code of a fitting table is a prefix of another |
| Canonical.CodesGrow | SteganAssist/Jpeg.cpp:171-178 | a later code is at least one past an earlier one, shifted to its length |
| Canonical.CodeRecurrence | SteganAssist/Jpeg.cpp:171-178 | each code is the previous one plus one, shifted left by the growth in length |
| Canonical.ScaffoldCodes | SteganAssist/Jpeg.h:999-1006 | the scaffold's lengths give the codes 0, 100, 101, 1100, 1101, 1110, 11110 |
| Canonical.ScaffoldTree | SteganAssist/Jpeg.h:999-1016 | after the scaffold's insertions, the walk 1, 1, 1, 0 passes three inner nodes and ends on a code end holding 31 |
| Zigzag.ZigzagLength | SteganAssist/Jpeg.cpp:426-444 | the generator appends exactly n² cells |
| Zigzag.ZigzagRanks | SteganAssist/Jpeg.cpp:426-444 | every cell listed is in the n×n grid and sits at its rank |
| Zigzag.ZigzagDistinct | SteganAssist/Jpeg.cpp:426-444 | no cell is listed twice |
| Zigzag.ZigzagCovers | SteganAssist/Jpeg.cpp:426-444 | every cell of the grid is listed |
| Zigzag.ZigzagAntiDiagonals | SteganAssist/Jpeg.cpp:426-444 | row plus column never decreases along the order |
| Zigzag.ZigzagEnds | SteganAssist/Jpeg.cpp:426-444 | the order starts (0,0), (0,1), (1,0), (2,0) and ends at (n-1, n-1) |
| Zigzag.ZigzagFirst | SteganAssist/Jpeg.cpp:426-444 | the first cell is (0, 0) |
| Zigzag.ZigzagLast | SteganAssist/Jpeg.cpp:426-444 | the last of the n² cells is (n-1, n-1) |
| Zigzag.ZigzagSecondToFourth | SteganAssist/Jpeg.cpp:426-444 | cells 1 to 3 are (0,1), (1,0), (2,0) |
| Segments.CommentBytes | SteganAssist/Jpeg.cpp:403-415 | COM reads the `Lc - 2` bytes after the length field, or none when `Lc <= 2` |
| Segments.ComponentAt | SteganAssist/Jpeg.cpp:117-131 | frame component `k` is built from bytes `3k .. 3k + 2` |
| Segments.StartOfFrameBytes | SteganAssist/Jpeg.cpp:96-132 | SOF0 reads `Nf` components, `Nf` being the byte 7 bytes in, and component `k` from bytes `8 + 3k .. 10 + 3k` |
| Segments.Largest | SteganAssist/Jpeg.cpp:114-130 | `std::max` folded from 0 bounds every element, and is 0 or one of them |
| Segments.HuffmanTableBytes | SteganAssist/Jpeg.cpp:146-161 | `Tc` and `Th` are the high and low nibble of the byte after the length, and the 16 counts follow it |
| Segments.HuffmanValuesBytes | SteganAssist/Jpeg.cpp:163-167 | exactly as many values as the counts add up to are read after the counts |
| Segments.FloorSqrt | SteganAssist/Jpeg.cpp:192 | the integer square root: `r² <= x < (r + 1)²` |
| Segments.EntryCountIsLoopCount | SteganAssist/Jpeg.cpp:198 | iteration `t` of `for (i = 3; i < Lq; i += 1 + Pq)` runs exactly when `3 + t(1 + Pq) < Lq` |
| Segments.EntriesAgree | SteganAssist/Jpeg.cpp:198-211 | entry `t` is byte `t`, or with `Pq != 0` the big-endian pair at `2t` |
| Segments.Put | SteganAssist/Jpeg.cpp:203 | a store succeeds exactly when both indices are in range, and keeps the matrix's shape |
| Segments.Resize | SteganAssist/Jpeg.cpp:194 | `resize(n)`: rows past `n` go, missing rows are `n` zeros, existing rows keep their length |
| Segments.FillTableOk | SteganAssist/Jpeg.cpp:198-211 | the stores succeed exactly when every entry has a cell in the whole list and that cell is in the table |
| Segments.FillTableStores | SteganAssist/Jpeg.cpp:198-211 | with distinct cells, entry `t` ends up at cell `zigzag[t]` and unlisted cells keep their value |
| Segments.QuantizationBytes | SteganAssist/Jpeg.cpp:181-212 | `Lq` is big-endian, `Pq` and `Tq` are the nibbles of the next byte, and with `Pq == 0` the entries are the `Lq - 3` bytes after the header |
| Segments.ScanComponentAt | SteganAssist/Jpeg.cpp:233-239 | scan component `k` is the pair of bytes `2k`, `2k + 1` |
| Segments.ScanHeaderBytes | SteganAssist/Jpeg.cpp:221-243 | `Ns` components from byte 3 on, then `Ss`, `Se`; `Ah` is the high nibble of `A` and `Al` the whole byte `A` |
| Scan.DecodeF | SteganAssist/Jpeg.cpp:289-292 | a walk that finds a code has read at least one bit; one that meets the end has set the end flag |
| Scan.DecodeWalks | SteganAssist/Jpeg.cpp:289-292 | a decoded value is the label of a code end reached by exactly the bits read |
| Scan.DecodeFindsACode | SteganAssist/Jpeg.cpp:289-292 | with an Annex C tree, every decoded value is the value of the code the bits read spell |
| Scan.DecodeReadsCode | SteganAssist/Jpeg.cpp:289-292 | conversely, when the next bits spell code `i` of an Annex C tree, the walk finds value `i` and stops right after the code |
| Scan.InnerPrefix | SteganAssist/Jpeg.cpp:289-292 | a proper prefix of an Annex C code is an inner node, so the walk passes it |
| Scan.ExtendRange | SteganAssist/Jpeg.cpp:297-317 | `s` magnitude bits starting with 1 give `2^(s-1) .. 2^s - 1`; starting with 0 they give `-(2^s - 1) .. -2^(s-1)` |
| Scan.ExtendExamples | SteganAssist/Jpeg.cpp:297-317 | bits 011 give -4 and 101 give 5 |
| Scan.DcF | SteganAssist/Jpeg.cpp:285-322 | the DC loop only moves the stream forward |
| Scan.DcKeeps | SteganAssist/Jpeg.cpp:285-322 | the DC loop writes at most the first zig-zag cell, keeps the shape, and leaves the counter at most 1 |
| Scan.PutStores | SteganAssist/Jpeg.cpp:316-317 | a store into a cell inside the matrix succeeds, sets that cell and keeps the shape and every other cell |
| Scan.DcOutcome | SteganAssist/Jpeg.cpp:289-321 | category 0 stores nothing and still moves the counter to 1; a category `s > 0` stores EXTEND of the next `s` bits of the buffer at the first zig-zag cell, keeps every other cell, sets the counter to 1 and leaves the stream just past those bits; a missing cell, an invalid code and an early end of stream each have their outcome |
| Scan.AcF | SteganAssist/Jpeg.cpp:323-379 | the AC loop only moves the stream forward |
| Scan.AcAfter | SteganAssist/Jpeg.cpp:331-378 | what a decoded `RS` does only moves the stream forward |
| Scan.AcSymbols | SteganAssist/Jpeg.cpp:335-346 | `RS = 0x00` ends the block; `0xF0` moves the counter by 15, not 16, and stores nothing |
| Scan.AcKeeps | SteganAssist/Jpeg.cpp:323-379 | the AC loop keeps the shape, never moves the counter back, and writes only cells the list holds at or after the counter |
| Scan.AcOutcome | SteganAssist/Jpeg.cpp:335-377 | `RS = 0` ends the block; for `RS != 0` the counter moves on by `R`; once it reaches the list length the block ends; with `S = 0` the walk restarts there; otherwise EXTEND of the next `S` bits of the buffer is stored at that zig-zag cell, every other cell kept, and the block ends when that was the last cell or the walk restarts one cell on |
| Scan.BlockShape | SteganAssist/Jpeg.cpp:278-383 | a block is `dim`×`dim` like quantization table 0, and cells not in the zig-zag list stay 0 |
| Scan.BlockIgnoresTa | SteganAssist/Jpeg.cpp:281-324 | both the DC and AC trees come from the high nibble `Td`; `Ta` is never looked at |
| Scan.BlocksF | SteganAssist/Jpeg.cpp:278-383 | a round appends exactly six matrices |
| Scan.SkipCheck | SteganAssist/Jpeg.cpp:250-263 | the stuffed-zero check keeps the end flag and does not move the cursor back unless the stream ended |
| Scan.PeekKeeps | SteganAssist/Jpeg.cpp:264-277 | two bytes read and put back leave the cursor where it was, unless the stream ended |
| Scan.RoundsF | SteganAssist/Jpeg.cpp:246-384 | the rounds append a multiple of six matrices, at most six per remaining round |
| Scan.RoundBytes | SteganAssist/Jpeg.cpp:248-384 | by the bytes at the cursor: with `skip_zero` set, `00 00` is consumed and the round decodes nothing; `FF D9` is consumed and ends the scan with the matrices so far; otherwise, with two bytes left, the six blocks are decoded from the cursor itself and `FF 00` sets `skip_zero` |
| Scan.PostPassSums | SteganAssist/Jpeg.cpp:385-388 | the corners of matrices 2 to 5 become running sums from matrix 2, and nothing else changes |
| Scan.PostPassFails | SteganAssist/Jpeg.cpp:385-388 | the post-pass fails exactly when fewer than six matrices exist or one of matrices 2 to 5 has no corner |
| Scan.ScanCount | SteganAssist/Jpeg.cpp:246-388 | a scan that decodes yields a multiple of six matrices, between 6 and 36 |
| Scan.ScanF | SteganAssist/Jpeg.cpp:219-391 | the scan keeps the end flag and does not move the cursor back unless the stream ended |
| Parser.Initial | SteganAssist/Jpeg.h:921-926 | the decoder before the loop is valid for every buffer: 16 empty quantization tables |
| Parser.CommentStep | SteganAssist/Jpeg.cpp:403-415 | COM only moves the stream forward |
| Parser.CommentRecorded | SteganAssist/Jpeg.cpp:403-415 | COM appends exactly the `Lc - 2` bytes after the length, or none, and changes nothing else |
| Parser.FrameStep | SteganAssist/Jpeg.cpp:96-132 | SOF0 only moves the stream forward |
| Parser.FrameRecorded | SteganAssist/Jpeg.cpp:96-132 | SOF0 appends `Nf` components read from their bytes, keeps the earlier ones, and changes no table and no comment |
| Parser.FrameMaxima | SteganAssist/Jpeg.cpp:114-130 | the thinning maxima bound this frame's components only, and are 0 or one of their factors |
| Parser.ThinningMaxima | SteganAssist/Jpeg.cpp:129-130 | the folded maxima bound every factor and are attained |
| Parser.Slots | SteganAssist/Jpeg.cpp:168 | `resize(2)` gives two slots, keeping existing ones and making missing ones null |
| Parser.InstallSlots | SteganAssist/Jpeg.cpp:168-169 | installing a tree fills slot `Tc` of table `Th`, keeps its other slot (null for a new table) and every other table |
| Parser.HuffmanStep | SteganAssist/Jpeg.cpp:144-179 | DHT only moves the stream forward |
| Parser.HuffmanTableSlots | SteganAssist/Jpeg.cpp:144-179 | DHT fails exactly when `Tc` is past AC; otherwise it installs the tree of its table in `_huffman_trees[Th][Tc]` and changes nothing else |
| Parser.HuffmanTableCodes | SteganAssist/Jpeg.cpp:144-179 | the installed tree holds the Annex C codes of the table's values when the lengths fit |
| Parser.QuantizationStore | SteganAssist/Jpeg.cpp:194-211 | the stores keep 16 tables and the stream |
| Parser.QuantizationStep | SteganAssist/Jpeg.cpp:181-212 | DQT only moves the stream forward |
| Parser.QuantizationOutcome | SteganAssist/Jpeg.cpp:181-212 | DQT fails exactly when `Lq < 3`, and otherwise is the stores of `EntryCount(Lq, Pq)` entries into table `Tq` of size `⌊√(Lq - 3)⌋` |
| Parser.StoreErrors | SteganAssist/Jpeg.cpp:194-211 | the stores fail exactly when an entry has no cell in the whole list or its cell is outside the table; they append n² cells and keep the earlier ones, and change only table `Tq` |
| Parser.SqrtOfSquare | SteganAssist/Jpeg.cpp:192 | `⌊√(n²)⌋ = n` |
| Parser.FirstQuantizationTable | SteganAssist/Jpeg.cpp:181-212 | a first DQT of one-byte entries with `Lq = 3 + n²` fills an n×n table in zig-zag order from the bytes after the header |
| Parser.OneByteEntries | SteganAssist/Jpeg.cpp:198-211 | with one-byte entries and `Lq = 3 + n²`, DQT stores the n² bytes after the header |
| Parser.StoreFirstTable | SteganAssist/Jpeg.cpp:194-211 | into an empty list, an n×n table gets at cell (row, col) the entry at that cell's place in the zig-zag order |
| Parser.FilledInOrder | SteganAssist/Jpeg.cpp:198-211 | entries stored along the order of size n into an empty table each land at their rank |
| Parser.OrderFitsTable | SteganAssist/Jpeg.cpp:194-196 | the order of size n lists distinct cells of a table resized to n |
| Parser.SmallerTableAfterLargerFails | SteganAssist/Jpeg.cpp:196-203 | the list is never cleared: a 2×2 DQT after an 8×8 one stores its fourth entry at (2, 0) and fails |
| Parser.ScanStep | SteganAssist/Jpeg.cpp:219-391 | SOS keeps the end flag and does not move the cursor back unless the stream ended |
| Parser.SegmentF | SteganAssist/Jpeg.h:938-994 | every case that succeeds keeps the decoder valid and the end flag set |
| Parser.ParseF | SteganAssist/Jpeg.h:928-995 | the loop only ends successfully with the stream ended |
| Parser.EmptyInputParses | SteganAssist/Jpeg.h:928-929 | an empty file gives the initial decoder with the stream ended |
| Parser.StopsAtTheEnd | SteganAssist/Jpeg.h:929 | the loop stops, returning the decoder as it is, exactly when the prefix read finds the stream ended |
| Parser.PrefixRequired | SteganAssist/Jpeg.h:929-934 | a byte other than `0xFF` where a marker prefix belongs is the error `MissingMarkerPrefix` |
| Parser.StartAndEndAreSkipped | SteganAssist/Jpeg.h:938-990 | SOI and EOI do nothing, and EOI does not end the loop |
| Parser.UnhandledMarkersFail | SteganAssist/Jpeg.h:946-993 | SOF1, SOF2, DRI, RST0-7 and APP0-7 fail with their stub; every unlisted marker (DAC, DNL, SOF3, JPGn among them) fails naming 217, EOI's code |
| Parser.TrailingPrefixFails | SteganAssist/Jpeg.h:929-993 | a `0xFF` as the last byte is followed by the 0 of a read past the end, an unlisted marker |
| Image.ResizeSlots | SteganAssist/Jpeg.cpp:168 | `resize(2)` on the pointers: two slots, missing ones null |
| Image.QuantizationShort | SteganAssist/Jpeg.cpp:192 | a DQT length below 3 is the error `BadTableLength` |
| Image.QuantizationStored | SteganAssist/Jpeg.cpp:181-212 | with `Lq >= 3`, DQT stores the entries into table `Tq` resized to `⌊√(Lq - 3)⌋`, along the list with the new order appended |
| Image.Jpeg.constructor | SteganAssist/Jpeg.h:921-926 | the stream holds the file's bytes and the fields are those of `Initial` |
| Image.Jpeg.ReadLength | SteganAssist/Jpeg.cpp:99-100 | two byte reads assembled big-endian |
| Image.Jpeg.ReadLengthAndFlags | SteganAssist/Jpeg.cpp:146-151 | the length, then one more byte |
| Image.Jpeg.ProcessComment | SteganAssist/Jpeg.cpp:403-415 | the fields and the stream become `CommentStep` of the old ones |
| Image.Jpeg.ReadFrameHeader | SteganAssist/Jpeg.cpp:98-112 | eight byte reads; `Nf` is the last |
| Image.Jpeg.ProcessStartOfFrame | SteganAssist/Jpeg.cpp:96-132 | the fields and the stream become `FrameStep` of the old ones |
| Image.Jpeg.AddFrames | SteganAssist/Jpeg.cpp:127-130 | the components are appended to `_frames` and the maxima set; nothing else changes |
| Image.Jpeg.ReadComponents | SteganAssist/Jpeg.cpp:117-131 | `Nf` components from `3 Nf` bytes, and their thinning maxima from 0 |
| Image.Jpeg.ReadHuffmanSpec | SteganAssist/Jpeg.cpp:146-167 | the reads agree with `HuffmanTableF` |
| Image.Jpeg.BuildTree | SteganAssist/Jpeg.cpp:169-178 | a fresh tree holding the values inserted at their Figure C.1 lengths, in order |
| Image.Jpeg.AddLengthRun | SteganAssist/Jpeg.cpp:173-177 | `n` more insertions at one length extend the tree by that run |
| Image.Jpeg.StoreTree | SteganAssist/Jpeg.cpp:168-169 | the tree goes to `_huffman_trees[Th][Tc]` as `Install` says |
| Image.Jpeg.ReadHuffmanTable | SteganAssist/Jpeg.cpp:146-178 | the reads agree with `HuffmanTableF`, and the new tree holds `TreeOfSpec` of what was read |
| Image.Jpeg.ProcessHuffmanTable | SteganAssist/Jpeg.cpp:144-179 | the outcome, the fields and the stream are those of `HuffmanStep` |
| Image.Jpeg.CalculateZigzag | SteganAssist/Jpeg.cpp:422-445 | the list becomes the old list followed by `ZigzagOrder(n)` |
| Image.Jpeg.PushDiagonal | SteganAssist/Jpeg.cpp:428-443 | one anti-diagonal's cells are appended in the generator's direction |
| Image.Jpeg.ReadEntries | SteganAssist/Jpeg.cpp:198-211 | the stores of the entries read agree with `FillTable` along the list |
| Image.Jpeg.ReadEntry | SteganAssist/Jpeg.cpp:201-210 | one byte, or with `Pq != 0` two bytes big-endian |
| Image.Jpeg.StoreTable | SteganAssist/Jpeg.cpp:194-211 | only table `Tq` is replaced |
| Image.Jpeg.ProcessQuantizationTable | SteganAssist/Jpeg.cpp:181-212 | the outcome, the fields and the stream are those of `QuantizationStep` |
| Image.Jpeg.StoreQuantization | SteganAssist/Jpeg.cpp:192-211 | the list gains the order of size `⌊√(Lq - 3)⌋`; table `Tq` is replaced by the stores exactly when they succeed |
| Image.Jpeg.ReadTwo | SteganAssist/Jpeg.cpp:264-265 | two byte reads |
| Image.Jpeg.ReadScanHeader | SteganAssist/Jpeg.cpp:221-243 | the reads agree with `ScanHeaderF` |
| Image.Jpeg.ReadScanComponents | SteganAssist/Jpeg.cpp:233-239 | `Ns` pairs from `2 Ns` bytes |
| Image.Jpeg.ReadScanTail | SteganAssist/Jpeg.cpp:241-242 | `Ss`, `Se` and `A` |
| Image.Jpeg.ReadMagnitude | SteganAssist/Jpeg.cpp:297-317 | `s` bit reads whose value is `Extend` of the bits (the AC loop's copy at lines 350-370 is the same) |
| Image.Jpeg.TreeAt | SteganAssist/Jpeg.cpp:281-324 | a tree exactly when the table of that id and class was defined, holding that table |
| Image.Jpeg.DecodeValue | SteganAssist/Jpeg.cpp:289-292 | the walk agrees with `DecodeF` from the root (the AC loop walks the same way, lines 327-331) |
| Image.Jpeg.DecodeDc | SteganAssist/Jpeg.cpp:281-322 | the block so far and the stream agree with `DcF` |
| Image.Jpeg.AcCode | SteganAssist/Jpeg.cpp:331-378 | what one decoded `RS` does agrees with `AcAfter` |
| Image.Jpeg.DecodeAc | SteganAssist/Jpeg.cpp:323-379 | the block and the stream agree with `AcF` |
| Image.Jpeg.DecodeBlock | SteganAssist/Jpeg.cpp:278-383 | the block and the stream agree with `BlockF` |
| Image.Jpeg.DecodeRound | SteganAssist/Jpeg.cpp:278-383 | the six blocks and the stream agree with `BlocksF` |
| Image.Jpeg.SkipZeros | SteganAssist/Jpeg.cpp:250-263 | the result and the stream agree with `SkipCheck` |
| Image.Jpeg.PeekEnd | SteganAssist/Jpeg.cpp:264-277 | two bytes read, and put back unless they are `FF D9` |
| Image.Jpeg.DecodeRoundOf | SteganAssist/Jpeg.cpp:248-384 | one round agrees with one step of `RoundsF` |
| Image.Jpeg.DecodeRounds | SteganAssist/Jpeg.cpp:246-384 | the rounds agree with `RoundsF` from six rounds |
| Image.AddCorners | SteganAssist/Jpeg.cpp:385-388 | the loop agrees with `PostPass` |
| Image.Jpeg.ProcessStartOfScan | SteganAssist/Jpeg.cpp:219-391 | the outcome and the stream are those of `ScanStep` |
| Image.Jpeg.ProcessExtendedSequentialDct | SteganAssist/Jpeg.cpp:134-137 | always fails, not implemented |
| Image.Jpeg.ProcessProgressiveDct | SteganAssist/Jpeg.cpp:139-142 | always fails, not implemented |
| Image.Jpeg.ProcessArithmeticTable | SteganAssist/Jpeg.cpp:214-217 | always fails, not implemented |
| Image.Jpeg.ProcessRestartInterval | SteganAssist/Jpeg.cpp:393-396 | always fails, not implemented |
| Image.Jpeg.ProcessApplicationSpecific | SteganAssist/Jpeg.cpp:398-401 | always fails, not implemented |
| Image.Jpeg.ProcessNumberOfLines | SteganAssist/Jpeg.cpp:417-420 | always fails, not implemented |
| Image.Jpeg.CheckForImageCorrectness | SteganAssist/Jpeg.cpp:77-94 | always fails before its checks, which are comments |
| Image.Jpeg.ProcessSegment | SteganAssist/Jpeg.h:938-994 | the outcome, the fields and the stream are those of `SegmentF` for the marker |
| Image.Jpeg.ParseSegments | SteganAssist/Jpeg.h:928-995 | the outcome, the fields and the stream are those of `ParseF` |
| Image.Load | SteganAssist/Jpeg.h:921-995 | the decoder built from the file's bytes ends as `Parse` of those bytes says |

## Left out

- File I/O: `ImageFileBuffer` is not part of this model. `Image.Load` and the `Jpeg` constructor take the file's bytes instead of a path.
- BitStream.h, Bmp.h and ImageFileBuffer.h/.cpp are not part of this model.
- The fields of `InputBitStream` come from BitStream.h. `operator bool` is the predicate `Good`, which has no contract of its own.
- Exceptions: every `throw` becomes an error `Outcome`/`Result`. So do the accesses that are undefined behaviour in C++: a null tree, a vector index past its end, the square root of a negative length. The state after an error is not specified, because in the source the constructor throws and the object is gone.
- Integer widths: lengths, entries and coefficients are unbounded integers, and `byte` values are kept in 0..255.
- Image.Jpeg.ReadMagnitude: a DC category is a whole byte. From 31 bits on, `real_value *= 2` and `1 << bits_to_read` overflow `int` in the source. The model computes the unbounded value instead of that undefined behaviour.
- `(int)sqrt(size_of_table - 3)` is the integer `FloorSqrt`; floating point is not modelled.
- The DHT tree is built before the `Tc` check. A `Tc` past the two slots, which the source writes outside the vector, makes the handler fail instead.
- DQT stores into a local copy of table `Tq`, written back when all stores succeed; the source stores in place. The two differ only after an error.
- A `std::map::operator[]` lookup of a missing Huffman table id inserts an empty entry in the source. The model reports `UndefinedTable` instead of adding the entry.
- SOF0 reads but drops `Lf`, `P`, `Y` and `X`, as the source does. The thinning maxima start at 0 in the model; in the source they are indeterminate until the first SOF0.
- `_comment` is a `std::string`. The model keeps its characters as bytes.
- The scan's decoded matrices are local to `process_start_of_scan` and dropped. `Scan.ScanF` returns them, `Parser.ScanStep` drops them.
- The post-pass over matrices 2..5 is not given a precondition. Fewer than six matrices is an error result instead.
- The debug counter `number` of the AC loop is dead state and is dropped.
- The `BytesBack(1)` before the restart and application stubs has no visible effect, because the stub throws next. `Parser.SegmentF` does not show it; `Image.Jpeg.ProcessSegment` performs it.
- `process_arithmetic_table`, `process_number_of_lines` and `check_for_image_correctness` are modelled as stubs. The dispatch loop never calls them, as in the source.
- Heap allocation, ownership and leaks of `new Node`, `new HuffmanTree` and `new HuffmanTreeIterator` are not modelled. The pointer tree is an arena of nodes with child indices.
- The iterator `Step` onto a missing child throws in the source; here it is `InvalidHuffmanCode`. `IsCodeEnd` and `GetValue` on a null node are not reachable, because `Step` fails first.
- BitStream.InputBitStream.BitsBack: requires `n >= 0`. A negative count, which no caller passes, is not modelled.
- BitStream.InputBitStream.BytesBack: requires `n >= 0` and an index of at least -1, as every caller meets.
- The `Jpeg` constructor is split: the constructor initialises the fields, and `ParseSegments` runs the loop. Several handler bodies are split into helper methods, for example `ReadHuffmanSpec` and `BuildTree`. Each helper is proved against its part of the handler's function.
- The commented-out scaffold at Jpeg.h:999-1016 calls a `NextState` that does not exist. It is modelled as the lemmas `Canonical.ScaffoldCodes` and `Canonical.ScaffoldTree` on the insertion function.

## Findings

| source | as written | input that shows it | evidently intended | confidence | as-written member | corrected member |
|---|---|---|---|---|---|---|
| SteganAssist/BitStream.cpp:60-71 | `BitsBack` subtracts `n % 8` from `_bit_number`, but reads lower the bit number, so this moves further on | a cursor at (0, 7) reads one bit to reach (0, 6); `BitsBack(1)` then gives (0, 5) instead of (0, 7) | move back `n` bit positions by adding `n % 8` to the bit number, wrapping into the previous byte | not executed | BitStream.BitsBackDoesNotUndoARead | BitStream.RewindBitsUndoes |

No code in the decoder calls `BitsBack`. So `BitStream.InputBitStream.BitsBack` keeps the as-written behaviour, and the corrected `BitStream.RewindBits` is proved to undo `n` bit reads.
