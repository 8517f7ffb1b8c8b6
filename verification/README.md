# Verified models of the image decoders and the resizer in external/stb

The project models, in Dafny, the algorithmic core of the two image libraries that this repository vendors in
`external/stb`, and proves that the optimised, stateful code computes what its standards define.

* **Inflate** (`stb_image.h`): canonical Huffman tables with a fast path (`Reversal`, `Canonical`,
  `ZHuffmanTables`), the bit reader, block parser and growing output (`InflateDecoder`, a class over byte arrays),
  a reference decoder on the zero-extended bit stream (`Deflate`), and the DEFLATE format of RFC 1951 with no
  decoder in sight (`DeflateTables`, `DeflateFormat`, `DeflateBits`, `DeflateFits`). The class equals the reference
  decoder on every input. `DeflateReach` says, from the layout of a stream alone, what the decoder has fetched at
  each point of it; with that the reference decoder is exact on every well-formed stream, whether or not it ends
  inside the input (`DeflateSymbols`, `DeflateElements`, `DeflateStreams`, `DeflateEncoding`), and sound, with a
  bound on how far past its input an accepted stream can end that is attained (`DeflateOverrun`,
  `DeflateTruncated`).
* **PNG reconstruction**: filters (`PngFilter`), sub-byte samples and in-place alpha (`PngSamples`), rows and
  images (`PngImage`), Adam7 (`PngInterlace`), and round trips from pictures to data and back (`PngRoundTrip`).
* **GIF raster data**: LZW words and code widths (`GifLzw`), the interlaced cursor (`GifCanvas`), and the
  linked-prefix dictionary with its recursive emitter (`GifRaster`, a class over the code table and the canvas).
* **JPEG entropy decoding**: the bytes of a scan and the bit buffer (`JpegBits`), the tables (`JpegHuffman`), and
  decoding with its fast AC table (`JpegFastAc`).
* **Resizer bookkeeping** (`stb_image_resize2.h`): rational scale (`ResizeRational`), split ranges
  (`ResizeSplits`), weight windows (`ResizeWindows`), edge folding (`ResizeFold`), the gather-to-scatter pivot
  (`ResizePivot`), the scanline ring (`ResizeRing`), and splits on the ring (`ResizeThreads`).

`Bits` and `Chunks` hold the shared arithmetic and sequence lemmas. Weights and samples of the resizer are exact
real numbers; everything else is exact integers, with the source's widths written out where they matter.
`dafny verify dfyconfig.toml` checks the whole project.

Parameters stand for what the model does not contain: an allocator budget for `malloc` and `realloc` (a block is
granted exactly if it is at most that large), what stands in memory after the contributors of the last row (any
value), the decoded scanline and the horizontal pass as functions, the global colours,
transparent index and canvas of a GIF as values.

Where code and comments disagree the model follows the code:

* The comment at `stb_image.h:4327-4330` says that running past the end of the input is always noticed at the end
  of a block. Only the 16 bits that `stbi__zhuffman_decode` counts without fetching them are noticed; the zero bytes
  that `stbi__fill_bits` fetches past the end, for `stbi__zreceive` and for `stbi__zhuffman_decode` alike, are not.
  A stream is accepted if and only if each compressed block ends within what was fetched, padding not counted, and
  each stored block inside the input (`DeflateEncoding.InflateExact`). So truncated streams are accepted that end up
  to 55 bits past the input and no more (`DeflateTruncated.TruncatedAccepted`, `DeflateOverrun.InflateSound`,
  `DeflateTruncated.OverrunAttained`).
* In `stbi__process_gif_raster` the test `code == avail` at line 6757 comes after `avail` has been incremented and
  never holds for a code that is accepted there; the entry just created gets its last byte from its own `first`.
* A JPEG table of 256 symbols is accepted, but symbol number 255 in the fast table means "not accelerated"
  (`JpegHuffman.ReservedSymbol`, `JpegHuffman.Tables.LookUp`).
* The pivot skips zero weights inside windows on purpose, but a skipped place can make later weights overwrite
  earlier ones (`ResizePivot.PivotTransposes`, `ResizePivot.ZeroInsideUnsafe`).
* The `bot == 0` break of `stbir__double_to_rational` is never taken in exact arithmetic
  (`ResizeRational.ExhaustedClose`).
* `stbir__double_to_rational` cuts its 64-bit estimate to 32 bits; what it returns is then wrong if and only if the
  numerator is 2^32 or more (`ResizeRational.CutExact`, `ResizeRational.WrapExample`).
* The last scan of `stbir__get_split_info` can look at the contributor after the last one
  (`ResizeSplits.GetSplitInfo`, `ResizeSplits.LooksPastExample`, `ResizeSplits.BeyondMatters`).
* The comment at `stb_image_resize2.h:6761-6775` says that each split starts on its lowest window. A row that is moved
  over from the next split can start lower (`ResizeSplits.MovedRowLower`). With windows that settle, the promise is kept
  for a scanned split if and only if its first row starts no later than its last (`ResizeSplits.SplitLowestExact`), or,
  when the next split is emptied, no later than the row before its first rise (`ResizeSplits.EmptiedNextHides`,
  `ResizeThreads.SplitAhead`). A window that starts and ends earlier can need a line that the ring has dropped
  (`ResizeThreads.EarlierEndFails`).
* A GIF with minimum code size 0 is accepted, though its end code does not fit its code width
  (`GifLzw.WidthExact`).

## Model

| member | source | states |
|---|---|---|
| `Reversal.Reverse16Correct` | external/stb/stb_image.h:4107-4114 | four mask-and-shift stages are reversal of 16 bits, for every number: `BitReverse16(n)` is the number whose i-th bit is bit 15-i of n |
| `Reversal.BitReverseCorrect` | external/stb/stb_image.h:4116-4122 | reversing 16 bits and shifting is reversal of the first `bits` bits |
| `Canonical.PrefixFree` | external/stb/stb_image.h:4138-4167 | no code of a length list that fits is a prefix of another: two symbols whose codes both start a bit string are the same symbol |
| `Canonical.DecodeIs` | external/stb/stb_image.h:4224-4241 | bit-by-bit canonical decoding finds symbol i exactly from its code: a matching symbol is the one decoded |
| `Canonical.DecodeNone` | external/stb/stb_image.h:4224-4241 | no code starts a bit string if and only if its longest prefix is at or above the upper bound of the last length |
| `Canonical.CodeStarts` | external/stb/stb_image.h:4138-4145 | the first symbol, by length and then by number, has the code 0 |
| `Canonical.CodeFollows` | external/stb/stb_image.h:4138-4167 | the next symbol has the next code, with zeros appended when it is longer: with `CodeStarts` this fixes every code of a length list |
| `Canonical.SlotInjective` | external/stb/stb_image.h:4151-4157 | no two symbols get the same place in the sorted symbol table |
| `Canonical.SlotBound` | external/stb/stb_image.h:4151-4157 | every place in the sorted symbol table is in range |
| `Canonical.FitsIffKraft` | external/stb/stb_image.h:4135-4145 | "every code of length l is below 2^l, for each l" is the same as the Kraft inequality on the lengths |
| `ZHuffmanTables.FastHitUnique` | external/stb/stb_image.h:4158-4164 | no two symbols claim the same fast-table entry |
| `ZHuffmanTables.ZHuffmanStore.Build` | external/stb/stb_image.h:4124-4169 | in place on the table arrays: accepts exactly the length lists that fit, and then the arrays hold the canonical codes of section 3.2.2 of RFC 1951 (first codes, preshifted upper bounds, sorted symbols, fast entries) |
| `ZHuffmanTables.ZHuffmanStore.AssignCodes` | external/stb/stb_image.h:4135-4150 | the pass over lengths: fails if and only if the lengths do not fit; else all per-length tables are right |
| `ZHuffmanTables.ZHuffmanStore.Spread` | external/stb/stb_image.h:4160-4163 | the stride loop fills exactly the entries whose low bits are the reversed code and changes no other |
| `ZHuffmanTables.BuildHuffman` | external/stb/stb_image.h:4124-4169 | success if and only if the Kraft sum of the lengths is at most 1 |
| `ZHuffmanTables.Tables.MaxcodeMonotone` | external/stb/stb_image.h:4139-4150 | `maxcode` never decreases with the length |
| `ZHuffmanTables.Tables.LookUp` | external/stb/stb_image.h:4263-4270 | fast and slow look-up together: -1 if and only if no code starts the buffer, else the canonical symbol and its length |
| `ZHuffmanTables.Tables.SlowLookUp` | external/stb/stb_image.h:4224-4241 | the slow path alone, on every buffer with an empty fast entry; the checks at 4236-4237 reject nothing |
| `ZHuffmanTables.Tables.SlowLength` | external/stb/stb_image.h:4230-4232 | the unbounded loop stops at the sentinel at the latest, at the first length whose bound is above the buffer |
| `ZHuffmanTables.Tables.CompareAt` | external/stb/stb_image.h:4230-4232 | comparing 16 bits with a preshifted bound is comparing the l-bit prefix with the upper code of length l |
| `InflateDecoder.ZBuf.FillBits` | external/stb/stb_image.h:4202-4212 | refilling keeps the reader invariant (the buffer is the next bits of the input, first bit lowest, then zeros, and below 2^num_bits; num_bits at most 32) and consumes nothing; the early return is not needed |
| `InflateDecoder.ZBuf.Zreceive` | external/stb/stb_image.h:4214-4222 | delivers the next n bits of the zero-extended input and moves on by n |
| `Bits.BitIs` | external/stb/stb_image.h:4202-4222 | the bits that are read: bit i of a stream is the one of weight 2^(i mod 8) in byte i / 8, and 0 past the end |
| `InflateDecoder.ZBuf.MakeReady` | external/stb/stb_image.h:4245-4262 | 16 bits are there, or the end was hit twice: exactly the reference cursor, with the one-time padding |
| `InflateDecoder.ZBuf.HuffmanDecode` | external/stb/stb_image.h:4243-4271 | decodes exactly the symbol whose canonical code the zero-extended input has at the cursor, or -1 |
| `InflateDecoder.ZBuf.Zexpand` | external/stb/stb_image.h:4273-4293 | succeeds exactly when the output and n more bytes are within what doubling can reach; keeps every earlier byte |
| `InflateDecoder.MaxOutIs` | external/stb/stb_image.h:4273-4293 | what doubling can reach: a doubling that the allocator grants, of which the next is refused or does not fit 32 bits; the size itself when the buffer is fixed |
| `InflateDecoder.CopyRun` | external/stb/stb_image.h:4349-4351 | the dist == 1 shortcut is the LZ77 copy with distance 1; in the buffer itself: every byte written equals the one before it, and the bytes before the copy stay |
| `InflateDecoder.CopyBack` | external/stb/stb_image.h:4352-4353 | the overlapping byte loop is the LZ77 copy; in the buffer itself: every byte written equals the one `dist` before it, which may itself be new, and the bytes before the copy stay |
| `DeflateTables.CopyIs` | external/stb/stb_image.h:4348-4353 | the LZ77 copy: what is there stays, and each new byte is the one `dist` before it |
| `InflateDecoder.LengthTables` | external/stb/stb_image.h:4295-4301 | the constant tables are those of section 3.2.5 of RFC 1951, value by value, and those values are the running sums of the extra bits |
| `InflateDecoder.DistTables` | external/stb/stb_image.h:4303-4307 | likewise for distances |
| `InflateDecoder.Dezigzag` | external/stb/stb_image.h:4361 | the order of code-length lengths is the list of section 3.2.7 of RFC 1951, and its closed form |
| `FixedCodes.LitCodes` | external/stb/stb_image.h:4452-4463 | the fixed literal codes are the four ranges of section 3.2.6 of RFC 1951 |
| `FixedCodes.DistCodes` | external/stb/stb_image.h:4464-4467 | the fixed distance codes are the numbers 0 to 31 |
| `InflateDecoder.ZBuf.ParseHuffmanBlock` | external/stb/stb_image.h:4309-4357 | a whole compressed block: same verdict, cursor and output as the reference expansion; each pass ends or makes the bounded output longer, so it terminates |
| `InflateDecoder.ZBuf.ReadOp` | external/stb/stb_image.h:4312-4342 | the next literal, match or end of block, or failure, as the reference reads it |
| `InflateDecoder.ZBuf.EmitOp` | external/stb/stb_image.h:4316-4354 | what one operation makes of the output, and failure exactly when it does not fit or reaches before the start |
| `InflateDecoder.ZBuf.ComputeHuffmanCodes` | external/stb/stb_image.h:4359-4407 | the head of a dynamic block: runs may cross from literal to distance lengths; both code tables or failure exactly as the reference |
| `InflateDecoder.ZBuf.ReadCodeLengths` | external/stb/stb_image.h:4379-4402 | the run-length loop gives exactly the lengths the runs stand for, or fails where a run has nothing to repeat or overshoots |
| `DeflateFormat.RunXBitsAre` | external/stb/stb_image.h:4387-4397 | the extra bits that the format gives a run, 2, 3 or 7, are those the decoder reads |
| `InflateDecoder.ZBuf.ParseUncompressedBlock` | external/stb/stb_image.h:4409-4436 | a stored block after any look-ahead: verdict, cursor and output of the reference |
| `InflateDecoder.ZBuf.DrainHeader` | external/stb/stb_image.h:4413-4425 | the four header bytes are those at the byte boundary, wherever they come from; at most three whole look-ahead bytes are drained |
| `InflateDecoder.ZBuf.ParseZlibHeader` | external/stb/stb_image.h:4438-4450 | the two-byte header of section 2.2 of RFC 1950 |
| `Deflate.ZlibHeaderIs` | external/stb/stb_image.h:4438-4450 | that header in bits: compression method 8, no preset dictionary, the two bytes a multiple of 31, and at least one byte after them |
| `InflateDecoder.ZBuf.ParseZlib` | external/stb/stb_image.h:4481-4508 | the decoder on every byte string: success and output are those of the reference decoder; terminates because a block header past the end is a stored block that fails |
| `InflateDecoder.ZlibDecodeMalloc` | external/stb/stb_image.h:4541-4555 | with a growing buffer: the reference result for the largest size doubling reaches within the allocator's budget |
| `InflateDecoder.ZlibDecodeBuffer` | external/stb/stb_image.h:4557-4566 | with a fixed buffer: the reference result for its length |
| `DeflateSymbols.SymbolAtIff` | external/stb/stb_image.h:4243-4271 | decoding finds symbol z at a position if and only if the bits of its code are there |
| `DeflateSymbols.SymbolExact` | external/stb/stb_image.h:4243-4271 | a code that is there is decoded if and only if enough bits can be fetched for it; what is fetched is the layout's |
| `DeflateElements.CodesExact` | external/stb/stb_image.h:4309-4357 | every element list that is written there, inside the input or beyond, is read back and expanded if and only if its end is within what is fetched, there is room and no distance reaches too far back; otherwise it is rejected |
| `DeflateElements.CodesSound` | external/stb/stb_image.h:4309-4357 | every successful run over a block is the reading of some element list |
| `DeflateStreams.RunsExact` | external/stb/stb_image.h:4379-4402 | every list of code-length runs that is there is read back as its lengths if and only if enough can be fetched for it |
| `DeflateStreams.RunsSound` | external/stb/stb_image.h:4379-4402 | every successful reading is that of some list of runs |
| `DeflateStreams.HeadExact` | external/stb/stb_image.h:4359-4407 | every well-formed dynamic head that is there is accepted, with its two length lists, if and only if enough can be fetched for it |
| `DeflateStreams.HeadSound` | external/stb/stb_image.h:4359-4407 | every accepted head is a well-formed one that is there |
| `DeflateStreams.StoredExact` | external/stb/stb_image.h:4409-4436 | every stored block that is there is copied if and only if it ends inside the input and there is room |
| `DeflateStreams.StoredSound` | external/stb/stb_image.h:4409-4436 | every accepted stored block is one that is there |
| `DeflateStreams.StreamExact` | external/stb/stb_image.h:4481-4508 | every well-formed sequence of stored, fixed and dynamic blocks that is there is accepted and expands to its LZ77 meaning, back-references across blocks included, if and only if the end of each block is reached; otherwise it is rejected |
| `DeflateReach.StreamInside` | external/stb/stb_image.h:4202-4262 | every well-formed stream that ends inside the input is reached to its end |
| `DeflateStreams.StreamSound` | external/stb/stb_image.h:4481-4508 | whatever is accepted is a well-formed sequence of blocks in the zero-extended input |
| `DeflateEncoding.InflateExact` | external/stb/stb_image.h:4481-4508 | the whole decoder on every well-formed stream of the zero-extended input: its meaning if and only if every block is reached to its end, it fits and no distance reaches before the start; otherwise rejection. What is reached is a function of the layout and the input length alone |
| `DeflateBits.NumBitsAt` | external/stb/stb_image.h:4214-4222 | how a stream is written: bit i of a number has weight 2^i |
| `DeflateBits.CodeBitsAt` | external/stb/stb_image.h:4243-4271 | and bit i of an n-bit code has weight 2^(n-1-i) |
| `DeflateEncoding.KnownStream` | external/stb/stb_image.h:4481-4508 | five given bytes (a fixed block with two literals and a match of length 3 at distance 2) decode to "ababa" |
| `DeflateEncoding.InflateComplete` | external/stb/stb_image.h:4481-4508 | every well-formed stream inside the input is accepted, with or without the zlib header, whatever follows |
| `DeflateOverrun.InflateSound` | external/stb/stb_image.h:4481-4508 | whatever is accepted is the meaning of some well-formed stream of the zero-extended input, which passes the test of InflateExact and ends at most 55 bits past the input |
| `DeflateEncoding.RoundTrip` | external/stb/stb_image.h:4481-4508 | writing any well-formed stream as bits packed into bytes and decoding it gives the bytes it stands for |
| `DeflateTruncated.OverrunAttained` | external/stb/stb_image.h:4202-4271 | the bound of 55 bits is attained: an accepted stream of two blocks whose last match and end-of-block code lie wholly in fetched zeros |
| `DeflateTruncated.PlainHeadOk` | external/stb/stb_image.h:4359-4407 | every two usable length lists of admissible sizes can be announced by a dynamic head |
| `DeflateTruncated.TruncatedAccepted` | external/stb/stb_image.h:4324-4332 | a stream cut off inside its end-of-block code that is accepted all the same: the comment at 4327-4330 promises more than the check does |
| `GifLzw.WordIsMeaning` | external/stb/stb_image.h:6744-6759 | the word of a code is the one its inductive meaning gives: a single byte, an entry, or the entry just being made |
| `GifLzw.WidthStep` | external/stb/stb_image.h:6763-6766 | the mask test for a wider code is "the table has just filled the width, and the width is below 12" |
| `GifLzw.MeaningFits` | external/stb/stb_image.h:6744-6766 | a width below 12 bits that fits has room for every code with a meaning |
| `GifLzw.WidthInvariant` | external/stb/stb_image.h:6763-6766 | over whole runs: whatever clear codes and words are sent, from any state that fits, the width has room for every code with a meaning, as long as it is below 12 bits, and is no larger than needed |
| `GifLzw.WidthExact` | external/stb/stb_image.h:6700-6766 | of the minimum code sizes that are accepted, this holds from the start of a raster for 1 to 12 and fails for 0 |
| `GifLzw.DecodeItems` | external/stb/stb_image.h:6718-6773 | any list of words and clear codes, written with growing widths and ended by an end code or by the data, is read back as its text |
| `GifLzw.DecodeSound` | external/stb/stb_image.h:6718-6773 | and the converse: whatever is accepted is the text of a well-formed item list that stands in the data |
| `GifLzw.RasterSound` | external/stb/stb_image.h:6691-6774 | the same for a raster in its sub-blocks |
| `GifLzw.SubBlockIs` | external/stb/stb_image.h:6720-6727 | a sub-block is its length and that many bytes; an empty one ends the data |
| `GifLzw.KnownRaster` | external/stb/stb_image.h:6691-6774 | a given raster, in which a code stands for the very word being sent and the code width grows, decodes to the seven indices it stands for |
| `GifLzw.RasterRoundTrip` | external/stb/stb_image.h:6691-6774 | round trip through code bits, bytes and sub-blocks, for every accepted minimum code size: raster data written for a text decodes to that text, ended by an end code, or by data too short for another code; with minimum code size 0 as far as its codes fit their widths |
| `GifLzw.PlainOk` | external/stb/stb_image.h:6718-6773 | every byte string over the alphabet can be written: its single-byte words are a well-formed item list with that text |
| `GifCanvas.OrderCovers` | external/stb/stb_image.h:6677-6688 | the drawing order, interlaced or not, has every pixel of the rectangle exactly once and no other |
| `GifCanvas.RowOrderIs` | external/stb/stb_image.h:6679-6687 | the four interlace passes of Appendix E of GIF89a give every row exactly once |
| `GifCanvas.RowOrderSorted` | external/stb/stb_image.h:6679-6687 | rows come from top to bottom, or by pass (rows 0 mod 8, 4 mod 8, 2 mod 4, odd rows) and inside each pass from top to bottom: with `RowOrderIs` this fixes the order |
| `GifCanvas.OrderAt` | external/stb/stb_image.h:6677-6688 | the pixels of a row come together, from left to right |
| `GifCanvas.AdvanceLeft` | external/stb/stb_image.h:6677-6688 | one step of the cursor takes the first pixel off what is left to draw |
| `GifCanvas.FirstLeft` | external/stb/stb_image.h:6855-6880 | where the cursor starts, all pixels of the order are left; a rectangle of width zero has none |
| `GifCanvas.DrawnInOrder` | external/stb/stb_image.h:6664-6689 | drawing any index string sets the k-th pixel of the order from the k-th index, leaves all other pixels alone, stays inside the rectangle and ignores what is too much; transparent colours leave the pixel as it was |
| `GifCanvas.PixelIs` | external/stb/stb_image.h:6664-6675 | where a pixel of the rectangle stands on the canvas |
| `GifRaster.Gif.OutGifCode` | external/stb/stb_image.h:6654-6689 | the recursive emitter terminates and draws exactly the word that the entry spells, in order |
| `GifRaster.Gif.DrawPixel` | external/stb/stb_image.h:6664-6688 | one pixel: colour, history and cursor as on the canvas specification, which `PaintedColours` says in the bytes of the file |
| `GifRaster.DictAdd` | external/stb/stb_image.h:6749-6757 | adding an entry keeps the dictionary invariant: prefixes are smaller than their entry and never a clear or end code, and `first` is the first byte of the word |
| `GifRaster.DictWord` | external/stb/stb_image.h:6749-6757 | a new entry means the old word plus the first byte of the current one, the entry just created included |
| `GifRaster.Gif.TakeCode` | external/stb/stb_image.h:6749-6768 | one data code: accepted exactly when it has a word and the table has room; draws the word, grows the table and the width |
| `GifRaster.Gif.ProcessRaster` | external/stb/stb_image.h:6691-6774 | the whole raster on every input: verdict and drawn pixels of the reference LZW decoder, and where reading stops |
| `GifRaster.ParseColorTable` | external/stb/stb_image.h:6597-6606 | in place: entry i takes the three bytes of the file at 3 * i as red, green and blue, and is opaque unless it is the transparent one; entries past the table stay |
| `GifRaster.ReadDescriptor` | external/stb/stb_image.h:6850-6884 | the image descriptor: position and size as 16-bit numbers, low byte first; own table, interlacing and 2 to 256 colours from the bits of its last byte |
| `GifRaster.PaintedColours` | external/stb/stb_image.h:6664-6676 | a drawn pixel has exactly the red, green and blue bytes that the file has for its index, and alpha 255; the transparent index keeps what was there; an index past the table takes the entry that was there before |
| `GifRaster.DrawImage` | external/stb/stb_image.h:6847-6891 | an image descriptor, its colours and its raster: rejected exactly if it leaves the canvas, has no colours or the raster is bad; index k shows at pixel k of the drawing order in the red, green and blue bytes of the file, opaque; the transparent index and all other pixels keep their canvas colour |
| `JpegHuffman.BuildHuffman` | external/stb/stb_image.h:2003-2046 | accepts exactly the size lists with at most 256 symbols that fit, and then the tables hold the codes of Annex C of ITU-T T.81 |
| `JpegHuffman.Store.Build` | external/stb/stb_image.h:2003-2046 | the same in place on the table arrays |
| `JpegHuffman.SortedSlot` | external/stb/stb_image.h:2016-2030 | sizes in ascending order make the symbol number its own place, so that delta plus code is the symbol |
| `JpegHuffman.CountOfSizes` | external/stb/stb_image.h:2007-2013 | the size list has count[l-1] symbols of size l |
| `JpegHuffman.Tables.LookUp` | external/stb/stb_image.h:2104-2145 | symbol and size are those of canonical decoding exactly when the buffer does not start with a fast code of symbol 255; otherwise ten bits are taken and the symbol is the one counted back from the first ten-bit code, or none |
| `JpegHuffman.Tables.ReservedSlow` | external/stb/stb_image.h:2123-2138 | a buffer with the reserved symbol leaves the slow path at ten bits |
| `JpegHuffman.ReservedSymbol` | external/stb/stb_image.h:2033-2044 | with 256 symbols and a last code of at most 9 bits there is a buffer on which the look-up is wrong: number 255 is the "not accelerated" flag |
| `JpegHuffman.ReservedExample` | external/stb/stb_image.h:2033-2044 | a concrete table of that kind that is accepted |
| `JpegBits.Reader.NextByte` | external/stb/stb_image.h:2078-2087 | the next data byte, through any number of fill bytes and the stuffed zero of section B.1.1.5 of ITU-T T.81, or the marker that ends the scan: a byte after 0xff that is neither 0 nor 0xff |
| `JpegBits.Reader.GrowBuffer` | external/stb/stb_image.h:2075-2091 | the refill puts the next data bytes of the scan below the valid bits, zeros after a marker, until more than 24 are valid or a marker is met; nothing is lost or read twice |
| `JpegBits.FilledOn` | external/stb/stb_image.h:2088-2089 | one more byte keeps the buffer well-formed: valid bits on top, zeros below |
| `JpegBits.StuffedRead` | external/stb/stb_image.h:2075-2091 | round trip through byte stuffing: for all data, written with a zero and any number of fill bytes after each 0xff, whatever stands before and after, data byte k of the scan is byte k; then comes what follows |
| `JpegBits.StuffedEnd` | external/stb/stb_image.h:2079-2087 | a marker after stuffed data ends it: its code is the marker found, the data before it is read in full, and only zeros come after it, whatever follows |
| `JpegBits.ScanNumberAt` | external/stb/stb_image.h:2088-2089 | in the number that the buffer takes up, byte i of the scan stands above the ones after it |
| `JpegFastAc.HuffDecode` | external/stb/stb_image.h:2097-2146 | on the refilled buffer: value, remaining buffer and bit count of decoding, the reserved symbol included, or -1 where there is no code or too few bits |
| `JpegFastAc.DecodedIs` | external/stb/stb_image.h:2104-2145 | on the numbers: a buffer whose first bits are the code of symbol i gives value i and shifts left by the size, or -1 if the code is longer than the valid bits |
| `JpegFastAc.DecodedNone` | external/stb/stb_image.h:2123-2131 | a buffer that starts with no code gives -1 and takes 16 bits |
| `JpegFastAc.DecodedReserved` | external/stb/stb_image.h:2123-2145 | a buffer that starts with the code of symbol 255 of the fast table takes ten bits and gives the value counted back from the first ten-bit code, or -1 |
| `JpegFastAc.ExtendReceive` | external/stb/stb_image.h:2153-2166 | on the refilled buffer: RECEIVE followed by EXTEND of section F.2.2.1 of ITU-T T.81, by rotation, masks and the bias table; nothing is taken if there are too few bits |
| `JpegFastAc.ExtendSent` | external/stb/stb_image.h:2150-2166 | EXTEND gives back every value from the bits that table F.1 of ITU-T T.81 sends for it |
| `JpegFastAc.BuildFastAc` | external/stb/stb_image.h:2050-2073 | the table loop gives every entry its value |
| `JpegFastAc.PlainIs` | external/stb/stb_image.h:2247-2258 | a symbol is 16 times a run plus a size, and that many bits after its code are the coefficient |
| `JpegFastAc.UnpackedIs` | external/stb/stb_image.h:2236-2245 | the layout of a table entry: the value above a byte of run and length |
| `JpegFastAc.FastAcAgrees` | external/stb/stb_image.h:2050-2073 | each non-zero entry gives the run, signed value and bit count of plain decoding followed by receive-extend, for every buffer |
| `JpegFastAc.FastAcComplete` | external/stb/stb_image.h:2050-2073 | no opportunity is missed: a short code with a coefficient has an entry if and only if its value fits a byte |
| `PngFilter.Paeth` | external/stb/stb_image.h:4657-4668 | the reformulated predictor equals that of section 9.4 of the PNG specification, on all integers |
| `PngFilter.PaethPredictorIs` | external/stb/stb_image.h:4657-4668 | that predictor in distances from a, b and c to a + b - c, ties going to a and then to b |
| `PngFilter.HeadIs` | external/stb/stb_image.h:4751-4785 | the first pixel of a row: each case is the filter with nothing to the left, and the first-row substitute is the filter with a zero row above |
| `PngFilter.TailIs` | external/stb/stb_image.h:4751-4785 | the other bytes, likewise |
| `PngFilter.ReconMeans` | external/stb/stb_image.h:4751-4785 | what each of the five filters makes of each byte, from the bytes to the left, above and above the left, average rounded down and all modulo 256 |
| `PngFilter.RowAt` | external/stb/stb_image.h:4737-4787 | where row j stands in the data, and that it is reconstructed below the row before |
| `PngFilter.UnfilterRow` | external/stb/stb_image.h:4751-4785 | the row loop in one half of the two-row buffer reconstructs the row from the other half |
| `PngFilter.ReconFiltered` | external/stb/stb_image.h:4751-4785 | reconstruction undoes filtering, for every filter type, row and prior row |
| `PngFilter.RowsEncoded` | external/stb/stb_image.h:4737-4787 | for every image and every choice of filter types per row, decoding the filtered rows gives the rows back |
| `PngSamples.UnpackRow` | external/stb/stb_image.h:4790-4817 | sample i is the scaled i-th bit group, most significant first, at depths 1, 2 and 4 |
| `PngSamples.SampleBits` | external/stb/stb_image.h:4790-4817 | sample i is the i-th group of `depth` bits of the row, most significant bit first, for all depths at once |
| `PngSamples.ScaleIs` | external/stb/stb_image.h:4670 | the scale of a greyscale sample of less than a byte takes the largest sample to 255, and any other is 1 |
| `PngSamples.OpaqueIs` | external/stb/stb_image.h:4818-4852 | added alpha is the largest sample of one or two bytes |
| `PngSamples.PackedRowSample` | external/stb/stb_image.h:4790-4852 | packing samples into bytes and taking sample i gives it back, at depths 1, 2, 4, 8 and 16 |
| `PngSamples.AlphaExpand1` | external/stb/stb_image.h:4675-4683 | one channel, backwards, also when source and destination are the same: no sample is lost |
| `PngSamples.AlphaExpand3` | external/stb/stb_image.h:4684-4692 | three channels, likewise |
| `PngImage.WriteRow` | external/stb/stb_image.h:4789-4852 | the pixels of a row, for every depth, channel count and added alpha |
| `PngImage.SizesFit` | external/stb/stb_image.h:4712-4720 | with the size checks, the 32-bit row and data sizes do not wrap |
| `PngImage.BppIs` | external/stb/stb_image.h:4707-4708 | bytes per pixel: a row of x pixels of whole bytes is x times as long, and channel c of pixel i lies in the bytes of pixel i |
| `PngImage.RoomyIs` | external/stb/stb_image.h:4712-4728 | those checks on the numbers: the image and two rows are granted, and no size comes to 2^31 |
| `PngImage.CreateImageRaw` | external/stb/stb_image.h:4696-4859 | succeeds exactly when the size checks pass, both blocks are granted, there is enough data and every filter type is known, and then has exactly the pixels of the rows the data stands for |
| `PngInterlace.TablesAre` | external/stb/stb_image.h:4874-4877 | the pass origin and spacing tables, value by value, against the division-free pass geometry |
| `PngInterlace.PassPattern` | external/stb/stb_image.h:4874-4877 | the 8 by 8 pattern of passes of section 8.2 of the PNG specification |
| `PngInterlace.Adam7Bijection` | external/stb/stb_image.h:4873-4900 | for all sizes, each pixel is column i and row j of exactly one pass, and that pass has that column and row exactly if the pixel is inside the image; every column and row that a pass has lies inside |
| `PngInterlace.PassSize` | external/stb/stb_image.h:4880-4881 | the pass width and height count exactly the columns and rows that fall inside the image |
| `PngInterlace.HasPixelsIs` | external/stb/stb_image.h:4882 | a pass is decoded exactly if some pixel of the image is in it |
| `PngInterlace.Deinterlace` | external/stb/stb_image.h:4873-4900 | the seven passes read consecutive slices and every pixel of the result is the one of its pass; fails exactly if some pass does |
| `PngInterlace.CreateImage` | external/stb/stb_image.h:4861-4904 | both ways, interlaced or not, with the size checks and allocations of the canvas and of every pass |
| `PngInterlace.ImageSample` | external/stb/stb_image.h:4789-4852 | channel c of the pixel at column i and row j: the sample of that place in its reconstructed row at full range, or opaque alpha after them |
| `PngInterlace.PlaceIs` | external/stb/stb_image.h:4889-4893 | pixels stand row by row |
| `PngInterlace.InterlacedRoomy` | external/stb/stb_image.h:4871-4884 | sizes and memory that allow an image allow it interlaced |
| `PngRoundTrip.ImageRoundTrip` | external/stb/stb_image.h:4696-4904 | for every picture, format, choice of filter types and both ways of interlacing: whatever the decoder shows for the written data is the picture, with scaled samples and opaque alpha |
| `PngRoundTrip.ImageAccepted` | external/stb/stb_image.h:4696-4904 | and that data is accepted, whatever follows it |
| `ResizeRational.Refine` | external/stb/stb_image_resize2.h:7583-7626 | loop invariant of the continued fraction (both linear relations and determinant plus or minus 1): an estimate returned is in lowest terms and within 2^-24; terminates, and never for lack of bits |
| `ResizeRational.StepBalanced` | external/stb/stb_image_resize2.h:7612-7625 | one step keeps the invariant and makes bot smaller |
| `ResizeRational.BalancedLowest` | external/stb/stb_image_resize2.h:7583-7626 | every estimate is in lowest terms |
| `ResizeRational.ErrorIs` | external/stb/stb_image_resize2.h:7594-7598 | close means: the numerator is within 2^-24 times the denominator of f times the denominator |
| `ResizeRational.BalancedBounds` | external/stb/stb_image_resize2.h:7583-7626 | estimates never exceed the starting values (or 1) |
| `ResizeRational.ExhaustedClose` | external/stb/stb_image_resize2.h:7608-7610 | when bot is 0 the estimate is already within the tolerance, so the break is never reached |
| `ResizeRational.CutExact` | external/stb/stb_image_resize2.h:7593-7604 | an estimate that is close stays so when its numerator is cut to 32 bits if and only if the numerator is below 2^32 |
| `ResizeRational.FoundIs` | external/stb/stb_image_resize2.h:7583-7626 | the early estimate, in 64 bits, is within 2^-24 of f, in lowest terms, below the limit, and no larger than the starting values |
| `ResizeRational.EstimateFits` | external/stb/stb_image_resize2.h:7571-7606 | it fits 32 bits if the numerator is limited, or if (f + 2^-24) times the limit is at most 2^32 |
| `ResizeRational.EstimateTooLarge` | external/stb/stb_image_resize2.h:7571-7606 | for f of 2^32 or more it never fits |
| `ResizeRational.WrapExample` | external/stb/stb_image_resize2.h:7593-7604 | the scale 2^32 with a denominator below 2: the numerator returned is 0 |
| `ResizeRational.DoubleToRational` | external/stb/stb_image_resize2.h:7571-7645 | returns the early estimate cut to 32 bits, within 2^-24 of f if and only if its numerator is below 2^32, or else one number is the limit, the other the nearest integer, and success means within 2^-24 |
| `ResizeSplits.GetMaxSplit` | external/stb/stb_image_resize2.h:6868-6881 | is ceil(height / splits) |
| `ResizeSplits.ScanStart` | external/stb/stb_image_resize2.h:6777-6802 | the scan finds the first of the windows that start lowest among those scanned, and where it stops looking |
| `ResizeSplits.SplitStartsLowest` | external/stb/stb_image_resize2.h:6761-6806 | the purpose of the scan: if windows that start early come within three margins and before any that starts later, no row from a scanned split's first on starts before it, up to one row past the split, or any number past a split of three margins |
| `ResizeSplits.SplitLowestExact` | external/stb/stb_image_resize2.h:6761-6806 | the promise of the comment is kept if and only if one comparison holds: with windows that settle, no row of a scanned split starts before its first exactly when its last row does not, unless the next split is emptied |
| `ResizeSplits.MovedRowsFall` | external/stb/stb_image_resize2.h:6761-6806 | why: the rows that the next scan moves over never rise, so the last of them starts lowest |
| `ResizeSplits.TurnLowest` | external/stb/stb_image_resize2.h:6761-6806 | windows that settle start lowest just before their first rise, in any range of rows |
| `ResizeSplits.MovedRowLower` | external/stb/stb_image_resize2.h:6761-6806 | seven rows in four splits, where the last row of a split starts before its first |
| `ResizeSplits.EmptiedNextHides` | external/stb/stb_image_resize2.h:6777-6806 | eight rows in three splits and a low value past the end, which empties the last split: there the last row does not decide |
| `ResizeSplits.GetSplitInfo` | external/stb/stb_image_resize2.h:6747-6815 | ranges are ordered, contiguous, start at 0 and end at the height, whatever the scans move and whatever stands after the contributors; input ranges are the whole input with its margins; in scatter mode none exceeds ceil(height / splits); a contributor past the last row is looked at if and only if there is more than one split, the last one is at most three margins long and none of its windows starts after its first |
| `ResizeSplits.LooksPastExample` | external/stb/stb_image_resize2.h:6747-6815 | two rows in two splits are enough for that |
| `ResizeSplits.BeyondMatters` | external/stb/stb_image_resize2.h:6777-6806 | if what stands there is lower than every start of the last split, that split is left without rows |
| `ResizeSplits.BoundaryCeil` | external/stb/stb_image_resize2.h:6747-6815 | the remaining height over the remaining splits keeps its ceiling, so no portion exceeds it |
| `ResizeSplits.BoundaryIs` | external/stb/stb_image_resize2.h:6747-6815 | the portions exactly: with q rows for each split and r over, the last r splits get q + 1 |
| `ResizeWindows.InsertedWeight` | external/stb/stb_image_resize2.h:3380-3420 | exactly when there is room the weight of the new pixel grows by the coefficient and no other changes; otherwise nothing changes |
| `ResizeWindows.InsertCoeff` | external/stb/stb_image_resize2.h:3380-3420 | in place on a coefficient group, leaving all others alone |
| `ResizeFold.FoldClamp` | external/stb/stb_image_resize2.h:3626-3684 | in place: the window of a contributor that meets the image comes to lie inside it, with the weights beyond each edge added to the edge pixel, and zeros after it |
| `ResizeFold.FoldedMeaning` | external/stb/stb_image_resize2.h:3626-3684 | for every row, the sum with folded weights over the row is the sum with the original weights over the edge-clamped row |
| `ResizeFold.FoldKeepsSums` | external/stb/stb_image_resize2.h:3626-3684 | the same over the trimmed window alone, for all rows at once |
| `ResizeFold.FoldedExample` | external/stb/stb_image_resize2.h:3626-3684 | six weights, two of them on either side of an image of two inputs: each edge pixel gets the sum of three |
| `ResizePivot.PivotTransposes` | external/stb/stb_image_resize2.h:4004-4063 | the pivot is a sparse transpose, with unused inputs marked empty, if and only if each weight goes to an input beyond all before it or to one shared with an earlier output less than a scatter width back |
| `ResizePivot.Pivot` | external/stb/stb_image_resize2.h:4004-4063 | the same in place on the scatter arrays, whatever they held |
| `ResizePivot.KeptIs` | external/stb/stb_image_resize2.h:4016-4020 | the weights skipped are exactly those between -2^-120 and 2^-120 |
| `ResizePivot.PutKeeps` | external/stb/stb_image_resize2.h:4014-4048 | one weight: all weights so far are stored as long as all was safe; after the first unsafe one, one is lost for good |
| `ResizePivot.RegularSafe` | external/stb/stb_image_resize2.h:4004-4063 | windows with non-decreasing starts, no negligible weight inside and a wide enough scatter window are safe |
| `ResizePivot.ZeroInsideUnsafe` | external/stb/stb_image_resize2.h:4017-4021 | a zero weight inside a window can cost another weight, though the comment at 4018-4019 expects such zeros: two windows of two weights |
| `ResizeRing.ReadsExact` | external/stb/stb_image_resize2.h:6230-6234 | all lines read for a row are the right ones, and its assertions hold, if and only if it starts neither before the first row nor beyond the ring's worth of newest lines |
| `ResizeRing.Split.Scanline` | external/stb/stb_image_resize2.h:6230-6234 | reads the decoded line of that number, or of the newest line in its slot |
| `ResizeRing.Split.LoadLine` | external/stb/stb_image_resize2.h:6340-6361 | loading keeps the ring invariant, dropping the oldest line only when the ring is full |
| `ResizeRing.BlendGroup` | external/stb/stb_image_resize2.h:10114-10260 | the weighted sum of up to eight lines on top of what is there; a single weight within 10^-6 of 1 is a copy |
| `ResizeRing.Split.VerticalGather` | external/stb/stb_image_resize2.h:6248-6287 | groups of eight add up to the sum of the whole window; for a window within the ring the row is, vertically first, the horizontal pass of the weighted sums of its decoded lines, and otherwise the weighted sums of the horizontal passes of those lines |
| `ResizeRing.Split.GatherLoop` | external/stb/stb_image_resize2.h:6310-6369 | whenever the windows keep ahead, every output row is the horizontal pass of the weighted sums of exactly the decoded lines of its window, or the weighted sums of their horizontal passes, across all evictions; stops exactly at the first failing assertion |
| `ResizeRing.RowGathered` | external/stb/stb_image_resize2.h:6248-6287 | a row summed from the lines of its window in the terms of the decoded lines, their weights and the horizontal pass alone |
| `ResizeRing.FoldKeepsRows` | external/stb/stb_image_resize2.h:3626-3684 | on a vertically clamped image a folded window gives the row of the unfolded one, unless a single weight within 10^-6 of 1 is left, which counts as 1; none is left only if the row is zero |
| `ResizeThreads.AssertedIs` | external/stb/stb_image_resize2.h:6327-6345 | where the gather loop stops: at the first row that is empty, starts before the first row, or starts a ring's length before the end of an earlier row |
| `ResizeThreads.AheadExact` | external/stb/stb_image_resize2.h:6339-6345 | windows that fit the ring keep ahead if and only if none starts before the first and none ends a ring's length past a later start |
| `ResizeThreads.ReachingWithin` | external/stb/stb_image_resize2.h:6339-6345 | the second holds if no window that starts earlier than one before it also ends earlier |
| `ResizeThreads.EarlierEndFails` | external/stb/stb_image_resize2.h:6339-6345 | three windows that settle and fit the ring, where it does not |
| `ResizeThreads.SplitAhead` | external/stb/stb_image_resize2.h:6310-6369 | for every split that stbir__get_split_info makes of windows that settle, reach and fit the ring: its rows keep ahead, so that the gather loop gets all of them right, if and only if its first row starts no later than the one before its first rise; for every scanned split whose next is not emptied, if and only if its first row starts no later than its last |

## Left out

- DoubleToRational: the conversion of f * 2^25 to a 64-bit integer is exact for every f; C leaves its result undefined from f = 2^39 on.
- GatherLoop: a failing assertion ends the loop; what a build without assertions reads beyond it is not modelled.
- apps, frontend and `external/waveshare`: wiring, register writes and configuration.
- SIMD variants in both libraries: only the scalar code is modelled.
- Floating-point rounding, sRGB and half-float conversion, filter kernels and their normalisation.
- JPEG block decoding beyond the tables: inverse DCT, progressive scans, colour conversion and upsampling.
- PNG chunk parsing, palettes, transparency chunks and CgBI conversion.
- GIF headers, the global colour table, extensions, disposal, the first frame's background and animation.
- BMP, TGA, PIC, PNM, PSD and HDR readers, stdio wrappers and failure strings.
- Reflect, wrap and zero edges when folding weights, and the repacking of coefficient groups.
- The scatter output loop, extents, polyphase reuse and the cost model for vertical-first.
