# Verified models of the image input path

The vision feature reads images with two single-header libraries, `include/stb_image.h` (decoding) and
`include/stb_image_resize2.h` (resizing). This project models their algorithmic cores in Dafny and proves that the
fast, stateful code computes what the formats and the plain definitions say. `dafny verify dfyconfig.toml` checks all
of it.

| part | files | in one sentence |
|---|---|---|
| machine words, bit streams | `Words`, `BitReversal`, `BitStream`, `Input` | `&`, shifts and word reversal digit by digit; the input as a stream of bits padded with zeros, or byte by byte |
| prefix codes | `Canonical` | canonical codes as numbers: intervals of words, the Kraft sum, slots in code order |
| inflate | `DeflateSpec`, `InflateSpec`, `ZHuffman`, `Growth`, `ZBuf`, `DeflateEncode`, `InflateRoundTrip` | RFC 1951 and RFC 1950 read bit by bit, the table-driven decoder that refines them, an encoder, the round trip |
| PNG | `PngSpec`, `PngFormat`, `Png`, `Adam7`, `PngRoundTrip`, `PngPixels` | section 6, section 2.3 and section 2.6 of RFC 2083, the two-row reconstruction with its sample expansion at all five depths, the de-interlacer, the round trip, what the filters mean pixel by pixel |
| GIF | `GifSpec`, `GifCapped`, `Gif`, `GifLzw`, `GifEncode`, `GifFrame` | an abstract dictionary decoder and row order, the same with the table limit of GIF89a, the linked-list decoder that draws while it decodes, an encoder, and the way from an image with its colours through a coded frame to the canvas |
| JPEG | `JpegSpec`, `Jpeg`, `JpegStream`, `JpegEntropy`, `JpegEncode` | Annex C, section F.1.2.3 and section F.2.2 of ITU-T T.81, the table builder, both lookup paths and the fused table, the refilled bit buffer and the coefficient loop, an encoder for blocks and the round trip |
| resizer | `GatherSpec`, `RingGather`, `FilterSpec`, `ClampFold`, `Rational`, `Splits`, `SplitGather`, `Arena` | weighted sums of scanlines against the ring buffer, edge folding, continued fractions, work splitting and gathering split by split, the two-pass arena |

## How the models are built

* **State stays state.** `stbi__zbuf`, `stbi__zhuffman`, `stbi__huffman`, the JPEG bit buffer, `stbi__gif` and
  `stbir__per_split_info` are classes whose methods change their fields and arrays in place. Each method is tied to a
  specification function of the old state; the lemmas are about those functions.
* **Specifications know nothing of the tricks.** `DeflateSpec.Symbol` matches codes bit by bit, `CopyMatch` appends one
  byte at a time, `GifSpec.Step` keeps whole strings, `GatherSpec.Weighted` reads scanlines directly.
* **Tables are tied to arithmetic of their own.** A specification and the code that refines it read the same tables, so
  each table also has a law that does not mention it: the symbols of section 3.2.5 of RFC 1951 by the digits of a length
  or distance (`DeflateEncode.LenOfSymbol`), the codes of section 3.2.6 (`InflateSpec.FixedCodes`), the refining grids of
  interlaced images (`Adam7.PassRefines`), the diagonals of figure A.6 of ITU-T T.81 (`JpegStream.DezigzagIsRank`).
* **Encoders share no tables with decoders.** They choose codes, symbols and widths by such arithmetic, and what they write
  is read back by the methods that model the code: `InflateRoundTrip.DecodeEncoded`, `PngRoundTrip.DecodePlain`,
  `GifFrame.DecodeFrame`, `JpegEncode.DecodeEncodedBlock`.
* **Partial reading is explicit.** Reading a symbol, a block or a stream may have no result. Whether a block ends is a
  least fixed point over the stream (`DeflateSpec.BlockEnd`); no bound on its length is assumed.
* **Both directions.** A decoder that succeeds has produced what the stream means, and one that fails does so only where
  the stream means nothing, ends beyond the input, or cannot be held in memory (`Inflate.Fails`). What can be held is
  exact: the first size reached by doubling that has room is one 32 bits express and the allocator grants
  (`Growth.CanHold`).
* **Words.** Values in C's unsigned types are natural numbers with the truncations written out; where a truncation is
  exact that is proved. Filter coefficients and scales are real numbers.
* **Branches that cannot be taken.** The code defends itself against states that never arise: an overfull reservoir in
  `stbi__fill_bits`, a slow-path index out of range or of another length, a negative bit count before a stored block, a
  last code equal to the next free one after an entry was added (GIF), and `bot == 0` in the rational search. Asserts or
  lemmas stand where those branches were.

## Results that are not what a reader would expect

* **JPEG tables with 256 codes.** The fast table marks "no entry" with 255, which is also the index of the 256th code.
  `Jpeg.CanonicalIffNotHidden` says exactly when decoding is canonical: unless there are 256 codes and the last has at
  most nine bits. `Jpeg.HiddenDecode` says what becomes of such a code: ten bits are taken, and a value near the end of
  the list is returned. `Jpeg.EightBitCodesAreHidden` gives a table with such a code. The decoder and the coefficient loop
  are tied to the codes that are taken, for all tables (`JpegEntropy.TakenAt`).
* **Rational numerators.** `stbir__double_to_rational` compares its estimate before it is cast to 32 bits, so success
  does not imply a close fraction. `Rational.DoubleToRational` says exactly when it does not (`Rational.Truncates`). For
  every scale that is a fraction with a denominator up to 4096 the arguments decide it (`Rational.RatioTruncatesIff`): the
  denominator is limited, to more than the fraction's own, and the fraction's numerator is at least 2^32. Up to there such
  fractions come back exactly (`Rational.RecoverRatio`). For other scales it never happens below 128
  (`Rational.SmallScaleNeverTruncates`), with limited numerators or a scale times limit of at most 2^32
  (`Rational.NumeratorFits`), and always from 2^32 plus a float's bit on if anything is found
  (`Rational.LargeScaleTruncates`). `Rational.TruncatedScale` calls the function with a scale of 2^32 and gets success with
  a fraction that is not close.
* **Work splitting reads one contributor past the last row.** The table has one contributor for each row. When gathering
  into more than one range, the scan of the last boundary reads the entry after the table exactly when the last range is
  no longer than three margins and none of its rows starts later than its first (`Splits.ReadsPastTable`,
  `Splits.GetSplitInfo`); eight rows in two ranges with a margin of 2 and equal starts are an example
  (`Splits.EqualStartsReadPast`). The ranges tile the rows whatever that entry holds, and the last one is left empty
  exactly when the entry starts before every row of the range (`Splits.LastRangeEmptied`).
* **A moved boundary need not be the earliest row of its range.** The scan ends at the first row that starts later than
  the cut, or after three margins. No row of the range starts before the row at the boundary if and only if no row past
  the scan starts before all rows scanned (`Splits.ShiftedStartIsEarliest`), and `SplitGather.RangeFeedsRingIff` says that
  this is also exactly which ranges a ring of scanlines can be fed from. `Splits.UndercutBoundary` gives a list of eight
  rows for which one does. Such a list would come from a kernel of the caller's own, with zeros at the ends of
  some windows and not of others. Where dips are short, `SplitGather.GatherInSplits` with `SplitGather.ShortDipsFeed`
  gives every output row, from the cutting of the rows to the weighted sums.
* **Folding the edge goes wrong beyond the border.** `stbir__cleanup_gathered_coefficients` keeps what a window computes on
  clamped pixels for every window that overlaps the image (`ClampFold.BorderExact`). An input region that reaches outside
  the image also produces windows that do not. `ClampFold.CleanupClamped` says for every nonempty window by how much the
  edge pixel's weight is then off (`ClampFold.Excess`), and that the clean-up is exact if and only if that is zero;
  `ClampFold.CleanupAll` says it of the whole table, where the neighbouring groups take part. A window before pixel 0 whose
  group has no room for pixel 0 loses all weights but its first; one that ends before pixel -1 and has room takes up the
  place behind its weights; one that starts beyond the pixel after the last takes the places before its group, twice, for
  its first weight. `ClampFold.RegionBeforeImage`, `ClampFold.RegionBehindImage` and `ClampFold.RoomForStale` are examples,
  the first two from doubling an image of two pixels. Such folds may read outside the table: `ClampFold.SlidingReadsTable`
  says when none does, and `ClampFold.FirstReadsBefore` that the first one does if the region starts further behind the
  image.
* **A ring that does not hold a row shows another.** The gather loop asserts that rows are not needed again once they have
  left the ring, but computes a slot all the same. `RingGather.Split.VerticalGatherLoop` says of every output row what it
  is computed from, and that it is the source's rows if the window fits the ring, whatever the other windows do.
* **Growing an empty buffer.** The doubling loop of `stbi__zexpand` never ends from size 0. `Inflate.DecodeMalloc` reports
  `hangs` for that call, exactly when the starting size is 0 and there is output; `InflateRoundTrip.EmptyStartHangs` gives
  a stream for any output.
* **GIF minimum code sizes.** The decoder agrees with the abstract one for every minimum code size it accepts (up to 12),
  with its casts to bytes written out as `% 256`.
* **The GIF table.** GIF89a stops adding strings at 4096 and goes on with a full table; the decoder adds up to 8192. For
  minimum code sizes up to 11 that makes no difference unless the run adds past 8192 without a clear, which cuts it short
  with a failure (`GifCapped.RasterAgrees`). A clear and nothing but zero codes is such a run (`GifCapped.ClearAndZeros`).

## Model

| member | source | states |
|---|---|---|
| BitReversal.BitReverse16IsRev | include/stb_image.h:4107-4114 | the four exchange rounds reverse the low 16 digits of any word and drop the rest |
| BitReversal.BitReverseIsRev | include/stb_image.h:4116-4122 | the shifted reversal reverses the digits of every word of at most 16 digits |
| Canonical.PrefixFree | include/stb_image.h:4124-4169 | no canonical code is a prefix of another symbol's |
| Canonical.MatchIffBelow | include/stb_image.h:4124-4169 | the words below the limit of length m are exactly those that start with a code of at most m bits: the intervals tile without gaps or overlaps |
| Canonical.SlotUnique | include/stb_image.h:4124-4169 | each used symbol has a slot of its own |
| Canonical.FitsIffKraft | include/stb_image.h:4124-4169 | codes run out at no length if and only if the Kraft sum is at most 1 |
| Canonical.SlotOrder | include/stb_image.h:4124-4169 | slots are in the order of section 3.2.2 of RFC 1951: by length, and by symbol within a length |
| Canonical.FirstIsZero | include/stb_image.h:4124-4169 | the first code in that order is all zeros |
| Canonical.ConsecutiveCodes | include/stb_image.h:4124-4169 | each further code is the one before it plus one, with zeros appended where it is longer |
| ZHuffmanTable.ZHuffman.Build | include/stb_image.h:4124-4169 | the builder accepts a list if and only if its Kraft sum is at most 1, and then every fast entry, limit, first code and slot represents the canonical code |
| ZHuffmanTable.ZHuffman.WriteStride | include/stb_image.h:4158-4163 | the innermost loop writes exactly the windows whose low digits are the reversed code |
| Inflate.AddByte | include/stb_image.h:4202-4212 | joining a byte, or a zero past the end, above the reservoir's bits keeps it the next bits of the zero-padded stream |
| Inflate.ReservoirFitsWord | include/stb_image.h:4202-4212 | in every reachable state the buffer is below 2^numBits and fits 32 bits, so the bail-out never fires |
| Inflate.ZBuf.FillBits | include/stb_image.h:4202-4212 | refilling keeps the reservoir in step with the stream and leaves more than 24 bits |
| Inflate.ZBuf.Zreceive | include/stb_image.h:4214-4222 | returns the next n bits of the zero-padded input, least significant first, and moves by n |
| Inflate.FastHitMeans | include/stb_image.h:4243-4271 | a nonzero fast entry holds the symbol of bit-by-bit matching and the length of its code |
| Inflate.FastMissMeans | include/stb_image.h:4243-4271 | a zero fast entry means that the reversed window is at or above the nine-bit limit |
| Inflate.SlowHitMeans | include/stb_image.h:4224-4241 | between two limits lies the code of one symbol, whose slot is the index the slow path computes |
| Inflate.SlowMissMeans | include/stb_image.h:4224-4241 | above the last limit no code matches |
| Inflate.ZBuf.ZHuffmanDecodeSlowpath | include/stb_image.h:4224-4241 | from a fast miss on, the slow path returns and consumes what bit-by-bit matching does, and its range and size rejections cannot be taken |
| Inflate.ZBuf.ZHuffmanDecode | include/stb_image.h:4243-4271 | returns the symbol of bit-by-bit matching and consumes its code; -1 only where none matches or the position is past the input |
| Inflate.ZBuf.Zexpand | include/stb_image.h:4273-4293 | grows by doubling until n more bytes fit and keeps all bytes written; succeeds if and only if the first doubled size with room fits 32 bits and is granted |
| Growth.CanHoldStays | include/stb_image.h:4273-4293 | what can be held does not depend on how far the buffer has grown on the way |
| Growth.GrownIsLeast | include/stb_image.h:4273-4293 | the size is the first of the starting size and its doubles that has room |
| DeflateSpec.CopyMatchLaw | include/stb_image.h:4348-4354 | every byte of a match equals the byte one distance before it, overlapping or not |
| DeflateSpec.LengthExtraLaw | include/stb_image.h:4300-4301 | length symbols have 0 to 5 extra bits, four symbols to each number after the first four, and the last has none |
| DeflateSpec.LengthBaseLaw | include/stb_image.h:4295-4301 | each length symbol begins where the one before it ends |
| DeflateSpec.LengthEnds | include/stb_image.h:4295-4298 | the symbols begin with length 3 and end with 258 |
| DeflateSpec.DistLaw | include/stb_image.h:4303-4307 | distance symbols follow each other from 1 on with 0 to 13 extra bits, two symbols to each number after the first two |
| Inflate.ZBuf.CopyBytes | include/stb_image.h:4348-4354 | both copy loops, with the shortcut for distance 1, append the match byte by byte and leave what was there |
| DeflateSpec.BlockUnfold | include/stb_image.h:4309-4357 | a block means its first symbol followed by what the rest means |
| Inflate.ZBuf.ParseHuffmanBlock | include/stb_image.h:4309-4357 | ends where the block ends with exactly its bytes appended; fails only where the block has no end, ends beyond the input or cannot be held; the table laws and `DeflateEncode.ReadTokens` say which bytes those are |
| Inflate.ZBuf.ComputeHuffmanCodes | include/stb_image.h:4359-4407 | the tables represent exactly the two codes the dynamic header describes; fails only where there is none |
| Inflate.ZBuf.ReadStoredHeader | include/stb_image.h:4414-4425 | draining the reservoir and reading on yields the next four stream bytes, and leaves the reservoir empty |
| Inflate.ZBuf.ParseUncompressedBlock | include/stb_image.h:4409-4436 | a stored block continues at the next byte boundary with checked lengths and appends the bytes behind them |
| Inflate.ZBuf.ParseZlibHeader | include/stb_image.h:4438-4450 | accepts exactly the two-byte headers of RFC 1950 without preset dictionary that are followed by something |
| InflateSpec.FixedFits | include/stb_image.h:4452-4479 | the default length lists give complete codes |
| InflateSpec.FixedCodes | include/stb_image.h:4452-4479 | the default literal and length code is the table of section 3.2.6 of RFC 1951, code by code |
| InflateSpec.FixedDistances | include/stb_image.h:4464-4479 | the default distance code gives each symbol its own number in five bits |
| InflateSpec.DezigzagOrder | include/stb_image.h:4361 | lengths are sent for the repetitions first, then for 0, then from 8 outwards: the table and this order are inverse to each other |
| InflateSpec.ZlibHeaderFields | include/stb_image.h:4438-4450 | by the fields of section 2.2 of RFC 1950 a header is accepted if and only if the method is 8, no dictionary is asked for and the check bits make it a multiple of 31 |
| InflateSpec.NoBlockPastEnd | include/stb_image.h:4481-4508 | past the end of the input every header reads as a stored block whose length check fails, so the block loop ends |
| Inflate.ZBuf.ParseZlib | include/stb_image.h:4481-4508 | success means that the output is what the input stands for; whatever it stands for within its real bits is produced if and only if it can be held |
| Inflate.DecodeMalloc | include/stb_image.h:4541-4555 | returns only what the input stands for; a complete input's bytes come out if and only if they can be held, and the call never returns if and only if the starting size is 0 and there are any |
| Inflate.DecodeBuffer | include/stb_image.h:4557-4566 | for every input and capacity ends, stays in the buffer, and yields exactly what the input stands for when that fits |
| DeflateEncode.LenOfSymbol | include/stb_image.h:4295-4301 | every length from 3 to 258 is the base of the symbol that its leading digits name, plus its other digits in just that symbol's extra bits |
| DeflateEncode.DistOfSymbol | include/stb_image.h:4303-4307 | so is every distance from 1 to 32768 |
| DeflateEncode.ReadTokens | include/stb_image.h:4309-4357 | bytes and matches given by length and distance, encoded under any two codes, read back as appending those bytes and copying that many bytes from that far back |
| InflateRoundTrip.ReadHeader | include/stb_image.h:4359-4407 | a dynamic header with any run-length coding of its lengths reads back as the two length lists |
| InflateRoundTrip.ReadStored | include/stb_image.h:4409-4436 | a stored block at any bit position reads back as its data |
| InflateRoundTrip.RawRoundTrip | include/stb_image.h:4481-4508 | every encoded mix of stored, fixed and dynamic blocks stands for the original bytes, whatever follows |
| InflateRoundTrip.ZlibRoundTrip | include/stb_image.h:4481-4508 | the same behind a zlib header |
| InflateRoundTrip.DecodeEncoded | include/stb_image.h:4541-4555 | decoding an encoded stream of bytes and matches, each match a length from 3 to 258 and a distance, returns exactly what they expand to, memory permitting: the test for used-up padding never rejects a complete stream |
| InflateRoundTrip.EmptyStartHangs | include/stb_image.h:4273-4293 | for any nonempty output there is a stream on which a buffer that starts empty is doubled forever |
| InflateRoundTrip.EveryOutputHasStream | include/stb_image.h:4481-4508 | every byte string has a stream that encodes it |
| Png.StbPaeth | include/stb_image.h:4657-4668 | the reformulated predictor equals the one of RFC 2083 for all integers |
| PngSpec.PaethNearest | include/stb_image.h:4657-4668 | the predictor is the neighbour nearest to left plus above minus corner; of equally near ones the left one, and then the one above |
| Png.Substitution | include/stb_image.h:4648-4655 | the filters substituted on the first row predict what the named ones do above zeros |
| Png.RecurrenceIsRecon | include/stb_image.h:4737-4787 | a row stored by the code's recurrence is the reconstructed row |
| Png.UnfilterRow | include/stb_image.h:4737-4787 | each branch of the filter switch fills one half of the buffer by the recurrence and leaves the other alone |
| Png.ReconInto | include/stb_image.h:4737-4787 | the half whose turn it is receives the reconstruction of the next row from the row in the other half |
| Png.ExpandBits | include/stb_image.h:4790-4817 | shifting each byte left sample by sample yields the samples of 1, 2 or 4 bits at their places in the row |
| Png.AlphaExpand | include/stb_image.h:4675-4692 | going backwards in place, every pixel keeps its components and gets an opaque alpha, though pixels grow over those not yet moved |
| PngFormat.PackedSample | include/stb_image.h:4789-4852 | samples of any depth, packed most significant first, are the ones the decoder takes out |
| PngFormat.ScaleFills | include/stb_image.h:4670 | scaled gray reaches exactly 255 at every depth |
| PngFormat.ScaledShare | include/stb_image.h:4789-4852 | a small gray sample is scaled to the same share of 255; all others stay as they are |
| PngFormat.OpaqueIsFull | include/stb_image.h:4675-4692 | an added alpha is the largest value a sample of the output has |
| PngFormat.SampleBits | include/stb_image.h:4789-4852 | at every depth the samples lie one after the other in the row, each from its most significant bit on |
| PngFormat.UnitHoldsPixel | include/stb_image.h:4707-4735 | the filter unit is the least number of bytes that holds a pixel, and one for pixels below a byte |
| PngFormat.RowHoldsPixels | include/stb_image.h:4718-4720 | a row takes the least number of bytes that holds its samples |
| Png.CreatePngImageRaw | include/stb_image.h:4696-4859 | at every depth, fails exactly when the data are too short or a row names an unknown filter, and otherwise yields all pixels of the reconstructed rows: samples unpacked, gray scaled, alpha added on request |
| PngPixels.ComponentFilter | include/stb_image.h:4737-4787 | in an image with a byte for each component, component c of every pixel is its byte of the row plus, by filter type, nothing, component c of the pixel on the left, of the one above, half their sum, or the predictor of both and the corner, modulo 256; neighbours outside the image count as 0 |
| PngSpec.ImageRoundTrip | include/stb_image.h:4737-4787 | reconstruction inverts filtering for every image, filter unit and choice of filters |
| PngRoundTrip.EncodedImageReads | include/stb_image.h:4696-4859 | every pixel of an encoded image of any depth comes out, gray scaled, with alpha on request |
| PngRoundTrip.DecodePlain | include/stb_image.h:4696-4859 | end to end: called with an encoded image of any depth and whatever follows, the reconstruction succeeds and every pixel of its output is the image's |
| Adam7.PassCovers | include/stb_image.h:4873-4901 | every pixel belongs to a pass, at a column and row of it |
| Adam7.PassPlaces | include/stb_image.h:4873-4901 | no pixel belongs to two, and every destination is in range |
| Adam7.PassSizesSum | include/stb_image.h:4873-4901 | the seven pass sizes add up to width times height |
| Adam7.PassRefines | include/stb_image.h:4873-4877 | a pixel is sent in pass p or before if and only if its column and row are multiples of that pass's grid: 8 and 8, 4 and 8, 4 and 4, 2 and 4, 2 and 2, 1 and 2, 1 and 1 |
| Adam7.PassOrder | include/stb_image.h:4888-4895 | within a pass pixels keep their order |
| Adam7.ScatterPass | include/stb_image.h:4888-4895 | scattering one pass writes exactly its pixels |
| Adam7.CreateInterlaced | include/stb_image.h:4861-4904 | fails exactly when a pass is incomplete or names an unknown filter, and otherwise shows every pixel of every pass |
| PngRoundTrip.InterlacedRoundTrip | include/stb_image.h:4861-4904 | an interlaced encoding of any image, at any depth, is accepted, and whatever shows its passes shows that image |
| PngRoundTrip.DecodeInterlaced | include/stb_image.h:4861-4904 | end to end: called with an interlaced encoding and whatever follows, the de-interlacer succeeds and every pixel of its output is the image's |
| GifSpec.RowOrderBijective | include/stb_image.h:6664-6688 | the interlaced order visits each row once for every height, also with empty passes |
| GifSpec.AddressInjective | include/stb_image.h:6664-6688 | no two indices of a frame go to the same pixel |
| GifSpec.EveryPixelPainted | include/stb_image.h:6664-6688 | width times height indices reach every pixel of the frame |
| GifSpec.PaintingAt | include/stb_image.h:6664-6688 | each pixel keeps the index sent to it |
| GifSpec.StepKeepsWidth | include/stb_image.h:6734-6766 | one code keeps that the current width can express the next free code, for minimum code sizes from 2 |
| GifSpec.RunKeepsWidth | include/stb_image.h:6734-6766 | so it can in every state that a run of codes reaches |
| GifSpec.FreshWidthFits | include/stb_image.h:6734-6739 | after a clear this holds exactly for minimum code sizes from 2 |
| GifCapped.StepAgrees | include/stb_image.h:6745-6771 | one code does the same to the decoder's table and to one that stops at 4096 strings, unless it adds past 8192 |
| GifCapped.RasterAgrees | include/stb_image.h:6691-6774 | for minimum code sizes up to 11 a raster decodes differently than with a table that stops at 4096 strings if and only if it adds past 8192 without a clear, and then it fails with a proper prefix |
| GifCapped.ClearAndZeros | include/stb_image.h:6749-6752 | a clear followed by zero codes adds past 8192 and fails |
| Gif.RowStateIsOrder | include/stb_image.h:6664-6688 | the step and pass variables are at the k-th row of the transmission order |
| Gif.RowStateNextPass | include/stb_image.h:6683-6687 | moving to the next pass loses no row |
| Gif.Raster.EmitIndex | include/stb_image.h:6664-6688 | one more index is drawn where the order says, and dropped past the frame |
| Gif.Raster.StartFrame | include/stb_image.h:6857-6880 | the set-up puts the walk at the first pixel with nothing drawn |
| GifLzw.Decoder.OutGifCode | include/stb_image.h:6654-6689 | the recursion ends, since prefixes are smaller than their entry, and emits the entry's string |
| GifLzw.Decoder.AddEntry | include/stb_image.h:6749-6757 | the new entry spells the last string and the first index of the current one, which may be the entry itself; all others keep theirs |
| GifLzw.Decoder.HandleCode | include/stb_image.h:6745-6771 | one code does what one step of the abstract decoder does, including its failures |
| GifLzw.Decoder.ProcessGifRaster | include/stb_image.h:6691-6774 | for every input the indices emitted and the verdict are those of the abstract dictionary decoder, after a success the input stands behind the last sub-block, and the canvas is painted with them |
| GifEncode.CodeFits | include/stb_image.h:6728-6732 | until the dictionary has 4096 codes every code there can be fits the width it is sent in, the digits of the largest one |
| GifEncode.WidthStep | include/stb_image.h:6763-6766 | the width the decoder goes on with is the one the encoder sends the next code in, for minimum code sizes from 1 to 12 |
| GifEncode.StepSent | include/stb_image.h:6745-6771 | an index under its own number, or an added string under its code, even the string just being added, is emitted, and the decoder then knows one more |
| GifEncode.FailsIff | include/stb_image.h:6745-6771 | after any run a code fails if and only if it is not given out yet or adds a string past 8192 |
| GifEncode.GreedyIsGood | include/stb_image.h:6691-6774 | the encoder that sends the longest string it knows, with a dictionary from strings to codes, encodes its input |
| GifEncode.EveryRasterHasRuns | include/stb_image.h:6691-6774 | every string of indices that fit the minimum code size has such an encoding |
| GifEncode.ReadBlocks | include/stb_image.h:6721-6731 | sub-blocks of any sizes give their bytes in order, up to the terminator |
| GifEncode.RasterRoundTrip | include/stb_image.h:6691-6774 | whatever an encoder makes of some indices, with clear codes anywhere, decodes to exactly these indices |
| GifEncode.RasterCutShort | include/stb_image.h:6721-6725 | data that end without an end code decode to the indices before |
| GifEncode.RasterFails | include/stb_image.h:6745-6771 | a code not given out yet, or one too many, or one before any clear code makes the decode fail, with the indices before it drawn |
| GifEncode.DecodeRaster | include/stb_image.h:6691-6774 | end to end: called on the sub-blocks of encoded indices the decoder succeeds, emits exactly these indices and stops behind the terminator |
| GifFrame.RowListAt | include/stb_image.h:6664-6688 | the row order is the list of every eighth row, every eighth from 4, every fourth from 2 and every second from 1 |
| GifFrame.PaintedImage | include/stb_image.h:6664-6688 | an image sent in that order is painted with each index at its own column and row |
| GifFrame.ParseColorTable | include/stb_image.h:6597-6606 | every entry gets its three bytes, blue first, and is opaque but for the transparent one; the rest of the table stays |
| GifFrame.TableShows | include/stb_image.h:6668-6676 | an index of such a table draws its red, green and blue, opaque, or leaves what is below if it is transparent |
| GifFrame.DecodeFrame | include/stb_image.h:6857-6891 | end to end: from the local colour table on, an encoded frame puts every pixel of the image in its colour at its place of the canvas and leaves the rest of the canvas alone |
| JpegSpec.SizesAscend | include/stb_image.h:2007-2014 | the size list is ascending with lengths 1 to 16 |
| JpegSpec.SizesCount | include/stb_image.h:2007-2014 | there are as many codes of each length as the table says |
| Jpeg.JHuffman.Build | include/stb_image.h:2003-2048 | succeeds exactly when there are at most 256 codes and they do not run out, and then the tables represent the canonical code |
| Jpeg.DecodeIsCanonical | include/stb_image.h:2097-2146 | fast and slow lookup agree with canonical decoding on every buffer but those that show a hidden last code |
| Jpeg.HiddenCodeMisread | include/stb_image.h:2097-2146 | a hidden last code is never decoded as it should be |
| Jpeg.HiddenDecode | include/stb_image.h:2097-2146 | for a hidden last code ten bits are taken and the index counts from the end of the list by the bits behind the code |
| Jpeg.EightBitCodesAreHidden | include/stb_image.h:2003-2048 | there is such a table: all 256 values with eight bits each |
| Jpeg.CanonicalIffNotHidden | include/stb_image.h:2097-2146 | tables decode canonically on all buffers if and only if there are fewer than 256 codes or the last is longer than nine bits |
| JpegStream.ByteJoined | include/stb_image.h:2089-2090 | joining a byte below the bits held keeps the buffer a window of the data |
| JpegStream.ShiftedOut | include/stb_image.h:2112-2113 | shifting left keeps the rest of the window at the top and zeros below |
| JpegEntropy.EntropyBuffer.NextDataByte | include/stb_image.h:2077-2088 | reads the next data byte, a stuffed 0xFF as one byte whatever fill bytes precede its zero, zeros after the data, and stops at a marker exactly where the data end |
| JpegEntropy.EntropyBuffer.GrowBuffer | include/stb_image.h:2075-2091 | refilling keeps the buffer the next bits of the unstuffed data, zero-padded, with more than 24 of them unless a marker comes first |
| JpegEntropy.EntropyBuffer.JpegHuffDecode | include/stb_image.h:2097-2146 | from any buffer, with any table, returns and consumes the code taken at this position of the data; -1 only where none is or the data end within it |
| JpegEntropy.TablesTake | include/stb_image.h:2104-2146 | on a buffer that shows the data the tables take the code that is there, or what becomes of a hidden one |
| JpegEntropy.EntropyBuffer.DecodeTop | include/stb_image.h:2104-2146 | on a filled buffer returns and consumes what the tables decode, which is the canonical symbol unless the last code is hidden |
| JpegEntropy.EntropyBuffer.SlowPath | include/stb_image.h:2117-2146 | the scan over the limits decodes and consumes as specified, also without a match or with too few bits |
| Jpeg.ExtendReceiveIs | include/stb_image.h:2153-2166 | rotate, mask and bias are RECEIVE and EXTEND of section F.2.2 |
| JpegEntropy.EntropyBuffer.ExtendReceived | include/stb_image.h:2153-2166 | from any buffer returns the next n data bits as a signed value and consumes them; 0 without consuming only where the data end within |
| Jpeg.FusedIsTwoStep | include/stb_image.h:2050-2073 | every nonzero fused entry gives the run, coefficient and consumed bits of a symbol followed by its magnitude, once the buffer holds them |
| Jpeg.BuildFastAc | include/stb_image.h:2050-2073 | fills the fused table with those entries |
| JpegEntropy.EntropyBuffer.TakeFused | include/stb_image.h:2237-2245 | an entry of the fused table yields run, coefficient and position of the symbol and magnitude that the data hold |
| JpegEntropy.EntropyBuffer.DecodeAc | include/stb_image.h:2229-2262 | with any table, fused and two-step rounds together give the coefficients read symbol by symbol with the codes that are taken, which are the data's own unless the last is hidden, and end where they end; failure only where there is no end or the data run short |
| JpegEntropy.AcTakenIsCanonical | include/stb_image.h:2229-2262 | without a hidden code these are the coefficients of the standard |
| JpegStream.DezigzagIsRank | include/stb_image.h:2194-2207 | the k-th place is the one with rank k along the diagonals of figure A.6 of ITU-T T.81, and the last one from 64 on |
| JpegStream.RankInjective | include/stb_image.h:2194-2207 | no two places have the same rank |
| JpegEncode.ExtendSent | include/stb_image.h:2153-2166 | the bits of a signed coefficient in its size category are extended to the coefficient |
| JpegEncode.EveryBlockInOrder | include/stb_image.h:2229-2262 | every block has an order of its coefficients by rank |
| JpegEncode.ReadItems | include/stb_image.h:2229-2262 | the runs, sizes and magnitudes of a block by rank, with its zero runs of 16 and its end code, under any code, read back as that block |
| JpegEncode.ReadStuffed | include/stb_image.h:2075-2091 | bytes with a zero stuffed after each 0xFF are the data of the scan |
| JpegEncode.ScanEnds | include/stb_image.h:2080-2087 | a marker behind them ends the data, whatever fill bytes precede it |
| JpegEncode.DecodeEncodedBlock | include/stb_image.h:2229-2262 | end to end: on the stuffed bytes of an encoded block, behind whatever was read before, the coefficient loop succeeds, leaves exactly that block and stops behind its bits |
| GatherSpec.HeldIffFits | include/stb_image_resize2.h:6330-6360 | after loading, all rows a window needs are held if and only if it starts neither before the first window nor a ring's length behind an earlier end |
| GatherSpec.UnitGivesRow | include/stb_image_resize2.h:6248-6287 | a coefficient of 1 among zeros gives its row of the window, the first and the last included |
| GatherSpec.RowIsLinear | include/stb_image_resize2.h:6248-6287 | adding a multiple of other coefficients adds that multiple of the row they give |
| RingGather.WrapDistinct | include/stb_image_resize2.h:6230-6234 | rows less than a ring apart never share a slot |
| RingGather.BlendContinues | include/stb_image_resize2.h:6248-6277 | blending further rows continues the weighted sum |
| RingGather.Split.LoadNext | include/stb_image_resize2.h:6338-6360 | loading a row evicts only the oldest, and every row from first to last stays in its slot |
| RingGather.Split.ResampleVerticalGather | include/stb_image_resize2.h:6248-6287 | rounds of up to eight rows give the direct weighted sum of the rows that the ring shows |
| RingGather.Split.VerticalGatherLoop | include/stb_image_resize2.h:6310-6369 | every output row is the direct weighted sum of what the ring shows at its turn, which agrees with the source on the rows held; so of its source rows whenever its own window fits |
| SplitGather.RangeFitsIff | include/stb_image_resize2.h:6330-6360 | a range's windows all fit a ring exactly when its first row starts first and the ring is long enough for every row's reach back |
| SplitGather.RangeFeedsRingIff | include/stb_image_resize2.h:6747-6815 | with a ring long enough, the range between two boundaries fits it if and only if no row past the first one's scan and before the second undercuts the rows scanned |
| SplitGather.UndercutRangeDoesNotFit | include/stb_image_resize2.h:6330-6360 | a range cut at an undercut boundary fits no ring, however long |
| SplitGather.GatherRanges | include/stb_image_resize2.h:6310-6369 | all splits together, each with its own ring, give every output row whose window fits the ring of its range, and touch nothing else |
| SplitGather.GatherInSplits | include/stb_image_resize2.h:6310-6369 | cutting the rows and gathering the ranges gives every output row that fits the ring of its range its direct weighted sum, and every row for lists that suit the ring at every boundary |
| SplitGather.ShortDipsFeed | include/stb_image_resize2.h:6747-6815 | lists do whose first row starts first, whose starts dip back only within every scan's reach, whose ends do not dip, and whose windows fit the ring |
| ClampFold.InsertCoeff | include/stb_image_resize2.h:3380-3420 | the weight joins its pixel, widening the window with zeros if its group may hold it, and nothing else changes, inside the group or out |
| ClampFold.FoldRight | include/stb_image_resize2.h:3630-3638 | the overhang past the last pixel ends up on it; for a window beyond the next pixel, what the places before the group hold takes part |
| ClampFold.FoldLeft | include/stb_image_resize2.h:3640-3660 | for every window, the overhang before the first pixel ends up on it through the slide and the saved weight, or only its first weight if pixel 0 has no place, with what stands behind the weights if the window ends before -1 |
| FilterSpec.FoldingPreserves | include/stb_image_resize2.h:3626-3684 | folded weights inside the image compute from all pixels what the original window computes from clamped ones |
| FilterSpec.FoldingAdds | include/stb_image_resize2.h:3626-3684 | with more weight on one pixel they compute that much of it besides |
| FilterSpec.ClampNearest | include/stb_image_resize2.h:3053-3061 | a clamped position is the nearest one inside the image |
| FilterSpec.GatheredIsFiltered | include/stb_image_resize2.h:6248-6287 | the two readings of a window agree: gathering a row is filtering each of its columns |
| ClampFold.CleanupClamped | include/stb_image_resize2.h:3626-3684 | for every nonempty window, whatever stands around its group, the cleaned-up contributors lie in the image, do not end in a zero and filter any pixels as the original does on clamped ones plus `Excess` times the edge pixel; so exactly if and only if that is zero; no other group changes |
| ClampFold.CleanupAll | include/stb_image_resize2.h:3598-3688 | the loop over all contributors does so for each, with the groups before it already cleaned up and those behind not yet |
| ClampFold.BorderExact | include/stb_image_resize2.h:3626-3660 | windows that overlap the image, or border it with room for pixel 0, are folded exactly |
| ClampFold.SlidingReadsTable | include/stb_image_resize2.h:3626-3660 | if no window starts further behind the one before it than a group is wide, the first not beyond the pixel after the last, and the last does not end before pixel -1, no fold reads outside the table |
| ClampFold.FirstReadsBefore | include/stb_image_resize2.h:3630-3638 | if the first window starts beyond the pixel after the last, its fold reads before the table |
| ClampFold.RegionBeforeImage | include/stb_image_resize2.h:3640-3660 | the first two windows of a region that starts one image width before the image, doubled: both lose weight |
| ClampFold.RegionBehindImage | include/stb_image_resize2.h:3630-3638 | the last of the mirrored region takes a cleared place for its first weight |
| ClampFold.RoomForStale | include/stb_image_resize2.h:3640-3660 | a window with room for pixel 0 takes up what stands behind its weights |
| Rational.RefinedRebuilds | include/stb_image_resize2.h:7611-7625 | every round keeps that the remainders rebuild the start and that consecutive estimates have determinant 1 or -1 |
| Rational.EstimatesBounded | include/stb_image_resize2.h:7611-7625 | the estimates never exceed the start values, so 64 bits hold them |
| Rational.SearchSound | include/stb_image_resize2.h:7587-7626 | the search never runs out of bits, and what it finds is within a float's bit and below the limit |
| Rational.CloseMeans | include/stb_image_resize2.h:7596-7599 | close means that numerator and value times denominator, in units of 2^-24, differ by less than the denominator |
| Rational.ScaledMeans | include/stb_image_resize2.h:7580-7582 | the search starts from the whole part of the value in units of 2^-25 |
| Rational.FoundInLowestTerms | include/stb_image_resize2.h:7589-7604 | a found fraction has no common divisor but 1 |
| Rational.CloseIffFits | include/stb_image_resize2.h:7598-7604 | after the cast it is still close if and only if the numerator is below 2^32 |
| Rational.Passed | include/stb_image_resize2.h:7611-7625 | an estimate whose denominator exceeds that of the scale's own fraction, of at most 4096, comes only after that fraction |
| Rational.RatioFound | include/stb_image_resize2.h:7589-7625 | a scale that is such a fraction is found if and only if its own term is below the limit, and then in lowest terms exactly |
| Rational.RatioTruncatesIff | include/stb_image_resize2.h:7589-7604 | its numerator is cut if and only if the denominator is limited to more than its own and the numerator is at least 2^32 |
| Rational.RecoverRatio | include/stb_image_resize2.h:7571-7604 | called with such a fraction within the limit and 32 bits, the function returns its terms |
| Rational.LargeScaleTruncates | include/stb_image_resize2.h:7598-7604 | from 2^32 plus a float's bit on, everything found loses its numerator's high part |
| Rational.SmallScaleNeverTruncates | include/stb_image_resize2.h:7598-7604 | below 128 nothing found does, whatever the limit |
| Rational.WholeScaleTruncatesIff | include/stb_image_resize2.h:7589-7604 | a whole scale loses it if and only if it is at least 2^32 and the denominator is limited to more than 1 |
| Rational.TruncatedScale | include/stb_image_resize2.h:7571-7604 | called with a scale of 2^32 the function reports success with a fraction that is not close |
| Rational.NumeratorFits | include/stb_image_resize2.h:7589-7604 | that holds whenever numerators are limited or scale times limit is at most 2^32 |
| Rational.FullRangeNear | include/stb_image_resize2.h:7627-7653 | the full-range fraction has the limit as its limited term, and the other term is the nearest to match the value, as long as it fits 32 bits |
| Rational.DoubleToRational | include/stb_image_resize2.h:7571-7653 | returns what the search finds, and else the full-range fraction with success reported exactly when it is close; success without closeness happens exactly when a found numerator exceeds 32 bits |
| Splits.GetMaxSplit | include/stb_image_resize2.h:6868-6881 | the largest range is the height over the splits, rounded up |
| Splits.LeftClosed | include/stb_image_resize2.h:6747-6758 | ranges differ by at most one row, the longer ones last |
| Splits.FindShift | include/stb_image_resize2.h:6777-6802 | finds the first of the scanned rows that starts earliest, and reads up to the first later-starting row or the scan limit, no further |
| Splits.StartIsEarliestInReach | include/stb_image_resize2.h:6760-6806 | a range starts at the row that starts first of those within three margins and its share, if no row up to it starts later than the row at the cut, and never further on |
| Splits.ShiftedStartIsEarliest | include/stb_image_resize2.h:6760-6806 | no row of a range starts before the one at its moved boundary if and only if no row past the scan starts before all rows scanned |
| Splits.ShortDipsDoNotUndercut | include/stb_image_resize2.h:6760-6806 | lists whose starts dip back only within reach meet that condition at every boundary |
| Splits.UndercutBoundary | include/stb_image_resize2.h:6760-6806 | a list of eight rows whose boundary stays at row 4 though row 6 starts before it |
| Splits.GetSplitInfo | include/stb_image_resize2.h:6747-6815 | with a table of exactly one contributor a row, the ranges are ordered, contiguous and cover all rows, each starting at its cut or where the scan put it; the entry past the table is read if and only if `ReadsPastTable` |
| Splits.RangeIs | include/stb_image_resize2.h:6747-6815 | each range runs from the boundary that the arguments determine to the next |
| Splits.LastRangeEmptied | include/stb_image_resize2.h:6777-6806 | when that entry is read, the last range is left empty if and only if the entry starts before every row of it |
| Splits.LastRangeKept | include/stb_image_resize2.h:6777-6806 | when it is not, the last range keeps a row |
| Splits.EqualStartsReadPast | include/stb_image_resize2.h:6777-6802 | eight rows in two ranges with a margin of 2 and equal starts read past the table |
| Splits.TilesExactlyOnce | include/stb_image_resize2.h:6747-6815 | every row is in exactly one range |
| Splits.RangesWithinMax | include/stb_image_resize2.h:6868-6881 | without moved boundaries no range exceeds the largest split |
| Arena.PiecesFit | include/stb_image_resize2.h:7134-7150 | at every base address the pieces are 16-byte aligned, apart from each other and inside the size of the first pass |
| Arena.PieceSizes | include/stb_image_resize2.h:7148-7309 | every piece of the plan is in the list with its size: bookkeeping, three buffers a split, scratch tables of their own only when scattering without room for them, and the tables of both directions |
| Arena.PiecesTight | include/stb_image_resize2.h:7145 | no room is lost but for aligning each piece |
| Arena.AllocAndPlace | include/stb_image_resize2.h:7134-7378 | the two passes place every piece so, each with a region of its size |
| Arena.ScratchClear | include/stb_image_resize2.h:7248-7284 | tables put on top of the split buffers when they fit end before the coefficient tables |

## Left out

- Inflate.ZBuf.ParseZlib: does not promise that a truncated stream is rejected, because zero bytes fed past the end are stream bits to the decoder; it promises what the zero-padded input stands for.
- Inflate.ZBuf.Zexpand: memory is a largest grantable block; from size 0, where the doubling loop would never end, the model returns and says so.
- Inflate.DecodeMalloc: a call that never returns is a result `hangs` here; for an input that ends before its stream does, it promises only that a result, if there is one, is what the zero-padded input stands for.
- Png.CreatePngImageRaw: the transparency and palette passes and the overflow guards on sizes are not modelled, and an image without columns is excluded, as the source's caller rejects it. An output pixel is one cell that holds its samples; the byte order of 16-bit ones in memory is not modelled.
- Adam7.CreateInterlaced: the same, except that passes without columns are covered.
- Gif.Raster.StartFrame: the descriptor's fields are parameters; the global palette with the transparent entry that changes from frame to frame, the background colour, disposal and the two canvases behind are not modelled.
- GifSpec.StepKeepsWidth: minimum code sizes 0 and 1 are outside it, and `GifSpec.FreshWidthFits` says that it fails for them; the refinement of the abstract decoder covers them all the same.
- JpegEntropy.EntropyBuffer.DecodeAc: the DC coefficient with its prediction, dequantisation with its cast to 16 bits, progressive scans, restart markers and the inverse transform are not modelled.
- RingGather.Split.VerticalGatherLoop: a decoded scanline is a value that depends only on its row; what the ring's memory holds beside decoded rows is arbitrary but of the right width; the asserts are not modelled; horizontal resampling and encoding are not modelled, and the copy shortcut for a single weight near 1 is left out as it is inexact by design.
- ClampFold.CleanupClamped: the clamp case, over exact reals; what the memory around the table holds is arbitrary; empty windows, which the source does not produce, renormalisation, the reflect and wrap cases, and the lowest, highest and widest bookkeeping are not modelled.
- Rational.DoubleToRational: over exact reals; a scale so large or small that a cast to 64 bits overflows is outside the model, and division by a denominator that was cast to 0 counts as not close. For scales between 128 and 2^32 that are no fraction with a denominator up to 4096 and a limited denominator, the condition is on the search's result.
- SplitGather.GatherRanges: the threads run one after another, and an empty range does nothing.
- Arena.AllocAndPlace: sizes are inputs, taken without wrap-around of the address type; the separate-allocations build is not modelled.
- Vector instructions, half floats, colour-space conversion and filter kernels: arithmetic on single values.
- The scatter direction of the vertical pass: its exactness depends on coefficients that do not vanish inside a window.
- File, callback and standard I/O input: the input is a byte sequence with a cursor.
- The BMP, TGA, PSD, PIC, PNM and HDR loaders and chunk parsing: field by field checks.
