# The hbc codecs, indexes and loaders, in Dafny

This project models the parts of the hbc repository (the Homebrew Channel and its tools) in which
something has to be inverted, indexed or kept in step, and proves that it is.

- **LZMA** (`wiipax/client/LzmaEnc.c`, `LzmaDec.c`, `lzma.c`). The adaptive range coder with its
  delayed carry, the bit trees, the length and distance coders, the twelve-state machine with its
  four recent distances, and the end mark; the decoder with its circular dictionary, its streaming
  front end and its one-call interface. `RangeCoder`, `LzmaSymbols` and `LzmaMachine` say what one
  decision, one symbol and one step of the machine are, as functions on values. The classes
  `RangeEncoder.RangeEnc`, `LzmaEncoder.LzmaEnc` and `LzmaDecoder.LzmaDec` update their fields in
  place as the C code does and are proved against these functions.
- **The match finder** (`LzFind.c`, `LzHash.h`). A sliding window over the input, hash tables, and a
  cyclic `son` array that holds either hash chains or binary trees of suffixes. The class
  `LzFind.MatchFinder` is proved against trees and chains as values.
- **GF(2^233)** (`pywii/ecmodule/_ecmodule.c`). Elements are thirty bytes that stand for
  polynomials; polynomials are natural numbers with carry-less addition and multiplication.
- **The packer and its stub** (`wiipax/client/main.c`, `wiipax/stub/elf.c`, `wiipax/stub/main.c`).
  Stripping an ELF file, appending compressed data to another, and loading the result from memory
  into memory.
- **ADPCM** (`channel/banner/tools/mkbns.c`). The closed-loop encoder and its decoder.
- **SHA-1** (`channel/channelapp/source/sha1.c`). The transform with its sixteen-word schedule and its
  five registers that trade places, against the form of FIPS 180-4; updates in pieces; the padding.
- **The glyph cache** (`channel/channelapp/source/font.c`). A chained table inside a growing array.

Files are modules of the same name. The order in which they build on each other: `Numbers`;
`RangeCoder`, `RangeRoundTrip`; `LzmaSymbols`, `LzmaLookahead`, `LzmaMachine`, `LzmaRoundTrip`;
`LzmaTrees`, `RangeEncoder`, `PosSlots`, `LzmaKnown`, `LzmaBitCount`, `LzmaEncoder`; `LzmaLayout`,
`LzmaStreaming`, `LzmaDictionary`, `LzmaDecoder`, `LzmaTryDummy`, `LzmaDecodeToDic`, `LzmaDecode`,
`LzmaPack`; `Gf2Poly`, `EcFermat`, `EcField`, `EcKnown`; `LzHash`, `LzSuffixTree`, `LzFindTree`,
`LzFindChain`, `LzFindIndex`, `LzFindCover`, `LzFind`, `LzmaParse`, `LzmaBackward`; `Elf32`, `ElfStrip`,
`ElfStripped`, `ElfLoad`, `ElfMeaning`, `ElfInject`, `ElfInjected`, `ElfExamples`, `ElfKnown`, `WiiPax`,
`WiiPaxStub`, `WiiPaxClient`; `BnsAdpcm`, `BnsKnown`; `BitWords`, `Sha1`, `Sha1Known`, `Sha1Stream`;
`GlyphCache`.

The code and what it is proved against share definitions such as the adaptation of a cell or the
rotation of a word. The modules whose names end in `Known` fix what these compute, by literal
examples, beside laws such as `RangeCoder.AdaptApproaches` and `LzHash.HashBits`.

`dafny verify dfyconfig.toml` checks all of it.

## Findings

Where a function does not do what it is for, the exact condition is proved, and a lemma has an input at
which it fails. Each entry says whether the rest of the repository can bring it about.

- **`lzma_decode` spoils its output.** Its last statement stores the length in the first byte of the
  decoded data (`*dst = len_out`, `wiipax/client/lzma.c:96`), where the length was to be returned.
  `LzmaPack.LzmaDecodeClient`: the data comes back intact exactly when its first byte is the low
  byte of its length. `ElfStripped.FirstByteIsNotLength`: no file that `main.c` hands to it has this
  property, since a stripped file starts with 0x7F and its length is a multiple of 32. It happens on
  every run of the packer; as `main.c` frees the decoded data right away, the packed file is not affected.
- **`inject_elf` may return an address where the data is not.** It only sets the top bit of the
  physical address (`wiipax/client/main.c:393-394`), the loader also clears bit 30
  (`wiipax/stub/elf.c:74-75`). `ElfInjected.DataAddrExact`: the address is right exactly when bit 30
  is clear and the segment, as the loader translates it, ends below 2^32. `ElfExamples.FarStubMisplaced`
  is a stub for which 0xC0004020 is returned and the data is at 0x80004020. It does not happen with
  the stubs there are: `inject_elf` is static and only gets one of the six built into the packer
  (`wiipax/client/main.c:35-43`, `64-83`), which are linked to 0x00004000 or 0x80004000.
- **`map_file_offset` claims one place too many**, the one right behind a segment
  (`wiipax/client/main.c:246`): `ElfInject.ClaimInside`. It is only asked for the payload section of a
  built-in stub, which lies inside of its segment.
- **A program with nothing to load is not started.** `load_elf_image` returns 0 for a file without
  program headers (`wiipax/stub/elf.c:55`), and `strip_elf` writes one when it keeps none:
  `ElfMeaning.StripPreservesLoad` has the exact condition, `ElfExamples.NoteOnlyNotStarted` a file of one
  note header. The packer accepts such a file from its user.
- **`SHA1Update` overruns its buffer when `j + len` wraps around 2^32**, where the whole data is copied
  as the rest of a block (`channel/channelapp/source/sha1.c:121-130`): with 63 bytes buffered, 2^32 - 1
  more do. `Sha1Stream.CopyOverruns` is that input and `Sha1Stream.CopyFits` the exact condition; for
  every other length the update is right. The channel only calls `SHA1`, which hashes all its data at
  once from an empty buffer and cannot wrap around (`Sha1Stream.Sha1Of`).
- **A glyph for codepoint -1 is rendered on each call while its place in the root table is empty**, as -1
  marks an empty place (`channel/channelapp/source/font.c:227`): `GlyphCache.FontFace.GetChar` has
  the exact condition, `GlyphCache.MinusOneTwice` two calls. Every other codepoint is rendered once. The
  callers pass 'M' and what `utf8_get_char` returns (`font.c:396-440`), which is -1 only for the byte
  0xFF where plain `char` is signed; it is unsigned on the console's processor.
- **The comment on the longest symbol is short by one bit.** `wiipax/client/LzmaDec.h:41-42` counts 22
  adaptive and 26 direct bits. `LzmaBitCount.SymbolTakes` counts every symbol exactly: a match in a
  slot below 14 has up to 23 adaptive bits and no direct ones. `LzmaBitCount.BoundsMet` has matches that
  take as many. The bound of twenty bytes is right for both (`LzmaLookahead.TwentyBytes`).

## Model

| member | source | states |
|---|---|---|
| RangeCoder.ShiftLowExact | wiipax/client/LzmaEnc.c:530-549 | `ShiftLow` multiplies the exact value of everything written, cached and pending by 256, although bytes go out before their carry is known |
| RangeCoder.PutKeepsInv | wiipax/client/LzmaEnc.c:558-594 | every decision keeps the carry invariant: no carry runs past the cached byte, and one shift per bit is enough |
| RangeCoder.PutAsk | wiipax/client/LzmaDec.c:17-21 | one decision: the decoder reads the bit that was put, whatever its cell or with even odds, and encoder and decoder stay in step |
| RangeCoder.FitsBack | wiipax/client/LzmaEnc.c:558-594 | a stream inside the interval after a bit was inside the interval before it |
| RangeCoder.FlushExact | wiipax/client/LzmaEnc.c:551-556 | five shifts write exactly the bytes of the pending value, which lies in the interval |
| RangeCoder.DirectStepMeaning | wiipax/client/LzmaDec.c:333-341 | the branch-free step on wrapping 32-bit words compares and subtracts |
| RangeCoder.AdaptApproaches | wiipax/client/LzmaEnc.c:580-586 | a cell goes a 32nd of the way to 2048 after a 0 and to 0 after a 1, less than one unit short of it, and only rests where less than 32 are left |
| RangeCoder.PutApproaches | wiipax/client/LzmaEnc.c:573-594 | a decision does this to its own cell, and nothing to any other |
| RangeRoundTrip.DecisionsRoundTrip | wiipax/client/LzmaEnc.c:530-594 | any sequence of decisions with any choice of cells, encoded, flushed and decoded: the same bits and final cells, a zero first byte, nothing left over, and after every decision `code` is the stream's value minus the encoder's and below `range` |
| LzmaSymbols.SymbolRoundTrip | wiipax/client/LzmaEnc.c:1787-1884 | any symbol in any context: decoding what was emitted gives the symbol back and leaves encoder and decoder in step |
| LzmaSymbols.StepWf | wiipax/client/LzmaDec.c:166-382 | every place in a symbol's decision tree stays well formed: indices, slots and partial distances in their ranges |
| LzmaRoundTrip.SendAllStep | wiipax/client/LzmaEnc.c:1771-1886 | along any admissible parse the decoder takes the encoder's symbols one by one and has the same states, recent distances (plus one) and literal contexts |
| LzmaRoundTrip.StreamRoundTrip | wiipax/client/LzmaEnc.c:1754-1917 | any data, any admissible parse, with or without end mark: the decoder ends with exactly the data, `code == 0`, and every byte of the stream consumed |
| LzmaKnown.KnownStream | wiipax/client/LzmaEnc.c:1754-1917 | the whole stream of two equal literals, in which every cell is used twice: 00 30 99 47 0B A8 00 |
| LzmaKnown.HighLengthBits | wiipax/client/LzmaEnc.c:754-775 | cells and bits of the longest match, from its high length tree on |
| LzmaKnown.FarSlot | wiipax/client/LzmaEnc.c:1855-1877 | and of the slot of its distance |
| LzmaKnown.DirectBits | wiipax/client/LzmaDec.c:301-368 | and of the two direct bits |
| LzmaKnown.AlignBits | wiipax/client/LzmaDec.c:301-368 | and of the four align bits, which end it |
| LzmaKnown.MidLength | wiipax/client/LzmaEnc.c:754-775 | cells and bits of a match of length 12, in the middle length tree of its position |
| LzmaKnown.FooterBits | wiipax/client/LzmaEnc.c:1855-1877 | the cells of a short footer in their shared table |
| LzmaKnown.Matched | wiipax/client/LzmaDec.c:180-196 | the cells of a literal after a match, chosen by the byte at the recent distance |
| LzmaKnown.MatchedRest | wiipax/client/LzmaDec.c:180-196 | until the two bytes part |
| LzmaKnown.Recent3 | wiipax/client/LzmaEnc.c:1822-1843 | the bits that choose the oldest recent distance |
| LzmaKnown.RecentByte | wiipax/client/LzmaEnc.c:1822-1843 | and a single byte at the most recent one |
| LzmaKnown.EndMarkBits | wiipax/client/LzmaEnc.c:1618-1629 | the end mark has all bits of its distance set, the 26 direct ones and then the align bits |
| LzmaKnown.NextStates | wiipax/client/LzmaEnc.c:466-469 | the four tables of next states as arithmetic |
| LzmaKnown.NextDistances | wiipax/client/LzmaEnc.c:1828-1881 | how each kind of symbol reorders four recent distances |
| LzmaKnown.Contexts | wiipax/client/LzmaDec.c:164-187 | the position bits, the literal context and the byte at the recent distance at five places in a text |
| LzmaKnown.LengthContexts | wiipax/client/LzmaEnc.c:473 | which lengths have slot trees of their own |
| LzmaLookahead.TwentyBytes | wiipax/client/LzmaDec.h:41-44 | one symbol and the last normalization take at most twenty bytes, from any normalized state and with any cells |
| LzmaBitCount.SymbolTakes | wiipax/client/LzmaDec.h:41-42 | the adaptive and direct bits of every symbol, counted exactly; at most 23 and none for a match in a slot below 14, at most 22 and 26 from slot 14 on |
| LzmaBitCount.BoundsMet | wiipax/client/LzmaDec.h:41-42 | two matches that take as many |
| LzmaLookahead.DummyAgrees | wiipax/client/LzmaDec.c:495-683 | decoding a symbol without adapting any cell takes the same branches and bytes as decoding it for real, since no cell is visited twice |
| LzmaLookahead.RunLocal | wiipax/client/LzmaDec.c:17-21 | a symbol depends on no byte behind the ones it reads |
| LzmaMachine.StepOk | wiipax/client/LzmaDec.c:137-433 | a step of the machine keeps its invariant, and every distance it follows lies within the output |
| LzmaMachine.NextRepsOk | wiipax/client/LzmaEnc.c:1828-1881 | the recent distances stay within the history |
| LzmaTrees.EmitLit | wiipax/client/LzmaEnc.c:596-619 | a symbol's path through the decision tree puts what the loops over a literal put, matched or not |
| LzmaTrees.EmitLen | wiipax/client/LzmaEnc.c:754-775 | the same for the trees of the length coder |
| LzmaTrees.EmitSlot | wiipax/client/LzmaEnc.c:687-699 | the same for the distance slot |
| LzmaTrees.EmitSpec | wiipax/client/LzmaEnc.c:701-712 | the same for the reverse tree of a middle slot's footer |
| LzmaTrees.EmitEven | wiipax/client/LzmaEnc.c:558-571 | the same for the direct bits of a high slot's footer |
| LzmaTrees.EmitAligned | wiipax/client/LzmaEnc.c:701-712 | the same for its four align bits |
| RangeEncoder.RangeEnc.ShiftLow | wiipax/client/LzmaEnc.c:530-549 | the fields become those of the specification, through the loop over pending bytes |
| RangeEncoder.RangeEnc.EncodeBit | wiipax/client/LzmaEnc.c:573-594 | puts one adaptive decision, and its cell approaches the bit |
| RangeEncoder.RangeEnc.EncodeDirectBits | wiipax/client/LzmaEnc.c:558-571 | puts the bits of a number, the highest first |
| RangeEncoder.RangeEnc.EncodeLiteral | wiipax/client/LzmaEnc.c:596-605 | puts the eight decisions of a literal |
| RangeEncoder.RangeEnc.EncodeMatched | wiipax/client/LzmaEnc.c:607-619 | the mask arithmetic on `offs` and `symbol` selects the cells of the matched-literal tree |
| RangeEncoder.RangeEnc.TreeEncode | wiipax/client/LzmaEnc.c:687-699 | puts a number into a bit tree |
| RangeEncoder.RangeEnc.TreeReverseEncode | wiipax/client/LzmaEnc.c:701-712 | puts a number into a reverse bit tree |
| RangeEncoder.RangeEnc.FlushData | wiipax/client/LzmaEnc.c:551-556 | writes out everything pending |
| PosSlots.FastPosInit | wiipax/client/LzmaEnc.c:107-122 | the table holds the slot of every distance it covers |
| PosSlots.GetPosSlot | wiipax/client/LzmaEnc.c:122-132 | the slot of any distance, from the table by shifting |
| LzmaEncoder.LzmaEnc.LenEncode | wiipax/client/LzmaEnc.c:754-775 | emits the length part of a symbol |
| LzmaEncoder.LzmaEnc.DistanceEncode | wiipax/client/LzmaEnc.c:1855-1877 | emits slot, footer and align bits of a distance |
| LzmaEncoder.LzmaEnc.RepEncode | wiipax/client/LzmaEnc.c:1822-1843 | emits which recent distance is meant and moves it to the front |
| LzmaEncoder.LzmaEnc.LiteralEncode | wiipax/client/LzmaEnc.c:1801-1816 | emits a literal in its context |
| LzmaEncoder.LzmaEnc.CodeSymbol | wiipax/client/LzmaEnc.c:1787-1886 | one round of the coding loop emits the parser's decision and moves every field as the specification says |
| LzmaEncoder.LzmaEnc.WriteEndMarker | wiipax/client/LzmaEnc.c:1618-1629 | emits the end mark |
| LzmaEncoder.LzmaEnc.Encode | wiipax/client/LzmaEnc.c:1754-1917 | the bytes written for any admissible sequence of decisions are the stream of the specification |
| LzmaLayout.OffInjective | wiipax/client/LzmaDec.c:94-110 | no two cells share a place in the decoder's flat array |
| LzmaLayout.OffInRegion | wiipax/client/LzmaDec.c:94-110 | every cell lies inside of the array |
| LzmaDecoder.LzmaDec.GetBit | wiipax/client/LzmaDec.c:17-25 | one adaptive decision on the flat array; the cell at the index approaches the bit, and no other changes |
| LzmaDecoder.LzmaDec.MatchedDecode | wiipax/client/LzmaDec.c:180-196 | a literal after a match, by the masked index |
| LzmaDecoder.LzmaDec.DistanceDecode | wiipax/client/LzmaDec.c:301-368 | slot, footer and align bits give the distance |
| LzmaDecoder.LzmaDec.CopyMatch | wiipax/client/LzmaDec.c:388-416 | both copy loops write what copying byte by byte from the history writes, across the end of the circular buffer |
| LzmaDecoder.LzmaDec.DecodeSymbol | wiipax/client/LzmaDec.c:159-417 | one round of the decoding loop is one step of the machine; as much of a match as does not fit stays owed |
| LzmaDecoder.LzmaDec.DecodeReal | wiipax/client/LzmaDec.c:137-433 | decodes up to the limits; every field shows the machine's place in the stream |
| LzmaDecoder.LzmaDec.WriteRem | wiipax/client/LzmaDec.c:436-460 | writes owed bytes as room allows |
| LzmaDecoder.LzmaDec.DecodeReal2 | wiipax/client/LzmaDec.c:462-487 | stopping at the point where the dictionary is full changes nothing |
| LzmaTryDummy.TryDummy | wiipax/client/LzmaDec.c:495-683 | reports an error exactly when the next symbol does not fit into the bytes at hand, and otherwise the symbol's kind |
| LzmaDecodeToDic.PastOld | wiipax/client/LzmaDec.c:814-840 | a symbol that did not fit takes more than the bytes there were, so `lookAhead` never underflows |
| LzmaDecodeToDic.FromTempBuf | wiipax/client/LzmaDec.c:803-841 | completing a symbol in `tempBuf` takes from the input exactly what the symbol needs |
| LzmaDecodeToDic.DecodeToDic | wiipax/client/LzmaDec.c:727-846 | after any call the fields show what the bytes taken so far decode to; failures have one of the listed causes |
| LzmaStreaming.ChunkIndependence | wiipax/client/LzmaDec.c:727-846 | decoding what is there and going on with more is decoding it all at once |
| LzmaStreaming.EncodeThenDecode | wiipax/client/LzmaDec.c:727-846 | draining an encoded stream ends at its end mark with all of the data |
| LzmaDecode.DecodeChunks | wiipax/client/LzmaDec.c:727-846 | with output room to spare, feeding a stream in any pieces gives the result, status, bytes consumed and dictionary contents of decoding it whole |
| LzmaDecode.CutsAgree | wiipax/client/LzmaDec.c:727-846 | two ways to cut the same stream: same result, status, input consumed, and the same dictionary byte at every distance |
| LzmaDecode.PropsDecode | wiipax/client/LzmaDec.c:906-930 | five bytes are accepted if and only if the first is below 225; lc, lp and pb are its digits, and the dictionary size is the number of which the second is the lowest byte, but at least 4096 |
| LzmaDecode.Decode | wiipax/client/LzmaDec.c:977-1007 | what each result of the one-call interface means for the stream |
| LzmaPack.RoundUp | wiipax/client/LzmaEnc.c:2207-2234 | the least size of the form 2 << i or 3 << i from the dictionary size on |
| LzmaPack.PropsRoundTrip | wiipax/client/LzmaEnc.c:2207-2234 | the five header bytes are read back as written |
| LzmaPack.PropsReadBack | wiipax/client/LzmaDec.c:906-930 | writing what was read gives the five bytes again, but for a dictionary size below 4096, which is raised |
| LzmaPack.KnownProps | wiipax/client/LzmaDec.c:906-930 | 5D 00 00 01 00 is lc = 3, lp = 0, pb = 2 and 64 KB, written and read |
| LzmaPack.WriteProperties | wiipax/client/LzmaEnc.c:2207-2234 | the five bytes announce the least size of these forms that is large enough, and the same lc, lp and pb |
| LzmaPack.PackedPlaces | wiipax/client/LzmaDec.c:137-433 | no place in an encoded stream has more output than the data, and the end mark follows the last |
| LzmaPack.PackedCall | wiipax/client/LzmaDec.c:977-1007 | whatever the one-call interface may return for an encoded stream is success, with the data |
| LzmaPack.Compress | wiipax/client/lzma.c:45-79 | header and stream that a decoder with at least as large a dictionary reads |
| LzmaPack.Decompress | wiipax/stub/main.c:39-60 | success, the length, and exactly the data |
| LzmaPack.LzmaDecodeClient | wiipax/client/lzma.c:81-97 | the data with its first byte replaced by the low byte of the length; intact exactly when these are the same |
| LzHash.Hash2Match | wiipax/client/LzHash.h:22-26 | equal first bytes and equal two-byte hashes force equal second bytes |
| LzHash.Hash3Match | wiipax/client/LzHash.h:22-26 | equal first bytes and equal three-byte hashes force three equal bytes |
| LzHash.HashBits | wiipax/client/LzHash.h:22-26 | each bit of the four-byte hash is the parity of its four bits in the table entry of the first byte, the second byte, the third one byte up, and the table entry of the fourth five bits up |
| LzHash.ShortHashBits | wiipax/client/LzHash.h:22-26 | and so for the hashes of two and three bytes |
| LzSuffixTree.Squeeze | wiipax/client/LzFind.c:343-396 | a text between two that agree agrees with both: why min(len0, len1) bytes may be skipped |
| LzSuffixTree.WalkOrdered | wiipax/client/LzFind.c:343-396 | splitting a tree at a new position keeps both parts ordered, one below and one above it |
| LzSuffixTree.InsertedOrdered | wiipax/client/LzFind.c:343-446 | the tree with the new position on top is ordered, children older than parents |
| LzSuffixTree.WalkSound | wiipax/client/LzFind.c:343-396 | every reported pair is a real match of the greatest length, lengths strictly rising |
| LzSuffixTree.WalkComplete | wiipax/client/LzFind.c:343-396 | for every position of the tree, a search that is not cut short reports a match at least as long and at least as near |
| LzSuffixTree.OrderedShorter | wiipax/client/LzFind.c:236-258 | near the end of the input, where fewer bytes are compared, the trees are still ordered |
| LzFindTree.SkipJustified | wiipax/client/LzFind.c:360-369 | the bytes that the comparison loop skips agree |
| LzFindTree.SpliceRep | wiipax/client/LzFind.c:343-446 | the pointer writes of a search leave both parts of the tree in the cyclic array |
| LzFindTree.SearchKeeps | wiipax/client/LzFind.c:343-446 | and leave every other tree alone |
| LzFindTree.GetMatchesSpec1 | wiipax/client/LzFind.c:343-396 | the loop reports the walk's matches and writes its pointers |
| LzFindTree.SkipMatchesSpec | wiipax/client/LzFind.c:398-446 | skipping writes the same pointers as searching |
| LzFindChain.ChainSound | wiipax/client/LzFind.c:312-341 | the matches along a chain are real and rise |
| LzFindChain.ChainComplete | wiipax/client/LzFind.c:312-341 | for every position of the chain, a search that is not cut short reports a match at least as long and at least as near |
| LzFindChain.HcGetMatchesSpec | wiipax/client/LzFind.c:312-341 | the loop reports the chain's matches and links the position in |
| LzFindIndex.TreesInserted | wiipax/client/LzFind.c:529-574 | entering a position keeps every hash head and tree valid, while the oldest positions leave the ring |
| LzFindIndex.ChainsInserted | wiipax/client/LzFind.c:576-623 | the same for chains: each holds all positions of the ring with its hash, newest first |
| LzFindIndex.TreesNorm | wiipax/client/LzFind.c:275-299 | renaming all positions leaves every tree as it is |
| LzFindIndex.NormLive | wiipax/client/LzFind.c:280-292 | a live entry keeps its distance, a dead one stays dead |
| LzFindCover.WalkKeeps | wiipax/client/LzFind.c:343-446 | a search that is not cut short drops at most a position that agrees with the new one as far as comparisons see |
| LzFindCover.CoverInserted | wiipax/client/LzFind.c:529-574 | so every position of the ring stays in its tree, or a later one that stands for it does |
| LzFind.IndexNorm | wiipax/client/LzFind.c:294-299 | renormalization is invisible to the whole index |
| LzFind.MatchFinder.ReadBlock | wiipax/client/LzFind.c:57-79 | the window goes on showing the stream, up to the wanted lookahead, a full buffer or the end |
| LzFind.MatchFinder.MoveBlock | wiipax/client/LzFind.c:81-87 | moving the window keeps all history that may still be used and never reads before the buffer |
| LzFind.MatchFinder.CheckAndMoveAndRead | wiipax/client/LzFind.c:103-108 | afterwards there is enough lookahead, or the input is at its end |
| LzFind.MatchFinder.SetLimits | wiipax/client/LzFind.c:236-259 | up to the new limit no check is due, and comparisons see min(matchMaxLen, rest) bytes |
| LzFind.MatchFinder.Normalize | wiipax/client/LzFind.c:294-299 | positions shrink, the index is the same, and `pos` never wraps |
| LzFind.MatchFinder.CheckLimits | wiipax/client/LzFind.c:301-310 | re-establishes the whole invariant |
| LzFind.MatchFinder.Init | wiipax/client/LzFind.c:261-273 | establishes the whole invariant |
| LzFind.MatchFinder.Hc4GetMatches | wiipax/client/LzFind.c:576-623 | real matches inside the ring with rising lengths, each as long as can be; the newest positions with the same two-byte and three-byte hash are among them whenever their first byte is right; with `cutValue` as large as the ring, each match of four bytes or more in it is met by a reported one at least as long and at least as near |
| LzFind.MatchFinder.Hc4Skip | wiipax/client/LzFind.c:694-709 | keeps the invariant |
| LzFind.MatchFinder.Bt4GetMatches | wiipax/client/LzFind.c:529-574 | the same with trees: over the tree when the search is not cut short, and over all distances when none ever was |
| LzFind.MatchFinder.Bt4Skip | wiipax/client/LzFind.c:678-692 | keeps the invariant |
| LzFind.CoverLongest | wiipax/client/LzFind.c:529-574 | what is longest and nearest in a tree that covers the ring is so by brute force |
| LzFind.LastLongest | wiipax/client/LzFind.c:529-623 | then the last reported pair is the longest match of the ring |
| LzFind.ShortReported | wiipax/client/LzFind.c:544-564 | what the two short tables suggest is exactly the newest positions with the same hashes and the same first byte, and no position that agrees in three bytes is nearer than the last |
| LzmaParse.ReportsAdmissible | wiipax/client/LzmaEnc.c:837-875 | every pair the finder reports is an admissible match for the encoder |
| LzmaBackward.PathLeads | wiipax/client/LzmaEnc.c:912-946 | the links of the optimal parser, the composite ones written out, lead from 0 always ahead to the end |
| LzmaBackward.KnownWay | wiipax/client/LzmaEnc.c:912-946 | the steps of a match, then a match, a literal and a match in one link, then a literal and a match in one |
| LzmaBackward.ExpandedPath | wiipax/client/LzmaEnc.c:917-930 | writing a composite link out as its literal and the match before it does not change the way it stands for |
| LzmaBackward.Optimum.Backward | wiipax/client/LzmaEnc.c:912-946 | turns the links around in place: following them from 0 gives the steps of the original way one after the other, to `cur`, and the first is returned |
| LzmaBackward.Optimum.Next | wiipax/client/LzmaEnc.c:958-965 | hands out the next step of that way as a length and a distance, until it is used up |
| Gf2Poly.MulAssoc | pywii/ecmodule/_ecmodule.c:60-81 | carry-less multiplication is associative |
| Gf2Poly.SquareSpreads | pywii/ecmodule/_ecmodule.c:86-94 | squaring spreads the bits |
| Gf2Poly.CongUnique | pywii/ecmodule/_ecmodule.c:96-119 | a residue modulo x^233 + x^74 + 1 has one reduced representative |
| EcField.EltAdd | pywii/ecmodule/_ecmodule.c:34-40 | the sum, also in place |
| EcField.EltMulX | pywii/ecmodule/_ecmodule.c:42-58 | the product with x, reduced, also in place |
| EcField.EltMul | pywii/ecmodule/_ecmodule.c:60-81 | congruent to the polynomial product, and reduced |
| EcField.EltSquareToWide | pywii/ecmodule/_ecmodule.c:86-94 | the table gives the square before reduction |
| EcField.WideReduce | pywii/ecmodule/_ecmodule.c:96-119 | the word-wise folding keeps the residue and leaves it reduced |
| EcField.EltSquare | pywii/ecmodule/_ecmodule.c:121-126 | congruent to the product of the element with itself, and reduced |
| EcField.ProductUnique | pywii/ecmodule/_ecmodule.c:60-126 | reduced elements with congruent values are the same bytes, so squaring is multiplying with itself |
| EcKnown.KnownProduct | pywii/ecmodule/_ecmodule.c:60-81 | x times x^232 is x^74 + 1, byte for byte |
| EcField.ItohTsujii | pywii/ecmodule/_ecmodule.c:131-142 | a to the power 2^j, times b |
| EcField.EltInv | pywii/ecmodule/_ecmodule.c:144-160 | the addition chain ends at a to the power 2^233 - 2 |
| EcFermat.FermatPower | pywii/ecmodule/_ecmodule.c:144-160 | if the trinomial is irreducible, everything it does not divide has power 2^233 - 1 equal to one |
| EcField.InvertsNonZero | pywii/ecmodule/_ecmodule.c:144-160 | then `elt_inv` is an inverse exactly for what is not zero |
| ElfStrip.RoundUpCeil | wiipax/client/common.h:13 | `round_up` on wrapping 32-bit numbers rounds up to a multiple of 32, modulo 2^32 |
| ElfKnown.LoadableBytes | wiipax/client/elf_abi.h:409-421 | a program header is to be loaded just if its first four bytes are 00 00 00 01 |
| ElfKnown.PhdrReads | wiipax/client/elf_abi.h:408-417 | its eight fields are the big-endian numbers at bytes 0, 4, 8, 12, 16, 20, 24 and 28 |
| ElfKnown.KeptBytes | wiipax/client/main.c:319-328 | it is kept just if it is to be loaded and neither its file size nor its memory size is 0 |
| ElfKnown.EhdrReads | wiipax/client/main.c:162-198 | where the entry point, the place and the number of the program headers are |
| ElfStrip.Elf.InitElf | wiipax/client/main.c:162-198 | succeeds exactly for header tables inside of the file |
| ElfStrip.Measure | wiipax/client/main.c:265-283 | the first pass measures what the second writes |
| ElfStrip.StripElf | wiipax/client/main.c:258-359 | writes exactly the stripped file; fails exactly when it is over 20 MB or the wanted header is not kept; translates that header's index |
| ElfKnown.KnownStrip | wiipax/client/main.c:258-359 | a file of 124 bytes with a note and a segment, and the 128 bytes it is stripped to |
| ElfStripped.StrippedHeader | wiipax/client/main.c:296-315 | the new header counts the kept headers and keeps the entry point |
| ElfStripped.StrippedPhdr | wiipax/client/main.c:334-341 | each new program header reads back as the kept one with its new place |
| ElfStripped.StrippedSegment | wiipax/client/main.c:343-352 | each segment is where its header says, byte for byte |
| ElfStripped.PlacesApart | wiipax/client/main.c:317-352 | segments are disjoint, behind the headers and in the file |
| ElfStripped.PlaceAligned | wiipax/client/main.c:317-352 | and start at multiples of 32 |
| ElfStripped.FirstByteIsNotLength | wiipax/client/lzma.c:96 | so the last statement of `lzma_decode` spoils every file it gets |
| ElfLoad.LoadElfImage | wiipax/stub/elf.c:47-108 | the loop over headers that it rewrites itself, with copies and clearing in one memory, does what the specification says |
| ElfKnown.KnownLoad | wiipax/stub/elf.c:47-108 | wherever those bytes are in memory, loading them puts the eight bytes of the segment at 0x80004000, changes nothing else outside of the image, and returns 0x80004004 |
| ElfLoad.Memcpy | wiipax/stub/string.c:71-80 | copies forwards, whatever overlaps |
| ElfLoad.CopyApart | wiipax/stub/string.c:71-80 | which is a plain copy when nothing overlaps |
| ElfMeaning.StepSame | wiipax/stub/elf.c:66-104 | one header: memory outside of the image changes as in the ideal load, and the headers and segments to come are still intact |
| ElfMeaning.StripThenLoad | wiipax/stub/elf.c:47-108 | the stub accepts the stripped file and leaves memory outside of it as an in-order load of the kept segments |
| ElfMeaning.DroppedHarmless | wiipax/client/main.c:319-328 | the headers that are dropped change nothing about a file that loads |
| ElfMeaning.StripPreservesLoad | wiipax/client/main.c:258-359 | strip and load leave the memory of the original's own load; the same entry point exactly when anything was kept |
| ElfExamples.NoteOnlyNotStarted | wiipax/stub/elf.c:55-58 | a file of one note header starts when loaded as it is, and is refused once it is stripped |
| ElfInject.MapFileOffset | wiipax/client/main.c:231-256 | the first header that claims the place |
| ElfInject.ClaimInside | wiipax/client/main.c:246 | a claimed place lies in the segment, except for the one right behind it |
| ElfInject.MappedBytes | wiipax/client/main.c:503-508 | header and offset found in the original name the same bytes in the stripped file |
| ElfInject.InjectElf | wiipax/client/main.c:361-408 | the whole new file, the returned address and the place in the file; refused exactly when the last segment has no-file memory |
| ElfKnown.KnownInject | wiipax/client/main.c:361-408 | three bytes behind a segment of eight: padding, data, header and address, byte for byte |
| ElfInjected.InjectedLoads | wiipax/client/main.c:361-408 | the packed file loads as the stub does, with padding and data behind its last segment |
| ElfInjected.DataAddrExact | wiipax/client/main.c:393-394 | the returned address is the run-time one if and only if bit 30 of the physical address is clear and the translated segment ends below 2^32 |
| ElfExamples.FarStubMisplaced | wiipax/client/main.c:393-394 | a stub for which the returned address is 2^30 away from the data |
| ElfInjected.DataAtReturned | wiipax/client/main.c:361-408 | then the data is there after the load |
| WiiPax.ShippedLoads | wiipax/client/main.c:503-512 | loading the file that ships leaves the data and the struct that describes it in memory |
| WiiPaxClient.Pack | wiipax/client/main.c:458-516 | succeeds exactly under the listed conditions, and then writes the stub with the compressed program and its description |
| WiiPaxClient.PackedReady | wiipax/stub/main.c:12-20 | once the packed file is loaded, the stub reads the right address, lengths, header and stream |
| WiiPax.KnownPayload | wiipax/stub/main.c:13-18 | the seventeen bytes of the struct |
| WiiPaxStub.DecodePayload | wiipax/stub/main.c:39-60 | the stripped program appears at the code buffer |
| WiiPaxStub.StubMain | wiipax/stub/main.c:62-109 | memory outside of the code buffer and the entry point are those of the original program's own load |
| WiiPaxClient.RunPacked | wiipax/stub/main.c:62-109 | from packer to program, end to end |
| BnsAdpcm.FindExp | channel/banner/tools/mkbns.c:125-136 | the least exponent that brings the residual into a nybble |
| BnsAdpcm.PredictBetween | channel/banner/tools/mkbns.c:115 | the prediction weighs the newer sample with the first factor and the older with the second, 2048 standing for 1, and rounds down |
| BnsAdpcm.LineBlock | channel/banner/tools/mkbns.c:99-123 | with the factors 2 and -1, a block of zero nybbles continues a straight line, until it is clamped |
| BnsAdpcm.TruncSign | channel/banner/tools/mkbns.c:149 | the prediction that only serves to find an exponent rounds towards zero instead |
| BnsKnown.ZeroBlock | channel/banner/tools/mkbns.c:99-123 | eight zero bytes after 0 and 2048: fourteen samples, from 674 on |
| BnsKnown.LoudBlock | channel/banner/tools/mkbns.c:99-123 | another table, an exponent, negative nybbles, clamping at both ends, and a highest bit that is ignored |
| BnsKnown.Impulses | channel/banner/tools/mkbns.c:33-42 | what each of the eight tables makes of a single sample just before the block, and of one before that |
| BnsAdpcm.DetermineStdExponent | channel/banner/tools/mkbns.c:138-156 | the least exponent that brings every positive residual, predicted from the original samples, into a nybble; at most 15 with the standard tables |
| BnsAdpcm.TryExponent | channel/banner/tools/mkbns.c:158-197 | accepts a block exactly when all its residuals are nybbles, as they are at exponent 15, and stores them |
| BnsAdpcm.CompressAdpcm | channel/banner/tools/mkbns.c:158-197 | always finishes: the exponent is the least from the standard one on with which all residuals of the closed loop are nybbles, these are stored, and the tracked history is what the decoder will have |
| BnsAdpcm.UnpackAdpcm | channel/banner/tools/mkbns.c:99-123 | decodes a block and updates the history |
| BnsAdpcm.PackChannel | channel/banner/tools/mkbns.c:200-218 | for any stream and any choice of tables, each block is the one `compress_adpcm` makes with its table, and decoding gives every sample back with 0 <= input - output < 2^exponent |
| BnsAdpcm.UnpackChannel | channel/banner/tools/mkbns.c:99-123 | the decoder over a channel computes that stream |
| BitWords.FastForms | channel/channelapp/source/sha1.c:36-40 | the two shortened round functions equal Ch and Maj of FIPS 180-4, section 4.1.1 |
| BitWords.RolDoubles | channel/channelapp/source/sha1.c:22 | rotating by one doubles modulo 2^32 and brings the carry back in |
| BitWords.RolFive | channel/channelapp/source/sha1.c:22 | rotating by five is rotating by one five times |
| BitWords.RolThirty | channel/channelapp/source/sha1.c:22 | rotating by thirty undoes rotating by two |
| BitWords.SwappedLoad | channel/channelapp/source/sha1.c:26-31 | the load for the other byte order gives the same word |
| Sha1.NextWord | channel/channelapp/source/sha1.c:32-33 | the circular sixteen words give word t of the eighty-word schedule of section 6.1.2 |
| Sha1.Round | channel/channelapp/source/sha1.c:36-40 | a macro, with its two changed registers, is one turn of section 6.1.2 step 3 with the registers renamed, and keeps the circular schedule |
| Sha1.Transform | channel/channelapp/source/sha1.c:45-95 | eighty rounds over a block update the state as the hash computation of section 6.1.2 |
| Sha1.BytesAreWords | channel/channelapp/source/sha1.c:150-153 | the digest's bytes, four at a time, are the five words of the hash value, most significant byte first |
| Sha1.CountReads | channel/channelapp/source/sha1.c:141-144 | the bytes of a counter word are the number, the most significant first |
| Sha1Known.KnownDigest | channel/channelapp/source/sha1.c:165-171 | the digest of "abc" is a9993e36 4706816a ba3e2571 7850c26c 9cd0d89d, by all words of its schedule and its working variables after every eighth turn |
| Sha1Stream.HashMore | channel/channelapp/source/sha1.c:122-126 | hashing a prefix and then one more block is hashing the longer prefix |
| Sha1Stream.CountStep | channel/channelapp/source/sha1.c:118-120 | the two counter words with their carry count bits modulo 2^64 |
| Sha1Stream.CopyFits | channel/channelapp/source/sha1.c:121-130 | the last copy stays inside the buffer if and only if `j + len` does not wrap around |
| Sha1Stream.Sha1Ctx.Update | channel/channelapp/source/sha1.c:114-131 | appends the data to the message that is hashed, for any split between buffer and whole blocks, if and only if `j + len` does not wrap around |
| Sha1Stream.PadLeast | channel/channelapp/source/sha1.c:146-148 | the zeros end where the length is 56 modulo 64 for the first time |
| Sha1Stream.Sha1Ctx.PadWith | channel/channelapp/source/sha1.c:145-148 | the padding loop ends, and appends one bit and as many zeros as section 5.1.1 asks for |
| Sha1Stream.Sha1Ctx.Final | channel/channelapp/source/sha1.c:136-163 | returns the digest of the whole message as FIPS 180-4 defines it, and wipes the context |
| Sha1Stream.Sha1Of | channel/channelapp/source/sha1.c:165-171 | the digest of the data |
| Sha1Stream.Sha1OfPieces | channel/channelapp/source/sha1.c:114-163 | updates with any pieces give the digest of the joined data, unless one of them wraps around |
| GlyphCache.LongerChain | channel/channelapp/source/font.c:233-243 | a chain stays rising, of one home and without a codepoint twice when a glyph is linked behind its last |
| GlyphCache.OtherChain | channel/channelapp/source/font.c:233-243 | that leaves the chains of all other homes as they were |
| GlyphCache.FontFace.Find | channel/channelapp/source/font.c:227-246 | the walk along `next_idx` ends, at the glyph if the chain has it and else at the chain's last |
| GlyphCache.FontFace.Append | channel/channelapp/source/font.c:233-243 | the new glyph is cached at a new index, also if the array had to grow, and every cached glyph stays where it was; nothing else becomes cached |
| GlyphCache.FontFace.GetChar | channel/channelapp/source/font.c:217-255 | over any run of calls: the glyph of the codepoint asked for, from the cache if it is there and else rendered once and cached, in its place in the root table or behind all other glyphs; nothing else is ever cached; the exception for codepoint -1 is exact |
| GlyphCache.MinusOneTwice | channel/channelapp/source/font.c:217-255 | on a new cache, codepoint -1 is rendered on the second call again |
| GlyphCache.KnownPlaces | channel/channelapp/source/font.c:217-255 | on a new cache, three codepoints that share a place in the root table are at 1, 64 and 65, and stay there |

## Left out

- Price tables and the search for a good parse (`GetOptimum`, `GetOptimumFast`, `Fill*Prices`): heuristics; the results hold for every admissible parse.
- The multithreaded match finder and memory allocation.
- `wiipax/stub/LzmaDec.c`: the same decoder as the client's.
- The encoder's probability tables are one map from named cells; `LzmaLayout` lays them out flat for the decoder, where the code does.
- `RangeEncoder.RangeEnc`: `out` stands for the bytes buffered and those already written; write errors are not modelled, and the 64-bit counters `cacheSize` and `processed` are unbounded.
- PosSlots.FastPosInit: the table is as large as on a host with an eight-byte `size_t`.
- LzmaDecoder.LzmaDec.DecodeReal: fields are updated directly, not through cached locals; the two differ only after a data error, about which nothing is claimed but its cause.
- `LzmaDec_DecodeToBuf`, and `LzmaDec_InitDicAndState` with a dictionary that is kept.
- LzFind.MatchFinder: the number of hash bits and the CRC table's contents are parameters (the table with the property that the hash shortcuts need); finders other than bt4 and hc4, input that is given in memory, and stream errors are left out. Both ways to write the comparison loop are one method.
- EcField.InvertsNonZero: that the trinomial is irreducible is a hypothesis.
- `elt_copy`-style helpers without a loop worth a contract of its own, the Python wrappers, and everything else in `pywii`.
- ElfStrip.StripElf: `check_elf` and the lookup of `.payload` by name are left out; the offset it finds is a parameter. Host arithmetic on `size_t` is that of a 64-bit host.
- ElfLoad.LoadElfImage: zeroing beyond `filesz` (which the code does not do), cache synchronization and messages.
- WiiPaxStub.DecodePayload: the decoder works in an array of its own, which is then copied to the code buffer; that its probability tables lie in memory too is not modelled.
- WiiPaxClient.Pack: reading and writing files and options; `die` is an empty result.
- BnsAdpcm.PackChannel: the floating-point error totals by which a table is chosen; any choice is covered. Only the standard tables are used.
- `channel/banner/tools/lz77.c`: it has no unconditional round trip.
- Sha1.Load: the C code's union reads words in the byte order of the machine; the model has the big-endian one, for which `LITTLE_ENDIAN` must not be defined. `BitWords.SwappedLoad` covers the other branch.
- Sha1Stream.Sha1Ctx.Update: nothing is promised of the context after a write behind the buffer, which the model stops at.
- GlyphCache.FontFace.GetChar: a rendered glyph is a function of its codepoint, also when FreeType fails; indexes stand for pointers, and a growth moves the array from under pointers handed out before.
- LzmaBackward.Optimum.Backward: prices, states and recent distances in the links; that the parser only writes links of the form assumed here.
- Everything that draws, plays, connects or stores: GX, FreeType, networking, NAND and FAT, XML, threads.
