# PKG_DoW decoders and common code, verified

A model in Dafny of the algorithms at the core of this emulator and its launcher, with proofs of what they
promise. `dafny verify dfyconfig.toml` checks all of it.

- **Inflate** (`Bits`, `CanonicalCode`, `BitReverse`, `Huffman`, `Deflate`, `DeflateLengths`, `DeflateHeader`,
  `DeflateStream`, `DeflateProgress`, `Refills`, `Courses`, `Endless`, `Inflate`, `LastSymbol`, `EndlessBlock`): the
  zlib decoder of the image loader. The DEFLATE format is defined by how blocks are *encoded* (section 3.2 of RFC
  1951); the decoder, with its bit buffer, its fast and slow Huffman path and its growing output, is proved to invert
  that encoding, in both directions. Whether it comes through is decided, for every input, by its course in sizes
  alone.
- **GIF** (`GifLzw`, `GifRaster`, `Gif`, `GifFrame`, `GifEncoder`): a frame from the bytes of its descriptor, colour
  table, sub-blocks and codes to the pixels of an interlaced picture; exactly when the decoder agrees with the LZW of
  the GIF89a standard; and that it inverts every encoder of that standard.
- **PNG** (`PngFilters`, `Png`, `Adam7`, `PngInterlace`): row filters, added alpha and the seven passes.
- **Fonts** (`SortEdges`, `HHeap`, `Cmap`, `Prefilter`, `Utf`): the two-stage sort of edges, the pool of blocks, the
  search for a segment, the box filter in place, and the comparison of names in two encodings.
- **Common code** (`Words`, `Runs`, `BitArrays`, `Calendar`, `Dates`, `Hash`): the bit set and its runs, dates as day
  numbers and times of day, the byte hash.
- **Launcher** (`GameLibrary`): adding a game to the library.

What changes in place in the source is a class or an array here: `Inflate.ZBuf` and `Huffman.ZHuffman` are the
decoder's two structures, `Gif.Gif` and `Gif.Context` those of the GIF loader, `BitArrays.BitArray`, `Dates.Date`,
`Dates.Time`, `HHeap.Pool` and `GameLibrary.Library` the other objects; rows, edges and pixels are arrays. Each
method is proved against a function on values, and the lemmas say what that function means.

Some of what the code does is worth knowing:

- The Huffman decoder refuses a symbol when fewer than 16 bits are buffered and no input is left. Which symbol that
  is depends on when the buffer was last filled, and so only on the sizes of what has been read: `Refills` counts the
  bytes fetched, and `Inflate.Decode` fails on a well-formed stream that fits exactly if this count says so. Two bytes
  from the start of the last symbol on are always enough (`Inflate.LastSymbolServes`); without them some streams are
  refused (`LastSymbol.OneByteMissing`).
- The format has no length symbols 286 and 287 and no distance symbols 30 and 31, but the decoder takes them: a length
  of 0, or a distance of 0. A block can go on for ever by copies of no bytes (`EndlessBlock.GoesOnForEver` is such
  a stream). It does exactly if it still runs after a number of turns that `Endless.NoEnd` gives.
- A comment in the GIF loader (`3rdparty/stb/stb_image.h:6635`) says that a missing clear code at the start is
  supported, but a string code before the first clear code is rejected; the model follows the code. The comparison of
  a code with the next free one after a new entry (line 6679) never sees them equal, since the free one has
  already moved on, and the entry is right all the same.
- The GIF table has 8192 entries where the standard stops adding at 4096 and goes on. `GifLzw.AgreesWithStandard`
  says exactly when this and the missing clear code make a difference, and `GifLzw.TableFull` and
  `GifLzw.MissingClear` are images where they do.
- The quicksort leaves cells between its two parts alone and does not touch short parts. It only guarantees that what
  it leaves is in coarse order; the sort is right because the insertion sort follows.
- The 16-bit hash is that of the two bytes reversed, and so not that of the two bytes unless they are equal.
- Conversion of a day number to a date overflows 32 bits outside -536,866,432 to 536,838,867, and only there; a date
  survives being set and read back for about 1,465,000 years in either direction.
- The search for a glyph forgets to add the segment's difference to a glyph from the array (`Cmap.DeltaForgotten`).
- The comparison of UTF-16 takes a high surrogate and any unit after it for a pair, and so finds some text that is not
  well-formed to be the same as text that is (`Utf.Mistaken`).

## Model

| member | source | states |
|---|---|---|
| `CanonicalCode.PrefixFree` | 3rdparty/stb/stb_image.h:4095-4109 | No two code words of the canonical code agree on any window of bits that covers both: at most one symbol matches at a place of the stream. |
| `CanonicalCode.KraftByLength` | 3rdparty/stb/stb_image.h:4067-4094 | The Kraft sum taken symbol by symbol is the sum taken length by length, which is the form the builder runs through. |
| `CanonicalCode.EndFits` | 3rdparty/stb/stb_image.h:4083-4091 | When the Kraft sum is at most 1, the codes of every length fit in that many bits: the builder's check never fires. |
| `CanonicalCode.Overflow` | 3rdparty/stb/stb_image.h:4089-4090 | When the codes of some length do not fit, the Kraft sum exceeds 1: the builder's check fires only then. |
| `CanonicalCode.LastFits` | 3rdparty/stb/stb_image.h:4083-4093 | If the running code is still in range after the last length, the Kraft sum is at most 1: nothing else has to be checked. |
| `CanonicalCode.SymbolIs` | 3rdparty/stb/stb_image.h:4166-4202 | The reference decoder yields symbol i exactly when the canonical code of i starts at the place, for every length table and every data. |
| `CanonicalCode.NoSymbol` | 3rdparty/stb/stb_image.h:4177-4178 | It yields nothing when no code word is a prefix of the data at the place. |
| `CanonicalCode.CodeWordSpelled` | 3rdparty/stb/stb_image.h:4095-4109 | The data spell the code word of i, most significant bit first (section 3.1.1 of RFC 1951), exactly when i matches there. |
| `CanonicalCode.CodeReadsBack` | 3rdparty/stb/stb_image.h:4185-4202 | Round trip: reading where a code word is spelled yields its symbol and its end, and whatever is read is spelled there. |
| `CanonicalCode.CodesConsecutive` | 3rdparty/stb/stb_image.h:4095-4109 | Symbols with codes of the same length have consecutive numbers, in their order: the first rule of section 3.2.2 of RFC 1951. |
| `CanonicalCode.FirstFollows` | 3rdparty/stb/stb_image.h:4083-4091 | The first code of a length is twice the number after the last shorter one. |
| `CanonicalCode.Example` | 3rdparty/stb/stb_image.h:4067-4112 | The example in section 3.2.2 of RFC 1951 has the eight codes that are given there. |
| `BitReverse.SwapAt` | 3rdparty/stb/stb_image.h:4050-4058 | The four mask-and-shift steps on 16 bits move every bit i to place 15 - i. |
| `BitReverse.ReverseBitsIsRev` | 3rdparty/stb/stb_image.h:4060-4065 | Reversing 16 bits and shifting right is the reversal of the low `bits` bits, for every value and every width up to 16. |
| `Huffman.SlotInjective` | 3rdparty/stb/stb_image.h:4098-4101 | Different symbols with a code get different slots of `size` and `value`. |
| `Huffman.SlotBound` | 3rdparty/stb/stb_image.h:4098-4101 | Every slot lies inside the tables, so sorting by code never writes past the number of symbols. |
| `Huffman.FastUnique` | 3rdparty/stb/stb_image.h:4103-4108 | No entry of the fast table is claimed by two symbols. |
| `Huffman.MatchesOfCode` | 3rdparty/stb/stb_image.h:4104-4108 | The entries that belong to a short code are exactly those whose low bits are the reversed code. |
| `Huffman.GapAfter` | 3rdparty/stb/stb_image.h:4104-4108 | Walking from the reversed code in steps of 2^s misses no such entry and meets no other. |
| `Huffman.ZHuffman.CountSizes` | 3rdparty/stb/stb_image.h:4072-4077 | The counting loop yields the number of symbols of every length. |
| `Huffman.ZHuffman.AssignRanges` | 3rdparty/stb/stb_image.h:4080-4094 | Fails exactly when the Kraft sum is above 1; otherwise `firstcode`, `firstsymbol` and `maxcode` are the ranges of the canonical code. |
| `Huffman.ZHuffman.FillSymbol` | 3rdparty/stb/stb_image.h:4095-4111 | One symbol: keeps that the tables hold the canonical code of all symbols so far, and that the next code of every length is right. |
| `Huffman.ZHuffman.MarkFast` | 3rdparty/stb/stb_image.h:4103-4108 | Changes every entry of the fast table that starts with the code, and no other entry. |
| `Huffman.ZHuffman.FillTables` | 3rdparty/stb/stb_image.h:4095-4111 | After the last symbol `size`, `value` and `fast` are those of the canonical code, with nothing left over. |
| `Huffman.ZHuffman.Build` | 3rdparty/stb/stb_image.h:4067-4112 | For all lengths 0 to 15: accepted if and only if the Kraft sum is at most 1, the defensive size check never fires, and then all five tables are those of the canonical code of section 3.2.2 of RFC 1951. |
| `Deflate.CopyBackRepeats` | 3rdparty/stb/stb_image.h:4271-4277 | The overlapping copy keeps the old output and makes each new byte equal to the one `dist` before it, for every length and distance. |
| `Deflate.TokenDecodes` | 3rdparty/stb/stb_image.h:4245-4277 | A literal or copy is read at a place if and only if its encoding (section 3.2.5 of RFC 1951) is spelled there; the reading ends where the encoding does. The reserved length symbols are copies of no bytes. |
| `Deflate.BodyDecodes` | 3rdparty/stb/stb_image.h:4240-4280 | Completeness: where the tokens of a block and its end symbol are spelled, decoding yields what the tokens mean, or an error if one reaches back too far. |
| `Deflate.BodyIsEncoding` | 3rdparty/stb/stb_image.h:4240-4280 | Soundness: whatever a block decodes to is what some tokens mean whose encoding is spelled there. |
| `Deflate.CopySpelled` | 3rdparty/stb/stb_image.h:4259-4264 | The order of the bits of a copy: code of the length, its extra bits, code of the distance, its extra bits. |
| `Deflate.CopyMeans` | 3rdparty/stb/stb_image.h:4265-4277 | What a copy means from its symbols and extra bits: an error exactly if the distance is before the start, else the old output and as many bytes as the length, each equal to the one the distance before. |
| `Deflate.ExtraBits` | 3rdparty/stb/stb_image.h:4231-4238 | Extra bits by rule: none for eight length symbols and the last, then one more for every four; none for four distance symbols, then one more for every two. |
| `Deflate.LengthsFollow` | 3rdparty/stb/stb_image.h:4226-4232 | The lengths of a symbol come right after those of the one before. |
| `Deflate.LengthEnds` | 3rdparty/stb/stb_image.h:4226-4232 | They begin with 3; symbol 284 ends with 258, and symbol 285 is 258. |
| `Deflate.DistancesFollow` | 3rdparty/stb/stb_image.h:4234-4238 | The distances of a symbol come right after those of the one before. |
| `Deflate.EveryLength` | 3rdparty/stb/stb_image.h:4226-4232 | Every length from 3 to 258 is that of a symbol up to 285 and extra bits. |
| `Deflate.LengthAtMost` | 3rdparty/stb/stb_image.h:4226-4232 | These symbols have no other lengths. |
| `Deflate.EveryDistance` | 3rdparty/stb/stb_image.h:4234-4238 | Every distance from 1 to 32768 is that of a symbol up to 29 and extra bits. |
| `Deflate.DistanceAtMost` | 3rdparty/stb/stb_image.h:4234-4238 | These symbols have no other distances. |
| `DeflateLengths.LenOpDecodes` | 3rdparty/stb/stb_image.h:4304-4321 | A code length or repeat is read if and only if its encoding (section 3.2.7 of RFC 1951) is spelled. |
| `DeflateLengths.LengthsDecode` | 3rdparty/stb/stb_image.h:4302-4325 | The code lengths that the operations describe are read back, also where a repeat crosses from the literal to the distance table. |
| `DeflateLengths.LengthsAreEncoding` | 3rdparty/stb/stb_image.h:4302-4325 | Whatever lengths are read come from operations whose encoding is spelled there, and there are exactly as many as announced. |
| `DeflateLengths.OpRanges` | 3rdparty/stb/stb_image.h:4308-4320 | Which operations there are: lengths below 16, repeats of 3 to 6 with symbol 16, 3 to 10 zeros with 17, and 11 to 138 with 18. |
| `DeflateLengths.OpExtends` | 3rdparty/stb/stb_image.h:4308-4323 | Each of them keeps the lengths there are and adds as many of its value; a repeat needs one to repeat. |
| `DeflateHeader.HeaderDecodes` | 3rdparty/stb/stb_image.h:4282-4330 | The header of a dynamic block reads back as the two tables of lengths it describes, ending where its encoding ends. |
| `DeflateHeader.HeaderIsEncoding` | 3rdparty/stb/stb_image.h:4282-4330 | Whatever header is accepted is the encoding of a valid header with those two tables. |
| `DeflateHeader.StoredOrder` | 3rdparty/stb/stb_image.h:4284-4299 | Where each stored length goes, by position: 16, 17, 18, 0, and then by turns 8 and upwards, 7 and downwards. |
| `DeflateHeader.NotStored` | 3rdparty/stb/stb_image.h:4296-4299 | The symbols of the positions that are not stored have length 0. |
| `DeflateStream.FixedAreCodes` | 3rdparty/stb/stb_image.h:4375-4390 | The fixed tables are complete canonical codes: their Kraft sums are exactly 1. |
| `DeflateStream.FixedWords` | 3rdparty/stb/stb_image.h:4375-4390 | The fixed code words are the four ranges of section 3.2.6 of RFC 1951, and five bits for each distance. |
| `DeflateStream.StoredDecodes` | 3rdparty/stb/stb_image.h:4332-4359 | A stored block yields its bytes and ends after them, from any byte boundary. |
| `DeflateStream.StoredFormat` | 3rdparty/stb/stb_image.h:4332-4359 | A stream of one stored block byte by byte: 1, the length with the low byte first, its complement, and the bytes. |
| `DeflateStream.BlockDecodes` | 3rdparty/stb/stb_image.h:4412-4428 | A block of each of the three kinds yields what it means, or an error if it means nothing. |
| `DeflateStream.StreamDecodes` | 3rdparty/stb/stb_image.h:4404-4430 | A stream of blocks yields what its blocks mean in order, with copies reaching back over block borders. |
| `DeflateStream.StreamIsEncoding` | 3rdparty/stb/stb_image.h:4404-4430 | Whatever a stream decodes to is what some list of blocks means whose encoding is spelled there. |
| `DeflateStream.BlocksFit` | 3rdparty/stb/stb_image.h:4404-4430 | One turn per bit is enough for every list of blocks, so the number of turns bounds nothing that is well formed. |
| `Inflate.LengthBases` | 3rdparty/stb/stb_image.h:4226-4229 | Each constant of the length table is the sum that section 3.2.5 of RFC 1951 describes. |
| `Inflate.LengthExtras` | 3rdparty/stb/stb_image.h:4231-4232 | Each number of extra bits of a length is the standard's. |
| `Inflate.DistBases` | 3rdparty/stb/stb_image.h:4234-4235 | Each constant of the distance table is the sum that the standard describes. |
| `Inflate.DistExtras` | 3rdparty/stb/stb_image.h:4237-4238 | Each number of extra bits of a distance is the standard's. |
| `Inflate.StorePlaces` | 3rdparty/stb/stb_image.h:4284-4299 | The constant order of the code length codes is 16, 17, 18, 0, and then by turns 8 and upwards, 7 and downwards; with the place of a symbol as its inverse. |
| `Inflate.PastShortCodes` | 3rdparty/stb/stb_image.h:4173-4176 | If all matching codes are longer than s, the 16-bit key is at least `maxcode[s]`: the slow path skips a length only when it may. |
| `Inflate.FastIsMatch` | 3rdparty/stb/stb_image.h:4194-4199 | The fast table knows a symbol for nine bits of the stream exactly when its code starts there: the fast and slow path agree. |
| `Inflate.StreamOutcome` | 3rdparty/stb/stb_image.h:4404-4430 | A well-formed stream within the data has the outcome that its blocks mean, and ends where its encoding does. |
| `Inflate.ZBuf.FillBits` | 3rdparty/stb/stb_image.h:4144-4154 | Refilling keeps the place in the stream and leaves 25 to 32 bits; with a corrupt bit buffer it jumps to the end of data instead. |
| `Inflate.ZBuf.Receive` | 3rdparty/stb/stb_image.h:4156-4164 | Yields the next n bits, least significant first and zero past the end of data, and moves the place by n. |
| `Inflate.ZBuf.DecodeSlowPath` | 3rdparty/stb/stb_image.h:4166-4183 | With 16 bits and no short code at the place: yields the symbol whose code starts there and consumes its length, or -1 exactly if there is none; the defensive checks never fire. |
| `Inflate.ZBuf.DecodeBuffered` | 3rdparty/stb/stb_image.h:4194-4202 | With 16 bits, by either path: symbol i with its length consumed exactly when the code of i starts there, -1 exactly when no code does. |
| `Inflate.ZBuf.HuffmanDecode` | 3rdparty/stb/stb_image.h:4185-4202 | For every state of the buffer: the symbol at the place, unless fewer than 16 bits are buffered and no input is left, or no code starts there; then -1 and nothing moves. How many bytes are fetched is exact. |
| `Inflate.ZBuf.Expand` | 3rdparty/stb/stb_image.h:4204-4224 | Growing changes no byte written; it succeeds exactly when the doubled sizes can reach the need without leaving 32 bits. |
| `Inflate.ZBuf.CopyRun` | 3rdparty/stb/stb_image.h:4272-4275 | The run of one byte equals the general overlapping copy of distance 1. |
| `Inflate.ZBuf.CopyBytes` | 3rdparty/stb/stb_image.h:4276-4277 | The copying loop is the overlapping copy of the format, also when it reads bytes that it has just written. |
| `Inflate.ZBuf.CopyMatch` | 3rdparty/stb/stb_image.h:4265-4277 | A copy is refused exactly if it reaches before the start of the output or there can be no room for it. |
| `Inflate.ZBuf.ReceiveLength` | 3rdparty/stb/stb_image.h:4259-4261 | Yields base plus extra bits of the length symbol. |
| `Inflate.ZBuf.DecodeDistance` | 3rdparty/stb/stb_image.h:4262-4264 | Yields base plus extra bits of the distance symbol at the place; -1 exactly if there is none or it is refused. |
| `Inflate.ZBuf.ParseCopy` | 3rdparty/stb/stb_image.h:4259-4277 | A copy performs what the format says of the bits there and leaves what was written before; it fails exactly if there is no distance, a symbol is refused, it reaches back too far or there is no room. |
| `Inflate.ZBuf.ReceiveCopy` | 3rdparty/stb/stb_image.h:4259-4264 | Length and distance of a copy are those that the bits spell, with exactly as many bytes fetched as the sizes of these reads demand. |
| `Inflate.ZBuf.ParseItem` | 3rdparty/stb/stb_image.h:4244-4278 | For every input: one item does what its bits mean and leaves what was written before, and its place, bytes fetched and bytes written are those of the course; it fails exactly where the course has no turn. |
| `Inflate.ZBuf.ParseHuffmanBlock` | 3rdparty/stb/stb_image.h:4240-4280 | For every input: succeeds exactly if the course comes through, and where it does; the output is that of the reference decoder, and what was written before stays. |
| `Inflate.ZBuf.ReceiveRepeat` | 3rdparty/stb/stb_image.h:4308-4320 | Repeat count and repeated length of symbols 16, 17 and 18; 16 in first place fails. |
| `Inflate.ZBuf.ApplyLenOp` | 3rdparty/stb/stb_image.h:4304-4323 | One code length or repeat extends the lengths as the format says, and fails exactly if there is nothing to repeat or there are too many. |
| `Inflate.ZBuf.ParseLenOp` | 3rdparty/stb/stb_image.h:4302-4323 | The same after decoding the code length symbol, which fails exactly if it is refused or there is none. |
| `Inflate.ZBuf.ParseLengths` | 3rdparty/stb/stb_image.h:4301-4325 | The loop yields the lengths of the reference, exactly if the reference has them and no symbol is refused. |
| `Inflate.ZBuf.ReceiveClLengths` | 3rdparty/stb/stb_image.h:4296-4299 | The three-bit lengths go to the places of their symbols, the others are zero. |
| `Inflate.ZBuf.BuildTables` | 3rdparty/stb/stb_image.h:4301-4329 | Both tables are those of the lengths that the stream describes, if and only if these are codes and no symbol is refused. |
| `Inflate.ZBuf.ReadLengths` | 3rdparty/stb/stb_image.h:4301-4325 | Yields the lengths that the operations describe, exactly if the code for them is one, they are right and no symbol is refused. |
| `Inflate.ZBuf.ComputeHuffmanCodes` | 3rdparty/stb/stb_image.h:4282-4330 | The tables are built for exactly the two codes that the header at the place describes, if and only if it is valid and no symbol of it is refused. |
| `Inflate.ZBuf.DropToByte` | 3rdparty/stb/stb_image.h:4334-4344 | The rest of the current byte is dropped; the whole bytes already buffered are still to be used. |
| `Inflate.ZBuf.ReadStoredHeader` | 3rdparty/stb/stb_image.h:4332-4349 | Yields the four bytes at the next byte boundary, whether they were buffered or not, and leaves no bit buffered. |
| `Inflate.ZBuf.ParseUncompressedBlock` | 3rdparty/stb/stb_image.h:4332-4359 | A stored block does what the reference says, with length and complement checked, and succeeds exactly if the course comes through. |
| `Inflate.ZBuf.PutInput` | 3rdparty/stb/stb_image.h:4353-4358 | Copies exactly the next bytes of the input, if and only if there can be room. |
| `Inflate.ZBuf.ParseZlibHeader` | 3rdparty/stb/stb_image.h:4361-4373 | Accepts exactly the zlib headers of method 8 without dictionary whose check is a multiple of 31. |
| `Inflate.ZBuf.ParseFixedBlock` | 3rdparty/stb/stb_image.h:4416-4419 | A block with the fixed tables does what the reference says, and succeeds exactly if its course comes through. |
| `Inflate.ZBuf.ParseDynamicBlock` | 3rdparty/stb/stb_image.h:4420-4424 | A block with its own tables does what the reference says, and succeeds exactly if its course comes through. |
| `Inflate.ZBuf.ParseBlock` | 3rdparty/stb/stb_image.h:4411-4428 | One block of any kind does what the reference says, type 3 is an error, and success is exactly that of its course. |
| `Inflate.ZBuf.ParseZlib` | 3rdparty/stb/stb_image.h:4404-4430 | For every input: succeeds exactly if the header is right and the course of the stream comes through, with place, bytes fetched and bytes written of the course; the output is then the reference expansion. |
| `Inflate.Decode` | 3rdparty/stb/stb_image.h:4432-4440 | For every buffer and starting size: there is an output exactly if the course comes through, and of its size. For every stream of blocks it is exactly what the blocks mean if that is defined, within the size limit and no symbol is refused, and an error otherwise. Any output without arbitrary bytes is what some blocks spelled in the buffer mean. |
| `Inflate.BlocksCourse` | 3rdparty/stb/stb_image.h:4404-4430 | The course of a stream of blocks comes through if and only if they have a meaning, it fits, and no symbol is refused. |
| `Inflate.GivesUp` | 3rdparty/stb/stb_image.h:4243-4279 | The model stops at a number of turns exactly where the loop of the source never ends. |
| `Inflate.DoublingReaches` | 3rdparty/stb/stb_image.h:4212-4215 | Doubling a buffer size reaches a greater one if and only if it is not zero: growing an empty buffer does not end. |
| `Inflate.CapacityDoubles` | 3rdparty/stb/stb_image.h:4212-4215 | The greatest size is a doubling of the first, and one more would not fit in 32 bits. |
| `Inflate.UsualHeaders` | 3rdparty/stb/stb_image.h:4361-4373 | The headers of the four usual levels are accepted; a dictionary, a wrong check, another method and a lack of further bytes are refused. |
| `Inflate.LastSymbolServes` | 3rdparty/stb/stb_image.h:4188-4192 | No symbol of a stream with a meaning is refused if there are 16 bits from the start of its last symbol on. |
| `Inflate.TwoBytesServe` | 3rdparty/stb/stb_image.h:4188-4192 | No symbol of a stream is refused if there are two bytes after it, as the checksum of a zlib stream provides. |
| `LastSymbol.OneByteMissing` | 3rdparty/stb/stb_image.h:4188-4192 | A stream that is well-formed, means two bytes, and is refused: `63 60 00 00`. With any further bytes at all it is not refused. |
| `Refills.SymbolServed` | 3rdparty/stb/stb_image.h:4188-4192 | A symbol that starts 16 bits before the end of the data is never refused. |
| `Refills.StreamServed` | 3rdparty/stb/stb_image.h:4144-4202 | If the last symbol of a stream starts 16 bits before the end of the data, nothing on the way is refused, over blocks, headers and extra bits. |
| `Refills.LastInside` | 3rdparty/stb/stb_image.h:4404-4430 | That symbol starts inside the stream, so 16 bits after the stream are more than enough. |
| `Refills.BodyServed` | 3rdparty/stb/stb_image.h:4240-4280 | The same for the body of a block, by the start of its end symbol. |
| `Refills.HeaderServed` | 3rdparty/stb/stb_image.h:4282-4330 | The same for the header of a dynamic block, by its end. |
| `Courses.ItemMeaning` | 3rdparty/stb/stb_image.h:4245-4277 | A token with a meaning adds as many bytes as its size says, and fails exactly if its distance is greater than the output. |
| `Courses.BodyOutcome` | 3rdparty/stb/stb_image.h:4240-4280 | Sizes decide: where a block has an output, its course comes through exactly if no symbol is refused and it fits, to that place and size; where it is wrong it does not come through. |
| `Courses.StreamFollows` | 3rdparty/stb/stb_image.h:4404-4430 | The same for a stream of blocks. |
| `Courses.NoCoursePastEnd` | 3rdparty/stb/stb_image.h:4411-4428 | Past the end of the data no block comes through, so the loop over blocks ends. |
| `Endless.SameItem` | 3rdparty/stb/stb_image.h:4134-4142 | Past the end of the data the same item is read at every place. |
| `Endless.NextShifted` | 3rdparty/stb/stb_image.h:4144-4202 | What it does to the bit buffer is the same wherever equally many bits are buffered. |
| `Endless.NextKeeps` | 3rdparty/stb/stb_image.h:4244-4278 | A turn goes on in the stream, never back in the output, and keeps at most 32 bits in the buffer. |
| `Endless.Around` | 3rdparty/stb/stb_image.h:4243-4279 | A loop that comes back to a state, but for whole bytes, goes on for any number of turns. |
| `Endless.NoEnd` | 3rdparty/stb/stb_image.h:4243-4279 | For any two codes: a loop that still runs after as many turns as there are bits of data, bytes of room and 34 more never ends. |
| `Endless.StreamPatient` | 3rdparty/stb/stb_image.h:4404-4430 | After that many turns in a block a stream is decided: with any number of turns it is still running or has come to the same end. |
| `Endless.EndsOrNever` | 3rdparty/stb/stb_image.h:4404-4430 | A stream is still running then if and only if no number of turns is enough. |
| `EndlessBlock.HeaderRead` | 3rdparty/stb/stb_image.h:4282-4330 | The header of 73 bits that gives length symbol 286 seven zeros and distance symbol 20 eight, and nothing else. |
| `EndlessBlock.NextTurn` | 3rdparty/stb/stb_image.h:4259-4277 | Where only zeros follow, 23 bits are buffered and 1025 bytes written, a turn takes 24 bits, writes nothing and leaves 23 bits. |
| `EndlessBlock.GoesOnForEver` | 3rdparty/stb/stb_image.h:4243-4279 | A stream of 1041 bytes, for any stored bytes in it, whose decoding never ends if and only if there is room for 1025 bytes. |
| `DeflateProgress.ItemLengthens` | 3rdparty/stb/stb_image.h:4245-4277 | Every item of the format makes the output longer, so that a block without reserved symbols cannot go on without end. |
| `DeflateProgress.NoBlockPastEnd` | 3rdparty/stb/stb_image.h:4332-4359 | The zeros that are read past the end of the data are no block, so that the blocks end with the data. |
| `GifLzw.StaysInStep` | 3rdparty/stb/stb_image.h:6652-6694 | After a clear code, code by code, this decoder and one of the GIF89a standard (Appendix F) keep the same output, widths and strings, until the table of this one is full. |
| `GifLzw.RunIsStandard` | 3rdparty/stb/stb_image.h:6638-6694 | From any such pair of states the two decode the rest of the data alike, exactly as long as no more codes than its table holds follow each other without a clear code. |
| `GifLzw.DecodesAsStandard` | 3rdparty/stb/stb_image.h:6613-6696 | For every data and code size up to 11: the result is that of the standard decoder if the first code is no string and runs without a clear code are short enough, both conditions on the codes alone, and an error otherwise. |
| `GifLzw.AgreesWithStandard` | 3rdparty/stb/stb_image.h:6613-6696 | The two decoders agree if and only if those conditions hold or the standard decoder fails too. |
| `GifLzw.MissingClear` | 3rdparty/stb/stb_image.h:6635-6668 | An image that the standard decodes to one pixel and this decoder rejects, for want of a clear code at the start. |
| `GifLzw.TableFull` | 3rdparty/stb/stb_image.h:6671-6675 | Images of one pixel code over and over: the standard decodes every one, and this decoder rejects exactly those of more than 6143 codes. |
| `GifEncoder.NextWidthAt` | 3rdparty/stb/stb_image.h:6685-6688 | The width of the decoder is the one an encoder uses: the least that has a place for the last entry, from one above the code size up to 12. |
| `GifEncoder.StepFollows` | 3rdparty/stb/stb_image.h:6669-6690 | One code of an encoder leads the decoder from the dictionary after i strings to that after i + 1, also if the code is of the entry only just added. |
| `GifEncoder.RunFollows` | 3rdparty/stb/stb_image.h:6638-6694 | The codes of all strings between two clear codes come to their end, with exactly these strings drawn. |
| `GifEncoder.EncodedDecodes` | 3rdparty/stb/stb_image.h:6613-6696 | Round trip: for any cutting of the image into strings with codes of Appendix F of GIF89a, and clear codes anywhere as long as runs are short enough, decoding gives back the pixels. |
| `GifEncoder.SinglePixels` | 3rdparty/stb/stb_image.h:6627-6631 | Any run of pixels can be cut so, though it be into single ones. |
| `GifEncoder.BlocksRead` | 3rdparty/stb/stb_image.h:6639-6648 | Reading data that have been cut into blocks of 1 to 255 bytes gives back the data, for any cutting, and ends after the empty block. |
| `GifEncoder.RasterRead` | 3rdparty/stb/stb_image.h:6613-6696 | Both together: the raster in a file is the image that was encoded. |
| `GifRaster.RankInverse` | 3rdparty/stb/stb_image.h:6601-6610 | The k-th row to be drawn is the row of rank k: interlacing loses no row. |
| `GifRaster.RankOnto` | 3rdparty/stb/stb_image.h:6601-6610 | Every rank belongs to a row: the order of rows is a bijection for every height. |
| `GifRaster.RowStep` | 3rdparty/stb/stb_image.h:6601-6604 | One step down a pass completes exactly one more row. |
| `GifRaster.PassStep` | 3rdparty/stb/stb_image.h:6606-6609 | Going to the next pass completes no row and skips none. |
| `GifRaster.AllComplete` | 3rdparty/stb/stb_image.h:6606-6610 | Below the last pass, all rows are complete. |
| `GifRaster.OrderIsStandard` | 3rdparty/stb/stb_image.h:6601-6610 | One row is drawn before another exactly if it is in an earlier group of Appendix E of GIF89a, or in the same and above. |
| `Gif.Context.NextInBlocks` | 3rdparty/stb/stb_image.h:6639-6648 | Yields the next byte of the concatenated data sub-blocks, over block borders, or reports their end; the end of the blocks stays where it is. |
| `Gif.Context.EndBlocks` | 3rdparty/stb/stb_image.h:6661-6663 | Skips to just after the terminator of the sub-blocks. |
| `Gif.SamePlace` | 3rdparty/stb/stb_image.h:6576-6611 | No two pixels of a frame share a place in the picture or a moment in the drawing. |
| `Gif.TimeBelow` | 3rdparty/stb/stb_image.h:6576-6611 | Every pixel of the frame has its moment among the first width times height. |
| `Gif.ShowsNext` | 3rdparty/stb/stb_image.h:6588-6598 | Painting the pixel of the next moment keeps: the picture shows exactly the pixels drawn so far, transparent ones keep the old colour, and everything outside is as before. |
| `Gif.ShowsFull` | 3rdparty/stb/stb_image.h:6585 | When the frame is full, further pixels are dropped and the picture still shows the right ones. |
| `Gif.Added` | 3rdparty/stb/stb_image.h:6677-6683 | A new entry of prefix, first and suffix stands for the string of its prefix and one more pixel. |
| `Gif.EntryString` | 3rdparty/stb/stb_image.h:6576-6586 | Every entry starts with its `first`, and its prefix is an earlier entry that stands for the rest of its string. |
| `Gif.Gif.constructor` | 3rdparty/stb/stb_image.h:6779-6802 | The cursor starts at the first row of the frame, in the first of four passes if it is interlaced. |
| `Gif.Gif.Advance` | 3rdparty/stb/stb_image.h:6598-6610 | After a pixel the cursor is at the pixel of the next moment, or past the end. |
| `Gif.Gif.NextRow` | 3rdparty/stb/stb_image.h:6601-6610 | After a row the cursor is at the row whose turn is next, over passes that have no row. |
| `Gif.Gif.StartPass` | 3rdparty/stb/stb_image.h:6606-6609 | The next pass starts at its first row with its own spacing, and no row counts twice. |
| `Gif.Gif.Plot` | 3rdparty/stb/stb_image.h:6585-6610 | One pixel of an entry is drawn at its place and the picture stays right. |
| `Gif.Gif.OutGifCode` | 3rdparty/stb/stb_image.h:6576-6611 | The recursive emitter terminates and draws exactly the string of the code. |
| `Gif.Gif.Define` | 3rdparty/stb/stb_image.h:6670-6684 | The new entry is that of the standard, also when the code is the one being defined. |
| `Gif.Gif.StringCode` | 3rdparty/stb/stb_image.h:6669-6690 | A code that is no control code draws its string and grows table and width as in the step relation, and fails exactly if it has no string or the table is full. |
| `Gif.Gif.TakeCode` | 3rdparty/stb/stb_image.h:6652-6694 | A clear or string code does what the step relation says; a string code before the first clear code fails. |
| `Gif.Gif.InitCodes` | 3rdparty/stb/stb_image.h:6627-6631 | The initial entries stand for one pixel each. |
| `Gif.Gif.Decode` | 3rdparty/stb/stb_image.h:6633-6695 | The loop over bits and sub-blocks fails exactly when the step relation does, and otherwise draws exactly its pixels and ends after the blocks. |
| `Gif.Gif.ProcessRaster` | 3rdparty/stb/stb_image.h:6613-6696 | The raster of a frame fails exactly for a code size above 12 or a bad code; otherwise exactly the LZW expansion of its sub-blocks is drawn. |
| `GifFrame.PaintsTriple` | 3rdparty/stb/stb_image.h:6519-6528 | A triple of red, green and blue in the file is painted as these; a transparent one leaves the old colour. |
| `GifFrame.PixelShows` | 3rdparty/stb/stb_image.h:6590-6598 | Every pixel of the frame that has come shows the three bytes of the file that its index points to, in that order, with opacity 255, or the old colour if transparent. |
| `GifFrame.PlaceIs` | 3rdparty/stb/stb_image.h:6588-6604 | Row and column of a pixel in the picture are those in the frame plus the corner of the frame. |
| `GifFrame.OutsideIs` | 3rdparty/stb/stb_image.h:6781-6786 | What is not drawn on is exactly the rows above and below the frame and the columns beside it. |
| `GifFrame.TimeIs` | 3rdparty/stb/stb_image.h:6598-6610 | Pixels come row by row in the order of the rows, and from left to right. |
| `GifFrame.ShownIsDrawn` | 3rdparty/stb/stb_image.h:6588-6610 | What the decoder keeps is: each pixel that has come shows its colour, and all else is as it was. |
| `GifFrame.ParseColorTable` | 3rdparty/stb/stb_image.h:6519-6528 | The table read from the file has all triples, the transparent one marked; its other entries stay. |
| `GifFrame.ReadDescriptor` | 3rdparty/stb/stb_image.h:6772-6802 | Place, size and interlacing of the frame are the little-endian numbers and the bit of the descriptor. |
| `GifFrame.Draw` | 3rdparty/stb/stb_image.h:6812 | A frame is drawn exactly if its raster is right, and then with its pixels. |
| `GifFrame.ReadImage` | 3rdparty/stb/stb_image.h:6767-6829 | From bytes to picture: fails exactly if the frame does not fit, has no table or a wrong raster; otherwise its pixels are drawn with the table of the frame, or with that of the file if it has none. |
| `SortEdges.CutCoarse` | 3rdparty/stb/stb_truetype.h:3448-3475 | Sorting both sides of a partition coarsely leaves the whole coarsely sorted, though the cells between the sides belong to neither. |
| `SortEdges.FirstRemains` | 3rdparty/stb/stb_truetype.h:3467-3475 | After the second part is done, the first part is what remains between cells that are in order around it. |
| `SortEdges.SecondRemains` | 3rdparty/stb/stb_truetype.h:3467-3475 | After the first part is done, the second part is what remains. |
| `SortEdges.MedianToFront` | 3rdparty/stb/stb_truetype.h:3424-3446 | The two conditional swaps move the median of first, middle and last to the front, and leave one later edge that is not below it. |
| `SortEdges.Exchange` | 3rdparty/stb/stb_truetype.h:3448-3466 | The unguarded scans stay inside the array; the result is a cut: nothing before j is above anything from i on, and j <= i < n. |
| `SortEdges.Partition` | 3rdparty/stb/stb_truetype.h:3424-3466 | Median and scans together permute the range and cut it in two strictly shorter parts. |
| `SortEdges.Quicksort` | 3rdparty/stb/stb_truetype.h:3417-3477 | For any length: a permutation of the range, coarsely sorted, nothing else touched; the recursion is at most log2 n deep because the loop takes the longer part. |
| `SortEdges.MovedSorted` | 3rdparty/stb/stb_truetype.h:3402-3413 | Moving an edge down to the first place where nothing above it is smaller extends the sorted prefix by one. |
| `SortEdges.Insert` | 3rdparty/stb/stb_truetype.h:3402-3413 | One round of insertion does that in place. |
| `SortEdges.InsertionSort` | 3rdparty/stb/stb_truetype.h:3399-3415 | For any length: a permutation sorted by y0. |
| `SortEdges.Sort` | 3rdparty/stb/stb_truetype.h:3479-3483 | For any length: the first n edges are a permutation of themselves sorted by y0, the rest is unchanged. |
| `Words.OnesOver` | src/common/bitArray.h:173-186 | Counting the ones of a word shifted right by k finds the end of the run at bit k. |
| `Words.OnesUnder` | src/common/bitArray.h:205-224 | Counting the leading ones of a word shifted left finds the start of the run below bit k. |
| `Runs.RunsAreAll` | src/common/bitArray.h:28-52 | Following the first run again and again yields all maximal runs: not empty, increasing, a clear bit between them, with exactly the members as union. |
| `Runs.OnlyRuns` | src/common/bitArray.h:28-52 | They are the only sequence with that property. |
| `Runs.LastIsLast` | src/common/bitArray.h:192-231 | On a set that is not empty, the last run searched from the end is the last run that the iteration yields. |
| `Runs.FirstIs` | src/common/bitArray.h:158-188 | The first run begins at the first member from start on and ends at the first that is missing after it; (N, N) exactly if there is no member. |
| `Runs.LastIs` | src/common/bitArray.h:192-226 | The last run ends at the last member below end and begins after the last that is missing before it; (0, 0) exactly if there is no member. |
| `BitArrays.Changed` | src/common/bitArray.h:58-143 | If each bit changes by the same operation on being in the range, the set changes by that operation: masks on words refine operations on sets. |
| `BitArrays.BitArray.FromRange` | src/common/bitArray.h:58-83 | The new array is the intersection of the other with [start, end), and empty for a bad range. |
| `BitArrays.BitArray.CopyRange` | src/common/bitArray.h:58-83 | The same, word by word, on words that are zero. |
| `BitArrays.BitArray.SetRange` | src/common/bitArray.h:95-118 | The union with [start, end), and no change for a bad range. |
| `BitArrays.BitArray.UnsetRange` | src/common/bitArray.h:120-143 | The difference with [start, end), and no change for a bad range. |
| `BitArrays.BitArray.None` | src/common/bitArray.h:148-154 | True exactly for the empty set. |
| `BitArrays.BitArray.FirstRangeFrom` | src/common/bitArray.h:158-188 | The first run from start on, or (N, N) if there is none. |
| `BitArrays.BitArray.EndOfRun` | src/common/bitArray.h:173-187 | The end of a run is found over any number of full words. |
| `BitArrays.BitArray.LastRangeFrom` | src/common/bitArray.h:192-226 | The last run below end, clipped at end and maximal downward. |
| `BitArrays.BitArray.StartOfRun` | src/common/bitArray.h:205-225 | The start of a run is found downward over any number of full words. |
| `BitArrays.BitArray.XorWith` | src/common/bitArray.h:233-238 | The symmetric difference. |
| `BitArrays.BitArray.Complement` | src/common/bitArray.h:246-252 | The complement in [0, N). |
| `BitArrays.BitArray.Ranges` | src/common/bitArray.h:230-231 | Iterating from begin to end terminates and yields exactly the maximal runs in order. |
| `BitArrays.Iterator.constructor` | src/common/bitArray.h:32-33 | The iterator starts at the first run from start on. |
| `BitArrays.Iterator.Next` | src/common/bitArray.h:35-38 | Advancing goes to the first run after the current one. |
| `PngFilters.PaethIsNearest` | 3rdparty/stb/stb_image.h:4580-4589 | The branch order of the predictor yields the neighbour nearest to left + up - corner, with ties going to left, then up (section 6.6 of RFC 2083). |
| `PngFilters.AverageIsFloor` | 3rdparty/stb/stb_image.h:4663 | The average of two bytes is half their sum rounded down. |
| `PngFilters.ReconBytes` | 3rdparty/stb/stb_image.h:4660-4668 | What each filter type adds to a byte modulo 256, with no predictor: nothing, left, above, the half sum rounded down, or the nearest of three. |
| `PngFilters.TwoRows` | 3rdparty/stb/stb_image.h:4663 | An image of two rows, the second with the average. |
| `PngFilters.ReconFiltered` | 3rdparty/stb/stb_image.h:4647-4669 | Reconstruction undoes filtering, for every filter type, row and row above. |
| `PngFilters.FilteredRecon` | 3rdparty/stb/stb_image.h:4647-4669 | Filtering undoes reconstruction: no two raw rows give the same row. |
| `PngFilters.ImageEncoded` | 3rdparty/stb/stb_image.h:4621-4671 | Reading an image with any sequence of filter types yields the rows that were filtered. |
| `Png.FiltersAreStandard` | 3rdparty/stb/stb_image.h:4571-4578 | The filters of the first row equal the ordinary ones with a zero row above, byte by byte, also for the first pixel. |
| `Png.PixelStored` | 3rdparty/stb/stb_image.h:4671-4692 | Byte k of pixel i lies where it is looked for after an alpha byte is inserted behind every pixel; the inserted byte is 255. |
| `Png.ImagePixel` | 3rdparty/stb/stb_image.h:4621-4716 | The same over the whole image: each colour byte of each pixel is that of the reconstructed row. |
| `Png.Reconstruct` | 3rdparty/stb/stb_image.h:4660-4668 | One byte by its filter from the output around it, reading the row above only if the filter uses it. |
| `Png.FirstPixel` | 3rdparty/stb/stb_image.h:4636-4656 | The first pixel of a row is reconstructed, with 255 behind it if alpha is added. |
| `Png.FlatPixels` | 3rdparty/stb/stb_image.h:4658-4671 | In place, the rest of a row becomes the reconstruction of the whole row. |
| `Png.AlphaPixel` | 3rdparty/stb/stb_image.h:4672-4692 | One pixel with alpha: the row so far is the reconstruction with alpha inserted. |
| `Png.AlphaPixels` | 3rdparty/stb/stb_image.h:4672-4692 | In place, a row becomes its reconstruction with alpha inserted, though the row above already holds alpha. |
| `Png.ReconRow` | 3rdparty/stb/stb_image.h:4629-4692 | A row by its filter type; nothing outside the row is written. |
| `Png.CreateImageRaw` | 3rdparty/stb/stb_image.h:4594-4716 | Fails exactly if there are too few bytes or a filter type is above 4; otherwise the output is all reconstructed rows, with alpha 255 where it was asked for. |
| `Adam7.SizeIs` | 3rdparty/stb/stb_image.h:4824-4826 | The size formula counts exactly the columns and rows of a pass inside the picture. |
| `Adam7.PassHas` | 3rdparty/stb/stb_image.h:4819-4822 | Every place belongs to the pass computed from its low bits (section 2.6 of RFC 2083). |
| `Adam7.PlaceIs` | 3rdparty/stb/stb_image.h:4834-4837 | From the place of pixel (i, j) of a pass, the pass, i and j are recovered. |
| `Adam7.OnePlace` | 3rdparty/stb/stb_image.h:4819-4837 | Every pixel of a picture of any size is reached by exactly one pass, i and j, inside that pass. |
| `Adam7.PassIsDrawn` | 3rdparty/stb/stb_image.h:4819-4822 | The pass of each pixel is the one drawn in the 8 by 8 square of section 2.6 of RFC 2083. |
| `Adam7.AreasAddUp` | 3rdparty/stb/stb_image.h:4824-4827 | The seven areas sum to width times height. |
| `PngInterlace.PutPixel` | 3rdparty/stb/stb_image.h:4835-4837 | Copies one pixel to its place and leaves every other pixel of the picture as it was. |
| `PngInterlace.CopyPass` | 3rdparty/stb/stb_image.h:4832-4839 | All pixels of a pass reach their places and those of earlier passes stay. |
| `PngInterlace.CreateImage` | 3rdparty/stb/stb_image.h:4806-4846 | Interlaced or not, fails exactly if the rows or passes are bad; otherwise every pixel of the picture is that of the one pass that has it. |
| `PngInterlace.SamplesShown` | 3rdparty/stb/stb_image.h:4815-4846 | If the passes hold the samples of a picture, every pixel of the output is that of the picture, with 255 if alpha was added. |
| `PngInterlace.SampleAt` | 3rdparty/stb/stb_image.h:4835-4837 | Where a shown pixel is, byte by byte: byte k of the pixel at x and y is at (y * width + x) times the bytes a pixel, plus k. |
| `PngInterlace.PassesDecoded` | 3rdparty/stb/stb_image.h:4823-4842 | Seven filtered passes laid one after another, empty ones left out, are read back. |
| `Calendar.DateOfJd` | src/common/dateTime.cpp:24-65 | The day number of every valid date converts back to that date, for every year of either sign. |
| `Calendar.JdOfDate` | src/common/dateTime.cpp:24-65 | Every day number converts to a valid date whose day number it is: with the line above, a bijection. |
| `Calendar.CenturyOf` | src/common/dateTime.cpp:48-51 | The quotient by 146097 is the century that holds the day. |
| `Calendar.YearSplit` | src/common/dateTime.cpp:51-54 | The start of a year splits in the start of its century and the years of four since. |
| `Calendar.NextDay` | src/common/dateTime.cpp:90-97 | The day after a valid date, over ends of months, leap days and the missing year 0, is valid and has the next day number. |
| `Calendar.Successor` | src/common/dateTime.cpp:40-65 | The date of jd + 1 is the day after the date of jd. |
| `Calendar.DaysOn` | src/common/dateTime.cpp:40-65 | The date of jd + n is n days after the date of jd, one by one. |
| `Calendar.OrderIsLexicographic` | src/common/dateTime.h:63-68 | Order of day numbers is order by year, month, day. |
| `Calendar.DayOfYearIs` | src/common/dateTime.cpp:221-230 | The difference to January 1 plus one is the days of the earlier months plus the day. |
| `Calendar.FourCenturies` | src/common/dateTime.cpp:40-65 | 146097 days are exactly 400 astronomical years: month and day stay. |
| `Calendar.WeekdayNext` | src/common/dateTime.cpp:209-219 | Weekdays cycle 1 to 7 through all day numbers of either sign, and 146097 days are whole weeks. |
| `Calendar.KnownDay` | src/common/dateTime.cpp:24-38 | January 1, 2000, is day 2451545 and a Saturday; leap years at the ends of centuries; the day after the last of year -1. |
| `Dates.FloorDiv` | src/common/dateTime.cpp:11-22 | The quotient rounded down for either sign of divisor and dividend, wherever no step of it leaves 32 bits. |
| `Dates.YmdToJd` | src/common/dateTime.cpp:24-38 | The day number of a valid date; if the largest step of the sum does not leave 32 bits, none does. |
| `Dates.YearBounds` | src/common/dateTime.cpp:24-38 | That is so for all years from -5,884,200 to 5,874,600, and for none outside -5,884,292 to 5,874,700. |
| `Dates.RoundTripFits` | src/common/dateTime.cpp:24-65 | A valid date can be converted to its number and back without overflow if and only if it lies between July 13 of year -1,474,604 and October 18 of year 1,465,102. |
| `Dates.OneDayTooFar` | src/common/dateTime.cpp:24-51 | The day after that has a number that can be set and not converted back. |
| `Dates.JdToYmd` | src/common/dateTime.cpp:40-65 | The date of a day number, with no overflow of 32 bits in any step; year within 1,480,000. |
| `Dates.OverflowsOutside` | src/common/dateTime.cpp:40-51 | Outside of the range of day numbers stated for the conversion, one of its first steps does overflow: the range is exact. |
| `Dates.Date.DaysInMonth` | src/common/dateTime.cpp:126-134 | The days of a month of a common year, 0 for no month. |
| `Dates.Date.IsLeapYear` | src/common/dateTime.cpp:160-166 | The Gregorian rule with years before 1 shifted by one. |
| `Dates.Date.IsValid` | src/common/dateTime.cpp:90-97 | True exactly for the dates of the proleptic calendar without year 0. |
| `Dates.Date.Set` | src/common/dateTime.cpp:136-142 | The day number of a valid date, the sentinel for any other. |
| `Dates.Date.Get` | src/common/dateTime.cpp:144-158 | The date of the day number, always valid, or zeros for the sentinel. |
| `Dates.Date.SetAndGet` | src/common/dateTime.cpp:136-158 | Every valid date in the range above comes back as it was set, and anything that is no date comes back as zeros. |
| `Dates.Date.DayOfWeek` | src/common/dateTime.cpp:209-219 | The weekday by the two branches for either sign is the one of the cycle. |
| `Dates.Date.DayOfYear` | src/common/dateTime.cpp:221-230 | The days of earlier months plus the day. |
| `Dates.Date.Add` | src/common/dateTime.h:74-77 | The date afterwards is that many steps on in the calendar, or back for a negative number. |
| `Dates.Date.Subtract` | src/common/dateTime.h:78-81 | The other way round. |
| `Dates.Time.Set` | src/common/dateTime.cpp:370-376 | The milliseconds of a valid time, and the sentinel exactly for any other. |
| `Dates.Time.Get` | src/common/dateTime.cpp:378-395 | The one valid time of these milliseconds, or -1 in all fields. |
| `Dates.Time.Add` | src/common/dateTime.cpp:589-606 | Adding seconds wraps around the day; an invalid time stays. |
| `Dates.Time.Subtract` | src/common/dateTime.cpp:608-625 | Subtracting seconds wraps around the day; an invalid time stays. |
| `Dates.BackAgain` | src/common/dateTime.cpp:589-625 | Subtracting what was added gives the same time, over midnight too. |
| `Dates.TimeUnique` | src/common/dateTime.cpp:67-84 | Two valid times with the same milliseconds are the same. |
| `Dates.TimeOrder` | src/common/dateTime.cpp:67-69 | A time is before another exactly if it has fewer milliseconds. |
| `Dates.TimeNumbers` | src/common/dateTime.cpp:67-69 | The times of a day have the numbers 0 to 86399999, the first and last of them at its ends. |
| `Hash.XorRightInjective` | src/common/hash.h:11-12 | Xor with the state shifted right is injective on 32 bits. |
| `Hash.AddLeftInjective` | src/common/hash.h:10-12 | Adding the state shifted left by 3, 10 or 15 is injective modulo 2^32. |
| `Hash.MixInjective` | src/common/hash.h:8-30 | One byte's step is injective in the state for each byte, and in the byte for each state. |
| `Hash.FinishInjective` | src/common/hash.h:50-54 | The final mix is injective. |
| `Hash.FoldInjective` | src/common/hash.h:8-54 | Folding in any number of equal bytes keeps different states different. |
| `Hash.OneByteMatters` | src/common/hash.h:8-55 | Two keys of the same length that differ in exactly one byte never have the same hash. |
| `Hash.OrderIs` | src/common/hash.h:8-48 | Which byte is mixed when: whole groups of four in their order, the one to three after them in reverse. |
| `Hash.HashBytes` | src/common/hash.h:8-55 | The loop unrolled by four with its fall-through tail is the fold of the bytes, the last one to three in reverse. |
| `Hash.Hash32` | src/common/hash.h:92-115 | The hash of the four little-endian bytes. |
| `Hash.Hash64` | src/common/hash.h:117-152 | The hash of the eight little-endian bytes. |
| `Hash.LittleEndianValue` | src/common/hash.h:92-152 | The four and the eight bytes of a number by their value. |
| `Hash.Hash16` | src/common/hash.h:73-90 | The hash of the two bytes the other way round; it is the hash of the two bytes if and only if they are equal. |
| `Hash.OrderMatters` | src/common/hash.h:31-54 | For all pairs of bytes: two bytes have the hash of their reverse if and only if they are equal. |
| `Hash.MixByte` | src/common/hash.h:42-46 | What mixing a single byte gives, in closed form by the byte's digits to the base of four. |
| `Hash.MixAddsInjective` | src/common/hash.h:42-46 | What mixing a byte adds to it is different for different bytes. |
| `Hash.MixIs` | src/common/hash.h:42-46 | A mixing step bit by bit: the sum times 1025 modulo 2^32, each bit flipped if the one six places above is set. |
| `Hash.FinishIs` | src/common/hash.h:50-54 | The final mix bit by bit: times 9, each bit flipped if the one eleven places above is set, times 32769, modulo 2^32. |
| `Hash.KnownHash` | src/common/hash.h:8-55 | The hash of the single byte 1 is 307143837. |
| `HHeap.BlocksApart` | 3rdparty/stb/stb_truetype.h:2787-2788 | Blocks of a chunk lie inside it and no two overlap, for every size and count. |
| `HHeap.Pool.LiveApart` | 3rdparty/stb/stb_truetype.h:2777-2788 | In every pool, two live blocks of a chunk share no byte and lie within the bytes allocated for the chunk. |
| `HHeap.Pool.NoneLost` | 3rdparty/stb/stb_truetype.h:2770-2795 | Live, free and remaining blocks together are all blocks of all chunks. |
| `HHeap.Pool.Alloc` | 3rdparty/stb/stb_truetype.h:2770-2789 | Hands out a block that is not live: the one freed last, else the next of the chunk, else of a new chunk; keeps that live, free and remaining blocks make up all chunks, and that the free list has no block twice and none that is live. |
| `HHeap.Pool.TakeFree` | 3rdparty/stb/stb_truetype.h:2772-2775 | Takes the head of the free list; the links of the others stay right. |
| `HHeap.Pool.NewChunk` | 3rdparty/stb/stb_truetype.h:2777-2785 | A new chunk of the count for this size comes first and is all remaining. |
| `HHeap.Pool.TakeNext` | 3rdparty/stb/stb_truetype.h:2787-2788 | Takes the next unused block of the head chunk. |
| `HHeap.Pool.Free` | 3rdparty/stb/stb_truetype.h:2791-2795 | A live block becomes the head of the free list, its first word the link; all else stays. |
| `HHeap.Pool.Push` | 3rdparty/stb/stb_truetype.h:2791-2795 | Once it holds the link, the block is the head of the list. |
| `HHeap.Pool.Write` | 3rdparty/stb/stb_truetype.h:2770-2795 | Writing into a live block breaks no link: no free block shares its memory. |
| `HHeap.Pool.Cleanup` | 3rdparty/stb/stb_truetype.h:2797-2805 | The walk meets every chunk exactly once. |
| `HHeap.ChunkCounts` | 3rdparty/stb/stb_truetype.h:2778 | How many blocks of each size are in a chunk. |
| `Cmap.ScanSide` | 3rdparty/stb/stb_truetype.h:1530-1546 | An end code is below the character exactly if its segment comes before the one that a linear scan finds. |
| `Cmap.FindSegment` | 3rdparty/stb/stb_truetype.h:1516-1546 | For every number of segments, the biased search by powers of two finds the segment of the linear scan. |
| `Cmap.FindGlyphIndex` | 3rdparty/stb/stb_truetype.h:1516-1560 | The glyph of the segment that a linear scan finds: the sum modulo 2^16, or what the glyph array holds, or 0 if the segment starts later. |
| `Cmap.DeltaForgotten` | 3rdparty/stb/stb_truetype.h:1555-1559 | That is the glyph of the standard if and only if it does not come from the array, or is 0 there, or there is no difference to add. |
| `Cmap.GlyphIs` | 3rdparty/stb/stb_truetype.h:1548-1559 | The glyph is 0, differs from the character by the difference modulo 2^16, or is as many places on in the array as the character is after the first of its segment. |
| `Cmap.OneGlyphOff` | 3rdparty/stb/stb_truetype.h:1555-1559 | In a table with the right header, a character has glyph 5 here and 6 in the standard. |
| `Cmap.OneSegment` | 3rdparty/stb/stb_truetype.h:1516-1525 | A table of 26 bytes is such a table. |
| `Cmap.OnlySegment` | 3rdparty/stb/stb_truetype.h:1548-1553 | If segments do not overlap, the one found is the only one that can contain the character. |
| `Cmap.ArraysFollow` | 3rdparty/stb/stb_truetype.h:1518-1559 | The arrays of end codes, start codes, differences and offsets come one after another, with two bytes between the first two, and numbers are big-endian. |
| `Prefilter.Slide` | 3rdparty/stb/stb_truetype.h:4029-4061 | The window sum changes by the pixel entering minus the pixel leaving. |
| `Prefilter.WindowIs` | 3rdparty/stb/stb_truetype.h:4029-4061 | The window is the sum of the last kernel pixels, or of all there are. |
| `Prefilter.AverageIsFloor` | 3rdparty/stb/stb_truetype.h:4029-4061 | The output is that sum divided by the kernel, rounded down. |
| `Prefilter.Enter` | 3rdparty/stb/stb_truetype.h:4029-4061 | One step of the circular buffer keeps total, buffer and output right, though output overwrites input. |
| `Prefilter.FilterLine` | 3rdparty/stb/stb_truetype.h:4012-4072 | For every length and kernel 2 to 8, in place: output i is the floor of the mean over the last kernel pixels of the input. |
| `Prefilter.HPrefilter` | 3rdparty/stb/stb_truetype.h:4012-4072 | Every row becomes its filtered row; nothing else changes. |
| `Prefilter.VPrefilter` | 3rdparty/stb/stb_truetype.h:4074-4134 | Every column becomes its filtered column by the same definition; nothing else changes. |
| `Utf.TextInjective` | 3rdparty/stb/stb_truetype.h:4778-4820 | Different texts have different UTF-8 encodings (section 3 of RFC 3629). |
| `Utf.EncodingValue` | 3rdparty/stb/stb_truetype.h:4785-4808 | Length and value of a UTF-8 encoding from its bytes, for one to four of them: the lead byte gives the high bits, each later one six bits in order. |
| `Utf.PairValue` | 3rdparty/stb/stb_truetype.h:4792-4793 | The value of a pair of surrogates, 1024 for each high one. |
| `Utf.KnownCharacters` | 3rdparty/stb/stb_truetype.h:4785-4808 | Both encodings of a character of two, three and four bytes. |
| `Utf.TextBack` | 3rdparty/stb/stb_truetype.h:4783-4808 | The UTF-16BE encoding of a text (section 2.2 of RFC 2781) is well formed and decodes to it. |
| `Utf.PiecesOfText` | 3rdparty/stb/stb_truetype.h:4785-4808 | For well-formed text, what the loop compares with is the UTF-8 encoding of the text. |
| `Utf.NextPiece` | 3rdparty/stb/stb_truetype.h:4785-4812 | One turn of the loop takes the next unit, or a high surrogate and whatever unit follows it. |
| `Utf.TakeUnit` | 3rdparty/stb/stb_truetype.h:4785-4810 | The comparisons for a single unit succeed exactly if its UTF-8 encoding comes next. |
| `Utf.TakePair` | 3rdparty/stb/stb_truetype.h:4792-4802 | Those for two units succeed exactly if the four bytes of their value come next, also where the second is no low surrogate. |
| `Utf.ComparePrefix` | 3rdparty/stb/stb_truetype.h:4778-4815 | For well-formed text the length of its UTF-8 encoding exactly if that is a prefix of the first string, and -1 otherwise; for all other text the same of the bytes that its units are taken for. |
| `Utf.CompareTexts` | 3rdparty/stb/stb_truetype.h:4817-4820 | For well-formed text, true exactly if both decode to the same text; for all other text, exactly if the bytes are those that its units are taken for. |
| `Utf.Mistaken` | 3rdparty/stb/stb_truetype.h:4792-4806 | There is a text that the units are found to be the same as if and only if no low surrogate comes first and every value is in the range of pairs: so some text that is not well-formed is found to be the same as well-formed text. |
| `Utf.TakenForPair` | 3rdparty/stb/stb_truetype.h:4792-4802 | Such a text: `D800 E000` is found to be the same as U+10400. |
| `GameLibrary.Library.Upsert` | tools/pkg_dow_server.py:500-529 | The merged entry stands where the first match stood, or the new one last; all other matches go and the rest stays. |
| `GameLibrary.Library.Merge` | tools/pkg_dow_server.py:510-521 | Favourite is any, last played and play time are maxima, added is the minimum of those present, settings are the last present. |
| `GameLibrary.MergeTwo` | tools/pkg_dow_server.py:510-521 | What an added game becomes with two old ones, field by field, if and only if they are merged. |
| `GameLibrary.Library.Earliest` | tools/pkg_dow_server.py:514-516 | The minimum of the times that are not missing, or the new one. |
| `GameLibrary.Library.LastOf` | tools/pkg_dow_server.py:517-520 | The setting of the last match that has one, or the new one. |
| `GameLibrary.StaysUnique` | tools/pkg_dow_server.py:500-529 | If no two entries share an id, or a normal path that is not empty, none do after an added game; stated on ids and paths. |
| `GameLibrary.WhoStays` | tools/pkg_dow_server.py:500-525 | Of the old entries exactly those stay, as often as they were there, that have another id and, if the added path is not empty, another normal path. |
| `GameLibrary.AlwaysUnique` | tools/pkg_dow_server.py:500-529 | Over every run from an empty library, no two entries ever do. |
| `GameLibrary.OthersKeepOrder` | tools/pkg_dow_server.py:522-525 | The entries that did not match keep their relative order around the merged one. |

## Left out

- Inflate.ZBuf.ParseItem: for a distance symbol 30 or 31 says how many bytes are written and not which, as the source
  copies whatever the memory held.
- Inflate.ZBuf.ParseCopy: the same for the copy alone.
- Inflate.ZBuf.ParseHuffmanBlock: the same for a block; and takes a number of turns, as the loop of the source need not
  end.
- Inflate.ZBuf.ParseFixedBlock: the same for a block with the fixed tables.
- Inflate.ZBuf.ParseDynamicBlock: the same for a block with its own tables.
- Inflate.ZBuf.ParseBlock: the same for a block.
- Inflate.ZBuf.ParseZlib: the same for a stream.
- Inflate.Decode: the same for a buffer; the number of turns is one that is used up only where there is no end.
- Inflate.ZBuf.FetchByte: joins a byte to the bit buffer by adding; the source uses `or`, which is the same because
  the buffer has no bits that high.
- Memory allocation that fails.
- Inflate.ZBuf.Expand: not for an output buffer of no bytes that may grow, which the source doubles without end as soon
  as one byte is wanted (`Inflate.DoublingReaches`).
- The other entry points of the inflater, which only choose buffer sizes.
- Gif.Gif.ProcessRaster: the raster of one frame.
- GifFrame.ReadImage: one frame on a given picture; the header of the file, extensions, disposal of the frame before
  and the background are parameters or absent. Says nothing of the colours past the end of the frame's own table, which
  the source keeps from an earlier frame.
- GifLzw.DecodesAsStandard: for code sizes 1 to 11; 0 and 12, which the source takes too, are none that the standard
  has.
- Png.CreateImageRaw: samples of 8 bits, with alpha added or not; samples of 1, 2, 4 and 16 bits, which the cited lines
  also unpack, are absent.
- PngInterlace.CreateImage: samples of 8 bits too.
- PNG chunks, palettes, colour keys and conversions between colour types.
- SortEdges.Sort: coordinates are real numbers; no edge has a NaN.
- HHeap.Pool.Alloc: one block size for the life of a pool, large enough for a pointer, as its callers use it.
- Cmap.FindGlyphIndex: a byte past the end of the data is read as zero, where the source has no bounds; formats 0, 6,
  12 and 13 are absent.
- Prefilter.FilterLine: one body for all kernel widths; the source has a case for each with the same text.
- Utf.ComparePrefix: only for whole units and a unit after every high surrogate; the source reads past the end
  otherwise.
- Utf.CompareTexts: the same.
- Dates.Date.Set: not for a valid date whose day number leaves 32 bits, where the source overflows.
- Dates.Time.Add: for at most a day of seconds either way, which the source demands.
- GifEncoder.RasterRead: for code sizes 1 to 11 too.
- Formatting and parsing of dates, and system clocks.
- Hash.HashBytes: bytes are unsigned, and `Hash.Hash32` and `Hash.Hash64` are for little-endian machines; `hash8` is
  a single step.
- Single bits of the bit array (`Get`, `Set`, `Unset`), `Clear`, `Fill`, `|=`, `&=` and comparison: one word each.
- GameLibrary.Library.Upsert: absolute paths in the case of the file system are a function of the path, and fields
  that are not merged are one title; reading and writing the file and the lock are absent.
- JPEG, BMP, TGA, PSD, PIC, PNM and HDR loaders, SIMD kernels, rasterising and distance fields, and the emulator
  itself: they would add floating point or more of the same.
