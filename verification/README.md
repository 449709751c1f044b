# C++ Core version 3: decoding, framing and queueing as a Dafny model

This project models five parts of the repository in Dafny and proves what they promise.

* **Inflate and PNG** (`PAL/src/stb_image.c`): the DEFLATE decoder with its two-level Huffman decoder, prefetching bit
  reader and growing output, against a bit-by-bit reference of RFC 1951; the undoing of the PNG filters in place; and
  the Adam7 passes. Files `Bits`, `BitReverseWord`, `CanonicalCode`, `HuffmanTable`, `Deflate` (the reference),
  `DeflateGrammar` and `DeflateStream` (what blocks, headers and streams mean, independently of any decoder),
  `DecoderStops` (the failed asserts), `FixedRoom` and `EndlessStream` (data that runs out), `ZlibDecoder`,
  `DeflateExamples` (streams in numerals, and the fixed codes), `PngFilter`, `PngImage`, `Adam7`.
* **CRC-32** (`Common/Utils/src/crc32.cpp`): the table-driven loop as polynomial division over GF(2). Files `Word32`,
  `Gf2`, `Crc32`.
* **ConcurrentQueue** (`Common/Utils/include/ConcurrentQueue.h`, `Lock.h`): a step system over any number of threads.
  Files `ConcurrentQueue`, `QueueReplies`.
* **The NGP protocol** (`ngplib/template`, `Common/Utils/src/Buffer.cpp`): the growing buffer with two cursors, tagged
  parameters, parameter blocks, and the framing of replies. Files `Wire`, `Buffer`, `NParam`, `NParamBlock`,
  `CrcBytes`, `NavPacket`, `ProtocolExamples` (blocks and packets in numerals).
* **The code generator** (`ngplib/generator_cpp.py`): what the emitted struct serialisers and constructors do for any
  schema, and how packets inherit definitions. Files `StructCodec`, `Derivation`, `MergePacket`, `MergeCycles`,
  `MergeOrders`.

`dafny verify dfyconfig.toml` checks everything.

## How the model is built

Objects that the source updates (`zhuffman`, `zbuf`, `png`, `Buffer`, `NParam`, `NParamBlock`, `NavReplyPacket`, packet
dictionaries) are classes, and loops are loops, each proved against a function that says what it computes. Bytes are
integers below 256, and machine words are natural numbers with the C operators defined bit by bit (`Bits`); only the
CRC uses bit-vectors. A failed C `assert` is the status `AssertFailed`, and `Stopped` in the functions around the
decoder; a build that compiles asserts out is not modelled. `GunzipUtil` is a parameter: whether it is implemented, and
any function that gives the unpacked bytes or nothing.

The reference decoder takes a limit on the bits it may read and gives one of four verdicts: accept, reject, truncated
(the limit is reached) or reserved (a length or distance symbol that RFC 1951 does not assign, or too many literal
lengths). `Deflate.BlocksLimit` says that the limit does not change a verdict. Input past the end reads as zero bits,
as in the source, so data that runs out inside a Huffman block may be decoded for ever (`FixedRoom.RunsOut` and
`EndlessStream.NeverEndsExactly` say exactly when). With an output buffer of fixed size the source still ends, and
`ZlibDecoder.DecodeBuffer` covers every input on which the verdict is not reserved; the claims about growing buffers
are for the inputs on which the reference accepts or rejects, for whatever limit. What the reference accepts is stated
once more without any decoder, in `DeflateGrammar` and `DeflateStream`. Where the source stops at a failed assert is
stated beside it, in `DecoderStops`.

Where the source and its comments or indentation disagree, the model follows the code:

* In `create_png_image_raw` (lines 2375 to 2380) the `else` that is indented for interlaced images belongs to the inner
  `if`. The data of a pass is therefore never checked for its length. `PngImage.PastEndExactly` says exactly when the
  source then reads past the end of its data; the outcome is called `PastEnd`.
* A consumer may sleep although there is an element while the producer still holds the mutex, so the producer need not
  be between its unlock and its broadcast yet (`ConcurrentQueue.AsleepWhilePushing`). `NoLostWakeup` is stated with the
  mutex free, and with a producer that has yet to broadcast otherwise; `UnlockedExactly` gives the exact condition.
* `setStatusMessage` stores the NUL of the message and the writer appends another one, so a reply whose message was set
  cannot be read back (`NavPacket.ReplyRoundTripExact`).
* The struct-list loop compares with a 16-bit length and stops early on longer parameters
  (`StructCodec.LongListRoundTrip`, `LongListLost`).
* The decoder rejects a code with too many codewords by returning an error, except when one length alone has more
  codewords than fit into that many bits; it then stops at an assert (`DecoderStops.ThreeOneBitCodes`).
* With an added alpha byte, the passes of an interlaced image are looked for at other places than where they start
  (`Adam7.AlphaOffsetDiffers`), and only images of a single pixel are accepted (`Adam7.AlphaAccepted`).
* `getUint32FromByteArray` (`NParam.cpp` line 272) takes a 16-bit index, but is given 32-bit ones: unsigned 32-bit
  members of a struct and flag words of a block are read at the index modulo 65536 (`StructCodec.RoundTrip`,
  `NumberLost`, `NParamBlock.FlagsExactly`, `RecordTakenForFlags`).
* `merge_packet` does not end for a packet that derives from a cycle of other packets (`MergeCycles.EndsExactly`,
  `AllEndExactly`), and overrides a packet's own definition of an id with an inherited one
  (`MergePacket.InheritedWins`, `OwnOverridden`); `MergeOrders.EndsAsExactly` says which definitions an id may end with.

## Model

| member | source | states |
|---|---|---|
| BitReverseWord.BitReverse16IsReverse | PAL/src/stb_image.c:1905-1912 | the four mask-and-shift rounds put bit i of a 16-bit word at bit 15 - i |
| BitReverseWord.BitReverseIsReverse | PAL/src/stb_image.c:1914-1920 | reversing 16 bits and shifting reverses the low `bits` bits of any value that fits |
| CanonicalCode.FitsIffKraft | PAL/src/stb_image.c:1933-1946 | the overflow checks at every length all pass if and only if the Kraft sum of the lengths is at most 1 |
| CanonicalCode.PrefixFree | PAL/src/stb_image.c:1935-1946 | with accepted lengths no codeword is a prefix of the codeword of another symbol |
| CanonicalCode.CodesDiffer | PAL/src/stb_image.c:1935-1961 | with accepted lengths two symbols of the same length have different codewords |
| CanonicalCode.SameLengthOrder | PAL/src/stb_image.c:1951-1961 | codewords of one length follow the order of the symbols (section 3.2.2 of RFC 1951) |
| CanonicalCode.SlotsDistinct | PAL/src/stb_image.c:1951-1953 | different symbols get different entries of the sorted symbol table |
| CanonicalCode.CodeAtUnique | PAL/src/stb_image.c:2012-2037 | at most one codeword stands at a place of the bit stream |
| CanonicalCode.DecodeExact | PAL/src/stb_image.c:2012-2037 | the bit-at-a-time canonical decoder returns a symbol with n bits exactly when the codeword of that symbol stands at the place, and Invalid exactly when none does |
| HuffmanTable.FastHitUnique | PAL/src/stb_image.c:1954-1960 | no index of the fast table starts with the reversed codewords of two symbols |
| HuffmanTable.ZHuffman.Build | PAL/src/stb_image.c:1922-1965 | zbuild_huffman: success exactly when the Kraft sum is at most 1; the per-length assert fails exactly when some length has more codes than fit; on success every table represents the canonical code |
| HuffmanTable.ZHuffman.FillSymbols | PAL/src/stb_image.c:1948-1963 | the last loop fills the sorted symbol table and the fast table for all symbols, each fast index for the one symbol whose code it starts with |
| HuffmanTable.ZHuffman.AssignFirstCodes | PAL/src/stb_image.c:1935-1947 | first codes, first symbols and preshifted limits of all lengths, and failure exactly when a length overflows |
| ZlibDecoder.ZBuf.Zget8 | PAL/src/stb_image.c:1987-1991 | the next input byte, zero past the end |
| ZlibDecoder.ZBuf.FillBits | PAL/src/stb_image.c:1993-2000 | the buffered bits stay the next bits of the LSB-first stream, at least 25 and at most 32 of them, and the unread input still starts right behind them |
| ZlibDecoder.ZBuf.Receive | PAL/src/stb_image.c:2002-2010 | the value of the next n stream bits, and the stream advances by n |
| ZlibDecoder.ZBuf.HuffmanDecode | PAL/src/stb_image.c:2012-2037 | the two-level decoder returns the same symbol and consumes the same bits as the bit-at-a-time decoder, and -1 with no bits consumed exactly when that one finds no codeword |
| ZlibDecoder.ZBuf.SlowDecode | PAL/src/stb_image.c:2024-2036 | the search over the preshifted limits, for codes longer than nine bits |
| ZlibDecoder.FastIndex | PAL/src/stb_image.c:2016 | a fast-table index taken from the stream starts with a symbol's code if and only if the code stands next in the stream |
| ZlibDecoder.SlowCompare | PAL/src/stb_image.c:2026-2029 | the reversed 16 bits lie below the preshifted limit of length s if and only if the next s bits are below the end of the codes of that length |
| ZlibDecoder.ZBuf.Expand | PAL/src/stb_image.c:2039-2054 | a growable buffer keeps its bytes and doubles until the request fits; another one refuses |
| ZlibDecoder.DoubledLimit | PAL/src/stb_image.c:2046-2047 | the doubled limit is at least the request, and less than twice the request unless nothing had to grow |
| ZlibDecoder.LengthTables | PAL/src/stb_image.c:2056-2062 | length bases and extra bits are those of section 3.2.5 of RFC 1951 |
| ZlibDecoder.DistTables | PAL/src/stb_image.c:2064-2068 | distance bases and extra bits are those of section 3.2.5 of RFC 1951 |
| Deflate.CopyIsPeriodic | PAL/src/stb_image.c:2091-2093 | copying len bytes from distance dist appends the periodic extension of the last dist bytes, also when source and destination overlap |
| ZlibDecoder.ZBuf.CopyBytes | PAL/src/stb_image.c:2091-2093 | the byte-by-byte copy inside the output buffer appends exactly that extension |
| ZlibDecoder.ZBuf.ReadMatch | PAL/src/stb_image.c:2082-2089 | length, distance and bits used are those of the reference decoder, or the match is refused when the reference refuses it |
| ZlibDecoder.ZBuf.ParseHuffmanBlock | PAL/src/stb_image.c:2070-2096 | a Huffman block succeeds exactly when the reference decoder accepts it and the output has room, with the reference output, also when the buffer has moved; a block that the data runs out in ends with a failure once a fixed buffer is full |
| DeflateGrammar.SpellingDecoded | PAL/src/stb_image.c:2070-2096 | every bit string that spells literals and copies and an end mark is decoded to what those mean, or rejected when a copy reaches back too far |
| DeflateGrammar.AcceptedSpelled | PAL/src/stb_image.c:2070-2096 | whatever the reference decoder accepts spells tokens whose meaning is the output |
| DeflateGrammar.BodyExact | PAL/src/stb_image.c:2070-2096 | the reference decoder accepts with output v and end position e if and only if the bits up to e spell tokens that mean v |
| DeflateStream.HeaderExact | PAL/src/stb_image.c:2098-2142 | the reference accepts a dynamic block header exactly when the bits spell one: counts, code length code, and run-length coded lengths that expand to the two alphabets |
| DeflateStream.BlocksExact | PAL/src/stb_image.c:2200-2229 | the reference accepts a sequence of blocks with output v and end position e exactly when the bits up to e spell stored, fixed and dynamic blocks that mean v, the last one marked final |
| DeflateStream.InflateExact | PAL/src/stb_image.c:2200-2229 | the same for whole streams, raw or behind a zlib header |
| DeflateStream.MeaningUnique | PAL/src/stb_image.c:2200-2229 | a bit stream spells one output only, and ends at one place only |
| DeflateStream.CodeLengthPlaces | PAL/src/stb_image.c:2100-2113 | which symbol each of the three-bit lengths of a dynamic header is for: 16, 17, 18 and 0, then from 8 outwards, the higher one of each two first |
| Deflate.LengthsTile | PAL/src/stb_image.c:2056-2062 | the length symbols cover 3 to 258 without gaps or overlaps, the last one standing for 258 alone |
| Deflate.DistancesTile | PAL/src/stb_image.c:2064-2068 | the distance symbols cover 1 to 32768 without gaps or overlaps |
| DeflateExamples.FixedCodes | PAL/src/stb_image.c:2186-2197 | the codewords of the fixed literal code are those of the table in section 3.2.6 of RFC 1951 |
| DeflateExamples.FixedDistances | PAL/src/stb_image.c:2186-2197 | the fixed distance symbols are their own codewords |
| DeflateExamples.StoredText | PAL/src/stb_image.c:2144-2171 | seven bytes in numerals, a stored block, and their output |
| DeflateExamples.TwoBlocks | PAL/src/stb_image.c:2207-2227 | two stored blocks, of which only the second one is final |
| DeflateExamples.ZlibText | PAL/src/stb_image.c:2173-2184 | a stream behind a zlib header; headers with a wrong check, another method or a dictionary are refused |
| DeflateExamples.FixedText | PAL/src/stb_image.c:2070-2096 | five bytes with fixed codes: two literals and an overlapping match with a length extra bit |
| DeflateExamples.DynamicText | PAL/src/stb_image.c:2098-2142 | eighteen bytes with dynamic codes, all three kinds of repeats and a distance extra bit, and their output |
| ZlibDecoder.ZBuf.ComputeHuffmanCodes | PAL/src/stb_image.c:2098-2142 | a dynamic header gives the two tables of the reference, repeats crossing from literal into distance lengths included; it stops at a failed assert exactly when one of the three alphabets has too many codes of one length or no code length code stands in the data, and otherwise fails exactly when the reference rejects it |
| ZlibDecoder.ZBuf.ReadLengths | PAL/src/stb_image.c:2117-2138 | the run-length coded code lengths of the reference, in an array with room for one operation past the end; a failed assert exactly when a place is reached where no code length code stands, an error for all else that the reference rejects |
| ZlibDecoder.ZBuf.ReadStoredHeader | PAL/src/stb_image.c:2148-2160 | entering a stored block drains at most three buffered bytes; the four header bytes are the first four after the byte boundary |
| ZlibDecoder.ZBuf.ParseUncompressedBlock | PAL/src/stb_image.c:2144-2171 | LEN, NLEN and payload are read from the right bytes; success exactly when the reference accepts and the output has room |
| ZlibDecoder.ZBuf.ParseZlibHeader | PAL/src/stb_image.c:2173-2184 | accepts exactly the headers with a right check value, method 8 and no dictionary |
| ZlibDecoder.FixedTables.Init | PAL/src/stb_image.c:2186-2197 | the default lengths are those of section 3.2.6 of RFC 1951 |
| ZlibDecoder.ZBuf.ParseZlib | PAL/src/stb_image.c:2200-2229 | 1 exactly when the reference accepts and the output has room or can grow, and then exactly the reference output; a failed assert exactly when the decoder comes to a block that stops it, with all blocks before it accepted and room for their output; for input on which the reference reaches a verdict, and with a fixed buffer for all input without reserved symbols |
| ZlibDecoder.DecodeMalloc | PAL/src/stb_image.c:2241-2287 | the growing decoders return the reference output; when the reference rejects, nothing, or they stop at a failed assert, and it is told exactly which |
| ZlibDecoder.DecodeBuffer | PAL/src/stb_image.c:2262-2298 | for all input without reserved symbols, whether the reference reaches a verdict or not, the decoders into a given buffer end: with the length of the reference output, with -1 when it does not fit or the data runs out, and with -1 or a failed assert when the reference rejects, exactly told apart |
| FixedRoom.BodyBits | PAL/src/stb_image.c:2070-2096 | an accepted block takes at most 48 bits for each byte of its output and 15 for its end |
| FixedRoom.HeaderBits | PAL/src/stb_image.c:2098-2142 | a dynamic block header is decided within 7067 bits |
| FixedRoom.PastEnd | PAL/src/stb_image.c:2144-2164 | a block that starts behind the data is rejected: zero bits are a stored block without the complement of its length |
| FixedRoom.RunsOut | PAL/src/stb_image.c:2070-2096 | once the data has run out inside a block, decoding goes on for ever, as far as there is room, if and only if zero bits stand for a literal or for a match within the output |
| EndlessStream.BodyEndless | PAL/src/stb_image.c:2070-2096 | the reference gives up on a block at every limit if and only if the block spells tokens up to the end of the data or further whose output zero bits then carry on for ever |
| EndlessStream.NeverEndsExactly | PAL/src/stb_image.c:2200-2229 | the reference gives up on a stream at every limit, so that a growing decoder does not end, if and only if accepted blocks come to a block that the data runs out in and that zero bits carry on |
| DecoderStops.HeaderRejected | PAL/src/stb_image.c:1933-1934 | whatever stops the decoder in a dynamic header, the reference rejects: an alphabet with too many codes of one length breaks the Kraft inequality |
| DecoderStops.StopsRejected | PAL/src/stb_image.c:2200-2229 | data that stops the decoder is rejected by the reference |
| DecoderStops.ThreeOneBitCodes | PAL/src/stb_image.c:1933-1934 | the four bytes 05 00 92 00 stop it: three code length codes of one bit each |
| Deflate.BlocksLimit | PAL/src/stb_image.c:2207-2227 | a verdict of the reference does not depend on how many bits it was allowed to read |
| PngFilter.UnfilterFilter | PAL/src/stb_image.c:2384-2436 | undoing a filter on a filtered row gives the row back, for every filter type |
| PngFilter.FilterUnfilter | PAL/src/stb_image.c:2384-2436 | filtering a rebuilt row gives the filtered bytes back |
| PngFilter.UnfilterFilterImage | PAL/src/stb_image.c:2381-2437 | any choice of filters for the rows of any image is undone row by row |
| PngFilter.FilterUnfilterImage | PAL/src/stb_image.c:2381-2437 | rebuilt rows, filtered with the types that were read, are the data that was read |
| PngFilter.PaethNearest | PAL/src/stb_image.c:2354-2362 | the prediction is the one of left, above and upper left that is closest to left + above - upper left, the earlier one of equally close ones |
| PngFilter.Added | PAL/src/stb_image.c:2384-2436 | what each filter type adds to a filtered byte in a rebuilt row: nothing, the byte to the left, the byte above, half their sum rounded down, the nearest one |
| PngFilter.FilteredPair | PAL/src/stb_image.c:2384-2436 | two pixels in numerals, with each filter type |
| PngImage.FirstValueRight | PAL/src/stb_image.c:2386-2399 | the special cases for the first row and the first pixel agree with zeros for missing neighbours |
| PngImage.RestValueRight | PAL/src/stb_image.c:2405-2436 | the same for all later pixels, with the alpha byte stepped over |
| PngImage.InterleaveAt | PAL/src/stb_image.c:2400-2436 | channel k of pixel p stands at its place in the output row |
| PngImage.AlphaAt | PAL/src/stb_image.c:2400-2424 | an added alpha byte is 255 in every pixel |
| PngImage.DecodeRow | PAL/src/stb_image.c:2382-2436 | one row rebuilt in place in the output is the row the PNG specification defines, laid out with alpha |
| PngImage.DecodeRows | PAL/src/stb_image.c:2381-2437 | all rows from top to bottom, or the outcome that the first unreadable row decides |
| PngImage.Png.CreateImageRaw | PAL/src/stb_image.c:2364-2439 | the output is the laid out rebuilt image; failure for a wrong length of a whole image or an unknown filter type |
| PngImage.PastEndExactly | PAL/src/stb_image.c:2375-2385 | the source reads past the end of its data exactly when the data of a pass is too short and every filter type in it is legal; whole images are safe |
| PngImage.RebuildsFiltered | PAL/src/stb_image.c:2365-2439 | an image filtered row by row in any legal way is rebuilt byte for byte |
| PngImage.RebuiltFiltersBack | PAL/src/stb_image.c:2365-2439 | whatever is rebuilt, filtered again with the types found, is the data |
| PngImage.SmallImage | PAL/src/stb_image.c:2364-2439 | a grey image of two by two pixels in numerals, laid out with alpha; a shorter one and one with filter type five are rejected |
| Adam7.EveryPixelInPass | PAL/src/stb_image.c:2454-2461 | every pixel of an image of any size is a pixel of exactly the pass computed for it, within the size of that pass |
| Adam7.PassPixelUnique | PAL/src/stb_image.c:2454-2470 | every pixel of a pass lies in the image and belongs to no other pass and no other place: with the row above, a bijection |
| Adam7.PassesCover | PAL/src/stb_image.c:2454-2457 | the passes up to the first, second and so on cover the pixels whose coordinates are multiples of 8 and 8, 4 and 8, 4 and 4, 2 and 4, 2 and 2, 1 and 2 |
| Adam7.PassAddsGrid | PAL/src/stb_image.c:2454-2470 | the pixels of a pass are those of its grid that are not on the grid of the pass before |
| Adam7.SlotInBounds | PAL/src/stb_image.c:2469 | every pixel lies within the output image |
| Adam7.SlotsDisjoint | PAL/src/stb_image.c:2469 | different pixels occupy disjoint bytes |
| Adam7.PlacePass | PAL/src/stb_image.c:2467-2470 | the copy loops put every pixel of a pass in its place and disturb no other |
| Adam7.DecodePass | PAL/src/stb_image.c:2462-2474 | one pass: rebuilt, placed with its alpha bytes, and the data advanced by the size of the pass as laid out |
| Adam7.CreateImage | PAL/src/stb_image.c:2441-2480 | with and without an added alpha byte: success exactly when all passes can be rebuilt from where the source looks for them, and then every pixel of the output is the pixel of its pass; otherwise the first bad pass decides |
| Adam7.PassRebuilt | PAL/src/stb_image.c:2453-2475 | the data of pass p, found behind the data of the earlier passes, is rebuilt to the pixels of pass p |
| Adam7.InterlacedRebuilt | PAL/src/stb_image.c:2441-2480 | decoding the concatenated filtered passes of any image, with any filters and without added alpha, gives every pixel back |
| Adam7.AlphaOffsetDiffers | PAL/src/stb_image.c:2472 | the step to the next pass is the size of the pass if and only if no alpha is added |
| Adam7.AlphaAccepted | PAL/src/stb_image.c:2462-2474 | the interlaced data of any image, with any filters, decoded with an added alpha byte, is accepted if and only if the image is a single pixel |
| Adam7.AlphaRejected | PAL/src/stb_image.c:2462-2474 | the data 0, 0, 0, 9 of two grey pixels: accepted as it is, rejected with an added alpha byte |
| Adam7.EmptyInterlaced | PAL/src/stb_image.c:2375-2382 | an interlaced image of two pixels without any data passes the length check and is read past the end |
| Crc32.TableIsEightSteps | Common/Utils/src/crc32.cpp:16-68 | every table entry is eight shift-and-subtract steps by 0x104C11DB7 on its index |
| Crc32.ByteStepDivides | Common/Utils/src/crc32.cpp:86-89 | one round of the loop is eight steps of long division |
| Crc32.RegisterDivides | Common/Utils/src/crc32.cpp:86-89 | the byte loop over a whole message is bit-by-bit long division |
| Crc32.CalcCrc32 | Common/Utils/src/crc32.cpp:70-92 | for at least four bytes the complement of the remainder of the message with its first 32 bits complemented, whatever the start value; shorter buffers give the start value back |
| Crc32.FourBytesChecksum | Common/Utils/src/crc32.cpp:70-92 | four bytes are their own checksum |
| Crc32.FiveZeros | Common/Utils/src/crc32.cpp:70-92 | the checksum of five zero bytes is 0xB1F7404B |
| Gf2.ShiftBitsLinear | Common/Utils/src/crc32.cpp:86-89 | the register is linear in its start and in the message |
| Gf2.BurstDetected | Common/Utils/src/crc32.cpp:70-92 | two bit strings that differ within 32 consecutive bits have different remainders |
| Crc32.CrcDetectsBurst | Common/Utils/src/crc32.cpp:70-92 | equally long messages that differ only within 32 consecutive bits have different checksums |
| Crc32.CrcDetectsFourBytes | Common/Utils/src/crc32.cpp:70-92 | in particular when all differing bytes lie within four consecutive ones |
| ConcurrentQueue.InvKept | Common/Utils/include/ConcurrentQueue.h:53-138 | the invariant of mutex, threads, wakeups and history holds in every state of every run, with any number of threads, spurious wakeups and timeouts |
| ConcurrentQueue.MutualExclusion | Common/Utils/include/ConcurrentQueue.h:53-138 | at most one thread is between its lock and its unlock, and the mutex is locked exactly while one is |
| ConcurrentQueue.ReleasedOnce | Common/Utils/include/Lock.h:36-59 | a finished call has locked the mutex once and its scoped lock has unlocked it once, early or in the destructor |
| ConcurrentQueue.FirstInFirstOut | Common/Utils/include/ConcurrentQueue.h:53-138 | what was pushed is what was popped, in the same order, followed by what is in the queue |
| ConcurrentQueue.RemovesWhatItReturns | Common/Utils/include/ConcurrentQueue.h:77-138 | a call that answers false has removed nothing; one that hands out an element has removed just that one |
| QueueReplies.RepliesFit | Common/Utils/include/ConcurrentQueue.h:53-138 | in every run every call answers what its body saw in the queue: push and empty as they should, tryPop nothing exactly when the queue was empty and its oldest element otherwise, waitAndPop always the oldest element, and the timed waitAndPop nothing exactly when its time has run out |
| QueueReplies.TryPopTakes | Common/Utils/include/ConcurrentQueue.h:77-88 | the body of tryPop, in any state |
| QueueReplies.EmptyTells | Common/Utils/include/ConcurrentQueue.h:61-69 | the body of empty |
| QueueReplies.WaitTakes | Common/Utils/include/ConcurrentQueue.h:98-138 | the bodies of waitAndPop: the oldest element if there is one, otherwise sleep with the mutex free |
| ConcurrentQueue.Conservation | Common/Utils/include/ConcurrentQueue.h:53-138 | no element is lost, made up or handed out twice, over all threads |
| ConcurrentQueue.NoLostWakeup | Common/Utils/include/ConcurrentQueue.h:53-58 | while someone sleeps although there is an element, a producer has added one and has yet to broadcast; when the mutex is free it is between its unlock and its broadcast |
| ConcurrentQueue.UnlockedExactly | Common/Utils/include/ConcurrentQueue.h:53-58 | while someone sleeps although there is an element, somebody is between unlock and broadcast exactly when it is not so that the only producer with something to announce still holds the mutex |
| ConcurrentQueue.AsleepWhilePushing | Common/Utils/include/ConcurrentQueue.h:53-58 | a run in which, with the mutex still held, nobody is between unlock and broadcast yet: the condition on the mutex is needed |
| ConcurrentQueue.Settled | Common/Utils/include/ConcurrentQueue.h:98-106 | when no thread can go on by itself, the mutex is free and nobody sleeps while there is an element |
| ConcurrentQueue.RunsEnd | Common/Utils/include/ConcurrentQueue.h:53-138 | without new calls, spurious wakeups and timeouts, the threads take a bounded number of steps, in any order |
| ConcurrentQueue.ElementsGetTaken | Common/Utils/include/ConcurrentQueue.h:53-138 | from every reachable state they therefore settle with an empty queue or without a waiting consumer |
| Buffer.Buffer.EnlargeData | Common/Utils/src/Buffer.cpp:100-122 | an array larger by the request or by a quarter, whichever is more, with the bytes before the write cursor; refused, without change, for a buffer that must not grow |
| Buffer.Buffer.Room | Common/Utils/src/Buffer.cpp:192-197 | after making room, the contents differ at most in bytes that the coming write covers |
| Buffer.OverwriteCovers | Common/Utils/src/Buffer.cpp:107-117 | growth that copies only the bytes before the write cursor loses nothing |
| Buffer.Buffer.WriteNextByteArray | Common/Utils/src/Buffer.cpp:192-211 | the contents with the bytes written at the cursor, or no change in a full fixed buffer; the read cursor and the limits are kept |
| Buffer.Buffer.WriteNext8bit | Common/Utils/src/Buffer.cpp:335-347 | the same for one signed byte |
| Buffer.Buffer.WriteNextUnaligned16bit | Common/Utils/src/Buffer.cpp:320-333 | the same for 16 bits, big-endian two's complement |
| Buffer.Buffer.WriteNextUnaligned32bit | Common/Utils/src/Buffer.cpp:247-262 | the same for 32 bits |
| Buffer.Buffer.WriteNextUnaligned64bit | Common/Utils/src/Buffer.cpp:264-276 | the same for 64 bits, also when the buffer grows once for both halves |
| Buffer.Buffer.WriteNextCharString | Common/Utils/src/Buffer.cpp:154-161 | the same for a C string and its NUL; 0 when it does not fit |
| Buffer.Buffer.SetReadPos | Common/Utils/src/Buffer.cpp:132-141 | the read cursor, clamped to the valid bytes |
| Buffer.Buffer.SetWritePos | Common/Utils/src/Buffer.cpp:143-152 | the write cursor, clamped to the valid bytes |
| Buffer.Buffer.JumpReadPos | Common/Utils/src/Buffer.cpp:592-612 | a signed move of the read cursor, clamped at both ends |
| Buffer.Buffer.JumpWritePos | Common/Utils/src/Buffer.cpp:624-644 | a signed move of the write cursor, clamped at both ends |
| Buffer.Buffer.ReadNext8bit | Common/Utils/src/Buffer.cpp:448-459 | the number at the read cursor, or 0 without moving when it is not all there |
| Buffer.Buffer.ReadNextUnaligned16bit | Common/Utils/src/Buffer.cpp:434-446 | the same for 16 bits |
| Buffer.Buffer.ReadNextUnaligned32bit | Common/Utils/src/Buffer.cpp:418-432 | the same for 32 bits |
| Buffer.Buffer.ReadNextUnaligned64bit | Common/Utils/src/Buffer.cpp:278-290 | the same for 64 bits |
| Buffer.Buffer.GetNextCharString | Common/Utils/src/Buffer.cpp:542-555 | the bytes up to the next NUL and the cursor behind it, or nothing and no move when there is no NUL |
| Buffer.DecodeEncode | Common/Utils/src/Buffer.cpp:247-459 | every item is read back, with its exact size, from where it was written |
| Buffer.ReadBack | Common/Utils/src/Buffer.cpp:192-459 | a list of items of mixed kinds written one after the other is read back item by item |
| Buffer.WriteAndReadBack | Common/Utils/src/Buffer.cpp:132-459 | any items of mixed kinds, written through the methods of a buffer that may grow, are read back through its methods once the read cursor stands where writing began |
| Wire.Get16Be16 | ngplib/template/NParam.cpp:142-146 | two bytes are the big-endian form of v if and only if they read as v |
| Wire.Get32Be32 | ngplib/template/NParam.cpp:148-154 | the same for four bytes |
| ProtocolExamples.NumbersWritten | ngplib/template/NParam.cpp:142-164 | numbers of each size in numerals, most significant byte first |
| NParam.NParam.AddUint16 | ngplib/template/NParam.cpp:142-146 | appends the big-endian bytes |
| NParam.NParam.AddUint32 | ngplib/template/NParam.cpp:148-159 | appends the big-endian bytes |
| NParam.NParam.AddInt32 | ngplib/template/NParam.cpp:161-164 | appends the two's complement bytes |
| NParam.NParam.AddString | ngplib/template/NParam.cpp:407-410 | appends the string up to its first NUL and one NUL |
| NParam.NParam.IncGetUint32 | ngplib/template/NParam.cpp:271-290 | the four bytes at the index modulo 65536 are the big-endian form of the result: the reading function takes a 16-bit index |
| NParam.NParam.IncGetInt32 | ngplib/template/NParam.cpp:302-307 | the bytes before the new index are the two's complement form of the result |
| NParam.NParam.IncGetString | ngplib/template/NParam.cpp:426-431 | the bytes up to the next NUL, and the index after it |
| StructCodec.Serialize | ngplib/generator_cpp.py:349-439 | the emitted serialiser of any schema appends the serialised value and nothing else |
| StructCodec.Construct | ngplib/generator_cpp.py:441-497 | the emitted constructor of any schema reads what the parser specification reads at that index, unsigned 32-bit numbers at the index modulo 65536 |
| StructCodec.ConstructList | ngplib/generator_cpp.py:852-894 | the emitted loop over a parameter that is a list of structs, with the 16-bit length it compares to |
| StructCodec.RoundTrip | ngplib/generator_cpp.py:349-497 | for every schema of numbers, strings, nested structs and arrays sized by a constant or an earlier member: a value written between any other bytes is given back by the constructor, with the index behind it, if and only if its strings hold no NUL, its arrays have the sizes of the schema, and every unsigned 32-bit member that starts at index 65536 or later has its four bytes at the index modulo 65536 too |
| StructCodec.WriteBack | ngplib/generator_cpp.py:349-497 | whatever a constructor reads is sound and as long as the bytes it passed over; it serialises to exactly those bytes if and only if the same holds of its unsigned 32-bit members |
| StructCodec.ReadExactly | ngplib/generator_cpp.py:441-497 | over any bytes and at any index, a constructor gives a value if and only if the value is sound and each of its numbers and strings stands where the constructor looks for it |
| StructCodec.ShortIsSame | ngplib/generator_cpp.py:441-497 | nothing is asked of the numbers of a value that ends before index 65540 |
| StructCodec.NumberLost | ngplib/template/NParam.cpp:271-290 | a text of 65535 bytes and the number 0, which is read back as 0x61616161 |
| ProtocolExamples.StructWritten | ngplib/generator_cpp.py:349-439 | a struct with a member of each kind and an array, in numerals |
| ProtocolExamples.SizesUnsigned | ngplib/generator_cpp.py:441-497 | a size of -1 is compared as 4294967295 |
| StructCodec.ListRoundTrip | ngplib/generator_cpp.py:852-894 | a list of structs of at most 65535 bytes is recovered if and only if every element takes at least one byte |
| StructCodec.LongListRoundTrip | ngplib/generator_cpp.py:852-894 | in general: if and only if every element takes a byte, starts before the reported length, which wraps at 65536, and has no unsigned 32-bit member that is looked for among other bytes |
| StructCodec.LongListLost | ngplib/generator_cpp.py:852-894 | 65536 structs of one byte each are read back as the empty list |
| NParamBlock.InsertKeepsOrder | ngplib/template/NParamBlock.cpp:182-185 | inserting keeps the order of ids, adds exactly the parameter, and puts it behind those with the same id |
| NParamBlock.EqualRange | ngplib/template/NParamBlock.cpp:123-134 | the range found for an id is all its parameters in order of insertion, and the rest is what removal leaves |
| NParamBlock.InsertSorted | ngplib/template/NParamBlock.cpp:355-367 | inserting the parameters of a sorted block one by one rebuilds it |
| NParamBlock.ScanExact | ngplib/template/NParamBlock.cpp:83-107 | the parser uses up all bytes if and only if they are the records of some parameters |
| NParamBlock.ScanFinds | ngplib/template/NParamBlock.cpp:83-104 | the parameters found are the records in front, also in an invalid block |
| NParamBlock.ScanRecords | ngplib/template/NParamBlock.cpp:83-104 | the records of parameters are parsed to those parameters |
| NParamBlock.BlockRoundTrip | ngplib/template/NParamBlock.cpp:32-179 | a written block is read back in order and valid if and only if no parameter is longer than 65535 bytes |
| ProtocolExamples.BlockWritten | ngplib/template/NParamBlock.cpp:137-157 | a block of two parameters in numerals, with the flag word from protocol version 12 on |
| ProtocolExamples.FlagsRead | ngplib/template/NParamBlock.cpp:44-51 | flag words in numerals, and where they end |
| ProtocolExamples.PackedOrNot | ngplib/template/NParamBlock.cpp:52-78 | a block is unpacked when the lowest bit of its first flag word is set |
| NParamBlock.NParamBlock.Parse | ngplib/template/NParamBlock.cpp:32-108 | valid exactly when the bytes behind the flag words, which are read at the index modulo 65536, or what they unpack to when the gzip flag is on, are complete records; the parameters in id order; no parameters and not valid when unpacking fails; all reads within the buffer |
| NParamBlock.FlagsExactly | ngplib/template/NParamBlock.cpp:44-51 | the flag words end where they are written to end if and only if that is at index 65536 at the latest, or they fill the block |
| NParamBlock.RecordTakenForFlags | ngplib/template/NParamBlock.cpp:44-51 | 16385 flag words and a record are found to be a valid block without parameters |
| NParamBlock.NParamBlock.AddParam | ngplib/template/NParamBlock.cpp:182-185 | insertion behind equal ids, and the place of the new parameter |
| NParamBlock.NParamBlock.UpdateParam | ngplib/template/NParamBlock.cpp:188-198 | replaces the bytes of one parameter with the id, or adds the parameter when there is none |
| NParamBlock.NParamBlock.RemoveParam | ngplib/template/NParamBlock.cpp:201-204 | removes all parameters with the id and keeps the order of the others |
| NParamBlock.NParamBlock.GetParam | ngplib/template/NParamBlock.cpp:111-120 | some parameter with the id, or none exactly when there is none |
| NParamBlock.NParamBlock.GetAllParams | ngplib/template/NParamBlock.cpp:123-134 | appends all parameters with the id in order of insertion |
| NParamBlock.NParamBlock.AssignToThis | ngplib/template/NParamBlock.cpp:355-367 | takes over parameters and validity but not the flags; assigned to itself, a block ends up empty |
| NParamBlock.NParamBlock.WriteParams | ngplib/template/NParamBlock.cpp:137-157 | appends the flag word, from protocol version 12 on, and the records |
| NParamBlock.NParamBlock.WriteTo | ngplib/template/NParam.cpp:356-363 | appends id, length modulo 65536 and bytes |
| NavPacket.CryptTwice | ngplib/template/NavPacket.cpp:51-64 | applying the stream twice gives the bytes back |
| ProtocolExamples.XorWords | ngplib/template/NavPacket.cpp:24-64 | the 256 bytes of the string are 23 words, most of them three times, on its even and its odd places |
| ProtocolExamples.PacketWritten | ngplib/template/NavPacket.cpp:82-135 | a whole packet in numerals: head, length, status, checksum and encryption |
| NavPacket.Encrypt | ngplib/template/NavPacket.cpp:51-64 | the loop with its wrapping counter applies the stream in place to the bytes from an offset on |
| NavPacket.SealVector | ngplib/template/NavPacket.cpp:116-134 | length, checksum and encryption on a whole vector |
| NavPacket.NavReplyPacket.WriteToInternal | ngplib/template/NavPacket.cpp:82-135 | the bytes appended to any vector, and the patches on the vector as a whole |
| NavPacket.NavReplyPacket.WriteTo | ngplib/template/NavPacket.cpp:137-141 | the sealed packet with the parameters of the reply |
| NavPacket.NavReplyPacket.WriteToExtra | ngplib/template/NavPacket.cpp:143-159 | the sealed packet with the extra parameters inserted |
| NavPacket.NavReplyPacket.SetStatusMessage | ngplib/template/NavReplyPacket.h:138-143 | the status message buffer is reserved, cleared and then holds the string and its NUL |
| NavPacket.LengthField | ngplib/template/NavPacket.cpp:116-121 | the length field, in the clear, is the size of the packet |
| NavPacket.ChecksumField | ngplib/template/NavPacket.cpp:123-128 | the last four clear bytes are the checksum of all clear bytes before them |
| NavPacket.DamageShows | ngplib/template/NavPacket.cpp:123-128 | damage within four consecutive clear bytes changes the checksum |
| NavPacket.PrefixFree | ngplib/template/NavPacket.cpp:82-135 | no packet is a proper prefix of another one |
| NavPacket.CheckSTX | ngplib/generator_cpp.py:1329-1360 | short header, wrong first byte, or the number of bytes still to come |
| NavPacket.ParseReply | ngplib/template/NavReplyPacket.cpp:37-53 | the parsing constructor finds the fields, the text up to its NUL and the parameters, or reads outside of its data exactly when they are not there |
| NavPacket.CreateReply | ngplib/generator_cpp.py:1380-1408 | decrypts in place from offset 5, gives nothing exactly when the packet type, read as a signed number, is not a known one, and otherwise parses |
| NavPacket.ReplyRoundTrip | ngplib/template/NavReplyPacket.cpp:30-66 | a reply whose status message buffer holds no NUL, written, stripped of five bytes, decrypted and parsed, gives its fields and its message back, and its parameters in order with a valid block if and only if none is longer than 65535 bytes |
| NavPacket.ReplyRoundTripExact | ngplib/template/NavReplyPacket.cpp:30-66 | over all replies that the class can build, the dispatch finds the packet type, and the parameters come back with a valid block if and only if the status message was never set and no parameter is longer than 65535 bytes |
| MergePacket.AbsorbKeeps | ngplib/generator_cpp.py:1199-1213 | taking over one packet keeps the invariant: all ids from the settled ancestors, no definition from elsewhere, and each from a packet that derives from no settled one that defines the id |
| MergePacket.Generator.MergePacket | ngplib/generator_cpp.py:1195-1219 | merge_packet terminates for acyclic packets, since the greatest height left falls in every round, and leaves every id that the packet or an ancestor defines or refers to, as the global parameter where that is referred to, and otherwise as one of those packets defines it that derives from no other one of them |
| MergePacket.Generator.TakeRound | ngplib/generator_cpp.py:1199-1213 | one round of the outer loop, in any order of the packets, lowers every height that is left |
| MergePacket.Generator.MergeAll | ngplib/generator_cpp.py:1276-1280 | merging all packets in any order leaves every one of them merged |
| MergePacket.MergedUnique | ngplib/generator_cpp.py:1195-1219 | when no two ancestors define an id differently there is only one merged form of a packet, so the order of merging does not show |
| MergePacket.MergedExactly | ngplib/generator_cpp.py:1195-1219 | the merged tables are then exactly the definitions of the packet, its ancestors and the global parameters they refer to |
| MergePacket.OrderShows | ngplib/generator_cpp.py:1201-1213 | with an enum that two ancestors define differently, the order in which they are taken over decides |
| MergePacket.InheritedWins | ngplib/generator_cpp.py:1199-1219 | an id that a proper ancestor defines is defined as a proper ancestor says that derives from no other packet defining it, or as the global parameter when that is referred to, whatever the packet itself says |
| MergePacket.OwnOverridden | ngplib/generator_cpp.py:1205-1213 | a packet that defines an enum as "0" and its only parent as "1" ends with "1" |
| Derivation.HeightFalls | ngplib/generator_cpp.py:1199-1213 | a packet reached along derives that does not reach itself reaches fewer packets: the height that the rounds lower |
| MergeCycles.EndsExactly | ngplib/generator_cpp.py:1198-1213 | merge_packet, on packets as they were read, ends if and only if the packet does not derive from a set of other packets each of which derives from another one of the set; and then after at most as many rounds as there are packets, in any order |
| MergeCycles.NeverDone | ngplib/generator_cpp.py:1198-1213 | once a packet derives from one of such a set it always does, whatever is taken over in whatever order |
| MergeCycles.CycleIsTrap | ngplib/generator_cpp.py:1198-1213 | a cycle that does not pass through the packet is such a set |
| MergeCycles.AllEndExactly | ngplib/generator_cpp.py:1276-1280 | merging packets one after the other, in any order and with cycles, ends if and only if no packet meets such a set when its turn comes, the packets before it being emptied of what they derive from |
| MergeCycles.OrderDecides | ngplib/generator_cpp.py:1276-1280 | of three packets, k derives from a, and a and b from each other: in the order k, a, b merging never ends, in the order a, b, k it does |
| MergeOrders.MergingMerges | ngplib/generator_cpp.py:1276-1280 | whatever the order in which the packets are merged, and in which each round takes packets over, every packet ends merged |
| MergeOrders.EveryOrderEnds | ngplib/generator_cpp.py:1276-1280 | the packets of an acyclic document can be merged in every order |
| MergeOrders.EndsAsExactly | ngplib/generator_cpp.py:1199-1219 | over all these orders, an id that no global parameter replaces ends as v in some packet if and only if v is said by one of the packets that define it, the packet or an ancestor, that derives from no other one of them |
| MergeOrders.OwnEnumStays | ngplib/generator_cpp.py:1205-1213 | an enum of a packet is kept in all orders if and only if every proper ancestor that defines it, and derives from no other packet that does, says the same |
| MergeOrders.OwnStructStays | ngplib/generator_cpp.py:1205-1213 | so is a struct |
| MergeOrders.OwnParamStays | ngplib/generator_cpp.py:1205-1219 | and a parameter, unless a global one of that id is referred to, which then takes its place |
| MergeOrders.LowestDecides | ngplib/generator_cpp.py:1205-1213 | of three packets in a row, the one in the middle defining an enum otherwise than the other two, the first keeps its own in every order |
| MergePacket.NothingLeft | ngplib/generator_cpp.py:1215-1219 | when nothing is left to take over, resolving the references completes the packet |

## Left out

- DecodeMalloc: initial size zero (the limit would be doubled forever), overflow of the doubled limit past 31 bits, and failure of `malloc` or `realloc` are not modelled.
- ParseZlib: nothing is claimed for streams with a reserved verdict: literal/length symbols 286 and 287, distance symbols 30 and 31, more than 286 literal lengths and a repeat code before any length, to which RFC 1951 assigns no meaning; for distance symbols 30 and 31 the source copies bytes of the output that it has not written. With a growing buffer nothing is claimed of the source for the endless streams of `EndlessStream.NeverEndsExactly`: it goes on until `realloc` fails.
- ParseHuffmanBlock: the same for the symbols of one block.
- ReadMatch: the same for distance symbols 30 and 31.
- ComputeHuffmanCodes: the same for the header of a block; with more than 286 literal lengths the source may write past the end of its array.
- CreateImageRaw: models the filter switch inside the pixel loop, not hoisted out of it; the values are the same. Reads past the end of a pass are an outcome, not memory contents. `stbi_png_partial` is 0, and widths and heights do not overflow 32 bits.
- CreateImage: where the source looks for a pass behind the end of all data, the outcome is the read past the end, not what lies there.
- PNG chunks, palettes, transparency and file reading; JPEG, BMP, TGA, PSD, HDR and the image writers; Adler-32, which the source does not check.
- WriteParams: the form without gzip, which the default argument selects; packing with `GzipUtil` is left out.
- Parse: the uncompressed size that it reports is left out.
- UpdateParam: changes one of several parameters with the id; which one `std::multiset::find` returns is left open, as in the C++ standard.
- Construct: reads past the end of a parameter, which the emitted code does not check for, are the outcome `Past`. The 32-bit index of the emitted code does not wrap around, so a parameter has less than 2^32 bytes.
- Count: a size that refers to the member itself, to a later one or to none that is a number counts as 0; the results are of use for schemas in which sizes refer to an earlier number, since the emitted code does not compile for the others or reads a member that has no value yet.
- ConstructList: an element that takes no bytes makes the emitted loop endless; this is the outcome `Endless`.
- StructCodec leaves out floats, `bool` members, arrays of strings, and packet-level arrays of simple types, where the emitted loop does not advance its index.
- `NParam::getInt32`, which swaps bytes twice on little-endian machines; the emitted code uses `incGetInt32`.
- Buffer leaves out aligned accesses, `setValidBytes`, `vnprintf`, floats and the handing over of the memory, as well as lengths beyond 32 bits.
- WriteToInternal: packets of 2^32 bytes or more keep their length modulo 2^32; `LengthField` and `PrefixFree` are for smaller ones.
- CreateReply: the types that the emitted switch knows are a parameter, and all of them are parsed as replies without members of their own.
- ParseReply: the packet subclasses that read their members out of the parameters, and request packets, whose parsing constructor the source does not implement.
- MergeAll: what the tables then hold is stated for acyclic packets only, here and in `MergeOrders`; when merging ends in some order is `MergeCycles.AllEndExactly`, for all packets.
- MergePacket: the merged documentation comments, and dictionaries with missing targets, for which the source raises an error. It is stated for packets none of which derives from itself; when it ends in general is `MergeCycles.EndsExactly`, which is about packets as they were read.
- ConcurrentQueue: creation and destruction of the queue while threads use it, and fairness of the mutex: progress is stated for runs that go on until no thread can.
