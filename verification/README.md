# Verified model of the miniz codec, the ZIP layer and two game cores

This project models, in Dafny, the DEFLATE compressor and decompressor of `src/external/miniz.h`, the ZIP writer,
reader and name index in the same file with the layer `src/external/zip.c` above it, the freight list of
`src/simutrans/freight_list_sorter.cc` and the event source of `src/simutrans/simevent.cc`, and proves what they are
for. Code that changes fields and arrays is modelled by classes and methods over arrays; its specifications are
functions and relations on values. `dafny verify dfyconfig.toml` checks everything.

The main results, for all inputs:

* **Compression loses nothing** (`Codec.RoundTripPieces`, `Streaming.RoundTripStreamed`). What the compressor sends
  for any input, given in any pieces with any flushes, and any setting (greedy, lazy or run-length parsing, raw,
  static or dynamic blocks, with or without zlib framing, with cleared tables or without) decompresses to the input,
  again in any pieces, into one large buffer or through a circular one of 32 KiB. There is no side condition: that the
  output buffer is never full is proved too (`Flushing.FlushBlock`), by way of Huffman's theorem. The code lengths of
  the in-place Moffat-Katajainen construction are optimal (`MinRedundancy.CalculateMinimumRedundancy`), limiting them
  to 15 bits costs at most one bit for each symbol (`LimitCost.LimitedCost`), and so no block is too long.
* **The decompressor can be interrupted anywhere** (`Codec.InflateTwice`, `Tinfl.Decompressor.Call`). The coroutine
  with its bit reservoir, fast path, slow path and put-back is a refinement of an abstract machine over a bit string
  (`Inflate`), which always makes progress; output and status depend on the input and the room for output alone. With
  a circular buffer the outcome is the same exactly when no distance reaches back too far and the zlib header, if it is
  complete and valid otherwise, announces a dictionary that DEFLATE allows (`Window.WindowAgrees`). What has been read
  before a wait is used up by the step after it (`Codec.ReadsPast`), so that the code's assertion of an empty reservoir
  at the end holds (`Codec.NothingHeld`), but for incomplete codes: `IncompleteCodes.ReservoirLeft` is an input for
  which it fails.
* **Tables and codes are inverse to each other.** Radix sort, code lengths, limiting and bit-reversed canonical codes
  on one side, the 10-bit table with its overflow tree on the other, meet only in the code words of RFC 1951
  (`HuffmanTable.OptimizeHuffmanTable`, `DecodeTable.BuildTable`, `DecodeTable.DecodeCodeWord`).
* **Archives are read back** (`ZipArchive.RoundTrip`, `ZipLookup.WriteThenRead`): entries written in any pieces at any
  level, stored or deflated, come back in order or by name; they tile the file, and 64-bit fields survive
  (`ZipReader.FileStat`).
* **The name index agrees with the scan** (`NameSearch.BothWays`), with the exact condition under which it does not.
* **The freight list neither loses nor double-counts goods** (`FreightHeadings.SortFreight`). That each category has one
  heading with its full total holds for exactly the goods stated for each mode in `FreightExact.HeadingsExactly`; in
  terms of the categories alone the condition is in `GoodsCategories.HeadingsByCategory`.
* **Every due double or triple click is delivered once** (`Clicks.EventSource.Poll`, `Clicks.KthPair`).

How it fits together: `Bits` has bit strings and machine words. `Canonical`, `DecodeTable`, `RadixSort`,
`MergeQueues`, `OptimalCode`, `HuffmanCost`, `MinRedundancy`, `Histograms`, `LengthLimit`, `LimitCost`, `SymbolOrder`
and `HuffmanTable` are about Huffman codes. `Tokens`, `LzCodes`, `BitWriting`, `CodeLengths`, `DynamicHeader`,
`BlockStart`, `BlockSize` and `Flushing` write blocks; `Dictionary`, `Parsing` and `Compressing` choose tokens.
`Inflate` is the abstract decompressor; `BlockBody`, `Blocks` and `Streams` run it over what is written; `Reservoir`,
`LzCopy`, `Progress` and `Tinfl` are the real one, `Window` compares its two kinds of output buffer, and `Codec` and
`Streaming` put both ends together; `IncompleteCodes` builds the stream for which an assertion fails. `Adler32` and
`Crc32` are the checksums. `ZipDeflate` is the codec as archives use it, `LittleEndian` and `ZipFormat` to `ZipLookup`
are the archive, `NameIndex` and `NameSearch` the index, `Freight`, `FreightList`, `FreightHeadings`, `FreightExact`
and `GoodsCategories` the freight list, `Clicks` the event source.

The configuration modelled is the one that is built: no unaligned loads and stores, a 64-bit reservoir. Positions in
the source text of the compressor are unbounded integers where the code uses wrapping 32-bit words; only their low
bits and differences of them are ever used, and no difference reaches 2^32 (`Compressing.Compressor.BlockFitsWord`).
Clock readings, file contents and system events are parameters.

Where code and intention differ, the code is followed: without any special good the category index 0 is taken for "not
assigned" (`GoodsCategories.AssignCategories` states exactly when the indices are right, and
`GoodsCategories.HeadingsByCategory` when the headings are), names of 4 GiB are cut to 32 bits by the binary search
only (`NameSearch.BothWays`), and the comment at `src/external/miniz.h:3198` calls a case unlikely that is impossible
(`Flushing.DynamicShort`).

## Model

| member | source | states |
|---|---|---|
| `Codec.RoundTrip` | src/external/miniz.h:3917-3937 | For every input, every setting and whatever the memory of the compressor held before, decompressing what one finishing call sent ends with `Complete` and gives the input back, in a buffer of exactly its size. No condition on the input. |
| `Codec.RoundTripPieces` | src/external/miniz.h:3792-3862 | The same for any sequence of calls with any flushes between them, decompressed in any pieces. |
| `Streaming.RoundTripStreamed` | src/external/miniz.h:4864-4896 | The same through a circular buffer of 32768 bytes into a callback that takes all it is given. |
| `Streaming.InflateToCallback` | src/external/miniz.h:4864-4896 | For any bytes: the result is true exactly when they are a complete stream with the right checksum and the callback has got all its data; otherwise the callback refused, or has got the output up to where the machine with a blank circular buffer starves or fails. |
| `Streaming.CallbackAgrees` | src/external/miniz.h:4864-4896 | A stream that one large buffer can hold decompressed comes out of the circular one in the same way. |
| `Window.WindowAgrees` | src/external/miniz.h:4351-4365 | A circular buffer of at least 32768 bytes and one large buffer end in the same state exactly when the large one finds no distance too far and the zlib header announces a dictionary that DEFLATE allows, unless the header is incomplete or is refused in any case. |
| `Window.WindowRun` | src/external/miniz.h:4653-4679 | Any run that finds no distance too far, behind a header with an allowed dictionary or none, is also a run with a circular buffer, whatever that held before. |
| `Window.OversizedAgrees` | src/external/miniz.h:4392-4398 | With a larger dictionary announced the two agree exactly when the second byte of the header is missing or is refused by both. |
| `Codec.InflateChunks` | src/external/miniz.h:4323-4799 | Input cut at any points, with empty pieces too: status and output are an outcome of the abstract machine on the joined input, with its checksum, also when the room is used up; at the end of a stream the reservoir is empty exactly when what is left of the joined input is no longer than the last piece fed and those behind it. |
| `Codec.InflateTwice` | src/external/miniz.h:4183-4312 | Resumability: however the input is cut and whatever the room, output and status are those of one call on the whole input. |
| `Codec.OneOutcome` | src/external/miniz.h:4323-4799 | Status and output are determined by input and room. |
| `Codec.NothingHeld` | src/external/miniz.h:4727-4735 | The assertion that the reservoir is empty at the end holds for a call that follows a wait, unless that was for a symbol of an incomplete code. |
| `Tinfl.Decompressor.DoFinalAlign` | src/external/miniz.h:4727-4735 | After alignment and put-back the reservoir is empty, as the assertion there says, exactly when the unread stream is no longer than the input of this call. |
| `IncompleteCodes.TwoLeft` | src/external/miniz.h:4727-4735 | The assertion fails for a stream with an incomplete distance code: after 14 bytes the machine waits with 14 bits, with one byte more it is at the end with two bytes left. |
| `IncompleteCodes.ReservoirLeft` | src/external/miniz.h:4727-4735 | A decompressor that is fed these 15 bytes in two calls ends with 8 bits in its reservoir. |
| `IncompleteCodes.Unassigned` | src/external/miniz.h:4273-4292 | Input that begins with no code word is recognised with fifteen bits, of which none are taken. |
| `Codec.ReadsPast` | src/external/miniz.h:4286-4312 | A decompressor that waited with some bits reads past all of them in its next step, unless its code is incomplete: it gives nothing up that it has read. |
| `Codec.Resume` | src/external/miniz.h:4183-4201 | A suspended run continued with more input is a run on the concatenated input. |
| `Codec.ReachesEnd` | src/external/miniz.h:4323-4799 | On the bits of a finished stream no run can pause, starve or fail short of the end while room remains; at the end the output is the data and the trailer is its checksum. |
| `Compressing.CompressAll` | src/external/miniz.h:3917-3937 | One call that finishes the stream: its bytes decode to the input from a fresh decompressor, and carry the Adler-32 of the input under zlib framing. |
| `Compressing.CompressPieces` | src/external/miniz.h:3792-3862 | Any pieces with any flushes: the bytes sent decode to the joined pieces, with their checksum under zlib framing. |
| `Compressing.Compressor.Compress` | src/external/miniz.h:3792-3862 | Over any sequence of calls: input is only accepted in the order of calls, misuse after a finish is refused and changes nothing, after every flush what was sent decodes to all input so far, and what is sent is bounded by the blocks that the input can fill. |
| `Compressing.Compressor.BlockFitsWord` | src/external/miniz.h:3119-3122 | However far the 32-bit positions have got, the length of a block is their difference as 32-bit words. |
| `LzCodes.LzBuffer.BlockLength` | src/external/miniz.h:3587-3625 | However well the data compresses, a block covers less than 17 MiB. |
| `Streams.FlushDecodes` | src/external/miniz.h:3116-3255 | Appending the bits of one flushed block to a stream that decodes to `out` gives a stream that decodes to `out` and the contents of the block. |
| `Streams.RunFlush` | src/external/miniz.h:3116-3255 | The machine runs over header, block and trailer of one flush and ends where the next block begins, or at the end. |
| `Compressing.Compressor.ParseOne` | src/external/miniz.h:3686-3750 | One round of the parser, greedy, lazy or run-length: the tokens and the saved literal still stand for the source up to the new position, and the position moves on. |
| `Compressing.Compressor.Decide` | src/external/miniz.h:3716-3744 | Recording, deferring or replacing a match keeps the tokens and the saved literal equal to the source. |
| `Compressing.Compressor.ChooseMatch` | src/external/miniz.h:3687-3715 | Whatever match is chosen is a true match of the source, within the dictionary and the lookahead. |
| `Compressing.Compressor.RunMatch` | src/external/miniz.h:3693-3705 | The run-length mode only offers true matches at distance 1. |
| `Compressing.Compressor.CompressNormal` | src/external/miniz.h:3627-3769 | The whole input is taken in; all invariants hold between rounds, and with a flush nothing stays in the lookahead. |
| `Compressing.Compressor.FlushCurrent` | src/external/miniz.h:3753-3763 | A block sent in the middle covers the tokens exactly and leaves the saved literal for the next block. |
| `Compressing.Compressor.RefillFast` | src/external/miniz.h:3636-3658 | The unrolled refill with its rolling hash fills ring and mirror with the same bytes as one insertion at a time. |
| `Compressing.Compressor.RefillSlow` | src/external/miniz.h:3659-3680 | The refill at the start of a stream keeps the ring a window on the source. |
| `Parsing.AddMatch` | src/external/miniz.h:3600-3625 | A token for a true match extends what the tokens expand to by exactly the matched source bytes. |
| `Parsing.AddLiteral` | src/external/miniz.h:3587-3597 | A literal token extends what the tokens expand to by one source byte. |
| `Parsing.NothingPending` | src/external/miniz.h:3716-3750 | At the end of the source no literal is saved any more, and the tokens alone expand to the source. |
| `Dictionary.FindMatch` | src/external/miniz.h:3343-3388 | The result is the match given, or a longer true match within the distance allowed, despite ring wrap and the mirrored tail. |
| `Dictionary.MatchLength` | src/external/miniz.h:3375-3379 | The longest common prefix, up to the limit. |
| `Dictionary.Probe` | src/external/miniz.h:3357-3372 | A candidate is at most three links of the hash chain away, lies within the distance, and agrees in the two bytes tested. |
| `Dictionary.WindowRead` | src/external/miniz.h:3375-3379 | Reading on behind a ring position needs no wrap: the mirrored tail has the bytes of the source. |
| `Dictionary.Store` | src/external/miniz.h:3650-3652 | Storing a byte, and its mirror, slides the window by one. |
| `Dictionary.MatchExpands` | src/external/miniz.h:3375-3386 | Where source and earlier source agree, expanding the match token gives the source, overlaps included. |
| `Flushing.FlushBlock` | src/external/miniz.h:3116-3242 | The bits of one flush are a framed block that says what was collected; the assertion at 3230, that nothing was dropped, always holds. |
| `Flushing.PutBlock` | src/external/miniz.h:3167-3204 | The block is sent raw, static or dynamic, and in each case stands for the tokens or for the bytes of the ring. |
| `Flushing.CompressBlock` | src/external/miniz.h:3105-3111 | Header and tokens in the code chosen; whatever the tokens, the block is shorter than the output buffer. |
| `Flushing.DynamicShort` | src/external/miniz.h:3198-3204 | A block with dynamic codes is never too long for the output buffer, which the source only calls extremely unlikely. |
| `Flushing.StaticLength` | src/external/miniz.h:3105-3111 | With the static codes ten bits for each byte of the code buffer are enough. |
| `Flushing.PutStored` | src/external/miniz.h:3182-3197 | A raw block: length, its complement, and the bytes out of the ring. |
| `Flushing.PutZlibHeader` | src/external/miniz.h:3139-3163 | The two header bytes of RFC 1950 are a valid zlib header for every number of probes. |
| `Flushing.PutChecksum` | src/external/miniz.h:3211-3217 | The checksum goes out most significant byte first. |
| `Flushing.PutTail` | src/external/miniz.h:3206-3228 | Trailer or empty stored block, ending on a byte boundary. |
| `BlockSize.BodyLength` | src/external/miniz.h:3060-3101 | With the lengths built from its own counts the body of a block takes at most ten bits for a literal and thirty-one for a match on the whole. |
| `BlockSize.PackBytes` | src/external/miniz.h:3587-3625 | Eight literals take nine bytes of the code buffer and eight matches twenty-five. |
| `BlockSize.HeaderSmall` | src/external/miniz.h:2912-2936 | The header of a dynamic block takes at most 4600 bits. |
| `BlockSize.TokensLength` | src/external/miniz.h:3060-3101 | The bits of the tokens are the cost of their counts and at most 18 extra bits for each match. |
| `Blocks.RunBlock` | src/external/miniz.h:4403-4719 | The decompressor, at the start of any block that the compressor can write, ends behind it with its contents appended. |
| `Blocks.RunStored` | src/external/miniz.h:4406-4444 | A raw block is read back byte for byte, whatever bit position it starts at. |
| `Blocks.RunStatic` | src/external/miniz.h:4448-4461 | A static block expands to its tokens. |
| `Blocks.RunDynamic` | src/external/miniz.h:4463-4561 | A dynamic block: header, code lengths and body expand to its tokens. |
| `Blocks.RunZlibHeader` | src/external/miniz.h:4389-4401 | Every header the compressor can write is accepted. |
| `Blocks.RunTrailer` | src/external/miniz.h:4727-4747 | Behind the last block the decompressor skips to the byte boundary and reads the checksum that was written. |
| `BlockBody.RunTokens` | src/external/miniz.h:4562-4717 | The symbol loop over the bits of a token list outputs exactly the expansion of the tokens. |
| `BlockBody.RunBody` | src/external/miniz.h:4562-4717 | The symbol loop over a token list and the end-of-block code outputs the expansion and stops at symbol 256. |
| `BlockBody.RunCopy` | src/external/miniz.h:4659-4716 | The copy loop gives the overlapping copy of RFC 1951. |
| `LzCodes.CompressLzCodes` | src/external/miniz.h:3060-3101 | Reading flags and codes back out of the buffer emits the bits of the recorded tokens and the end-of-block code; the result says whether any byte was dropped. |
| `LzCodes.LzBuffer.RecordLiteral` | src/external/miniz.h:3587-3597 | The buffer, its flag bits, the byte total and the counts go from those of the tokens to those of the tokens and one more literal. |
| `LzCodes.LzBuffer.RecordMatch` | src/external/miniz.h:3600-3625 | The same for a match: length and distance bytes, flag bit and both counts. |
| `LzCodes.LzBuffer.Close` | src/external/miniz.h:3136-3137 | After the flag byte is shifted into place the buffer is the packed form of the tokens. |
| `LzCodes.LzBuffer.Reset` | src/external/miniz.h:3232-3241 | An empty buffer with cleared counts. |
| `LzCodes.PackGroups` | src/external/miniz.h:3587-3625 | Complete groups of eight tokens are packed one after the other. |
| `Tokens.LengthAgrees` | src/external/miniz.h:2529-2560 | For every match length the compressor's symbol, extra bits and the decompressor's base tables agree. |
| `Tokens.DistAgrees` | src/external/miniz.h:2562-2634 | For every distance the compressor's symbol, extra bits and the decompressor's base tables agree. |
| `BitWriting.Writer.PutBits` | src/external/miniz.h:2792-2806 | Bits are appended to all that was written, as long as no byte had to be dropped. |
| `BitWriting.Writer.Restore` | src/external/miniz.h:3167-3169 | Going back to a saved position forgets exactly what was written since. |
| `HuffmanTable.OptimizeHuffmanTable` | src/external/miniz.h:2741-2790 | Sizes within the limit for exactly the counted symbols, longer for rarer ones, that the decompressor accepts as a complete code; reversed canonical codes; and at most one bit for each symbol counted more than any prefix code. |
| `HuffmanTable.AssignSizes` | src/external/miniz.h:2770-2774 | From histogram and order to sizes: as many of each length as counted, the rarer symbols the longer codes. |
| `HuffmanTable.SizesBuildable` | src/external/miniz.h:4490-4498 | A limited histogram gives sizes that pass the decompressor's completeness test. |
| `HuffmanTable.TableNearOptimal` | src/external/miniz.h:2741-2775 | The limited code costs at most one bit for each symbol counted more than any prefix code for all symbols. |
| `MinRedundancy.CalculateMinimumRedundancy` | src/external/miniz.h:2671-2714 | In place: the array of ascending weights becomes the lengths of a complete code, longest first, at most 22, that no prefix code undercuts (Huffman's theorem). |
| `MinRedundancy.DepthBound` | src/external/miniz.h:2671-2714 | Sixteen-bit weights give no code longer than 22 bits, so the 33 counters are never exceeded. |
| `MinRedundancy.InternalDepths` | src/external/miniz.h:2694-2696 | Parent indices become depths, in place. |
| `MinRedundancy.LeafDepths` | src/external/miniz.h:2697-2713 | Depths of internal nodes become lengths of leaves, in place; they are complete and cost what the internal nodes weigh. |
| `MinRedundancy.CountedLevel` | src/external/miniz.h:2701-2713 | One round of phase 3 keeps the account between lengths given and nodes visited. |
| `MinRedundancy.LeafFib` | src/external/miniz.h:2671-2714 | A leaf weighs at most the total divided by a Fibonacci number of its depth. |
| `MergeQueues.BuildTree` | src/external/miniz.h:2679-2693 | The two queues in one array: internal weights, then parents, with the root weighing the sum, and every merge recorded as one of the two smallest weights. |
| `MergeQueues.MergeTwo` | src/external/miniz.h:2682-2693 | One merge of the two smallest weights, with sixteen-bit sums that do not wrap. |
| `HuffmanCost.TreeIsOptimal` | src/external/miniz.h:2679-2693 | The internal weights add up to no more than any prefix code costs. |
| `HuffmanCost.Remaining` | src/external/miniz.h:2679-2693 | After any number of merges every code for the weights leaves one for the waiting weights that is cheaper by all weights made. |
| `HuffmanCost.PrefixSums` | src/external/miniz.h:2679-2693 | The first nodes weigh what their children weigh, for every prefix. |
| `HuffmanCost.LeafOutweighed` | src/external/miniz.h:2679-2693 | A leaf is no heavier than a node made with it or later, and at most half as heavy as any after that. |
| `OptimalCode.MergeSiblings` | src/external/miniz.h:2679-2693 | The exchange step: for any code there is one for the weights after merging the two smallest that is cheaper by the merged weight. |
| `OptimalCode.Siblings` | src/external/miniz.h:2679-2693 | The two smallest weights can be given the same length at no cost. |
| `LengthLimit.EnforceMaxCodeSize` | src/external/miniz.h:2718-2739 | It terminates, keeps the number of codes, never drives a count negative, restores the Kraft equality, and changes nothing when no code is too long. |
| `LengthLimit.Lengthen` | src/external/miniz.h:2730-2737 | One round lengthens a longest code below the limit and takes one at the limit: the covered part shrinks by exactly one. |
| `LengthLimit.ReachedStep` | src/external/miniz.h:2729-2738 | A symbol gets a longer code only when all rarer ones are at the limit already and still too much is covered. |
| `LimitCost.LimitedCost` | src/external/miniz.h:2718-2739 | Limiting to 15 bits costs at most one bit for each symbol counted. |
| `LimitCost.LastTouched` | src/external/miniz.h:2729-2738 | No symbol with a code of less than 7 bits ever gets a longer one. |
| `RadixSort.RadixSortSyms` | src/external/miniz.h:2637-2667 | A stable rearrangement in ascending order, also when the second pass is skipped. |
| `RadixSort.Pass` | src/external/miniz.h:2650-2659 | One counting pass distributes into buckets without changing the order within them. |
| `RadixSort.SecondPassSorts` | src/external/miniz.h:2648-2665 | Sorting by low bytes and then stably by high bytes sorts by key. |
| `Canonical.AssignCodes` | src/external/miniz.h:2777-2789 | The codes stored bit-reversed are the canonical code words of RFC 1951. |
| `Canonical.PrefixFree` | src/external/miniz.h:2777-2789 | No code word is a prefix of another. |
| `Canonical.SomeCodeWord` | src/external/miniz.h:4490-4498 | With a complete code every string of 15 bits begins with a code word. |
| `DecodeTable.BuildTable` | src/external/miniz.h:4485-4534 | The 10-bit table and the overflow tree hold exactly the code; it is refused exactly when the sizes are oversubscribed, or incomplete for more than one symbol. |
| `DecodeTable.InsertLong` | src/external/miniz.h:4515-4533 | A long code gets its path of tree nodes and its leaf; all other entries stay. |
| `DecodeTable.FillFast` | src/external/miniz.h:4507-4514 | A short code fills exactly the entries that begin with it. |
| `DecodeTable.NodesFit` | src/external/miniz.h:4515-4533 | The overflow tree never needs more nodes than the array has, at most one for each symbol. |
| `DecodeTable.DecodeCodeWord` | src/external/miniz.h:4286-4312 | A code word followed by anything decodes to its symbol and is consumed exactly. |
| `DecodeTable.DecodeStable` | src/external/miniz.h:4251-4284 | An answer never depends on bits that were not there yet. |
| `DecodeTable.DecodeFull` | src/external/miniz.h:4286-4312 | Fifteen bits always suffice for an answer. |
| `DecodeTable.HuffLookup` | src/external/miniz.h:4297-4310 | Lookup and tree walk give the symbol and the length of the code word that the bits begin with. |
| `DecodeTable.FillTest` | src/external/miniz.h:4251-4284 | The test on a short reservoir says exactly whether the bits there determine a symbol. |
| `CodeLengths.PackCodeSizes` | src/external/miniz.h:2874-2908 | For every vector of code lengths the packed items unpack to it, extra values fit, counts match, and the packed form is no longer than the input. |
| `CodeLengths.Packer.Next` | src/external/miniz.h:2884-2902 | One code length more: what is packed and what is still counted unpack to the lengths seen. |
| `DynamicHeader.RunItems` | src/external/miniz.h:4535-4561 | The unpacking loop reads the packed items back to the code lengths. |
| `DynamicHeader.RunHeader` | src/external/miniz.h:4463-4561 | The header bits lead the decompressor to the symbol loop with exactly the two vectors of code lengths. |
| `BlockStart.StartDynamicBlock` | src/external/miniz.h:2853-2936 | The header written describes the two tables built from the counts; both are accepted by the decompressor and cost little more than any code. |
| `BlockStart.PutItems` | src/external/miniz.h:2927-2935 | The packed bytes go out as symbols with their extra bits. |
| `BlockStart.TrimBody` | src/external/miniz.h:2867-2872 | Leaving out trailing unused symbols does not change a block body. |
| `BlockStart.CountLengths` | src/external/miniz.h:2917-2921 | The lengths of the code length code that are not sent are all zero. |
| `BlockStart.StartStaticBlock` | src/external/miniz.h:2938-2963 | The fixed codes of RFC 1951, section 3.2.6. |
| `Tinfl.Decompressor.Decompress` | src/external/miniz.h:4323-4804 | One call, with a buffer for all output or a circular one, moves the abstract machine along the bits held and given, to the point where it starves, is full, has failed or is done, with the matching status, consumption, output and running checksum; it is refused exactly for a circular buffer whose size is not a power of two. |
| `Tinfl.Decompressor.Call` | src/external/miniz.h:4379-4773 | At every return the bits held followed by the unread bytes are exactly the unread rest of the stream, after the put-back too. |
| `Tinfl.Decompressor.Run` | src/external/miniz.h:4385-4749 | The loop over all resumption points stops only at a suspension or at the end. |
| `Tinfl.Decompressor.GetBits` | src/external/miniz.h:4231-4240 | The low bits of the stream, taken byte by byte, or suspension with nothing lost. |
| `Tinfl.Decompressor.HuffDecode` | src/external/miniz.h:4286-4312 | The symbol that the stream begins with, or suspension exactly when the bits do not determine one. |
| `Tinfl.Decompressor.Fill` | src/external/miniz.h:4251-4284 | Bytes are fetched only until a symbol is determined. |
| `Tinfl.Decompressor.DoSymbolsFast` | src/external/miniz.h:4574-4637 | The fast path with two symbols from one reservoir load makes the same steps as the slow path. |
| `Tinfl.Decompressor.CopyOut` | src/external/miniz.h:4669-4716 | Suspended and resumed copies of a match add up to the overlapping copy. |
| `Tinfl.Decompressor.DoBlockHeader` | src/external/miniz.h:4403-4461 | The block type decides between the three kinds of block; the fourth fails. |
| `Tinfl.Decompressor.DoStoredByte` | src/external/miniz.h:4419-4444 | Bytes of a stored block, out of the reservoir first and then copied. |
| `Tinfl.Decompressor.DoCodeLength` | src/external/miniz.h:4535-4556 | Code lengths, with their repetitions, up to both tables. |
| `Tinfl.Decompressor.DoDistance` | src/external/miniz.h:4650-4664 | The distance symbol and its extra bits; a distance beyond the output fails. |
| `Tinfl.Decompressor.PutBackBytes` | src/external/miniz.h:4759-4767 | Whole bytes go back to the input and the unread stream stays the same. |
| `Reservoir.LoadWord` | src/external/miniz.h:4577-4583 | Loading four bytes at once appends them to the stream held. |
| `Reservoir.PutBack` | src/external/miniz.h:4759-4767 | The byte on top of the reservoir is the last one read. |
| `Reservoir.FitsLongWord` | src/external/miniz.h:4577-4583 | The reservoir never exceeds 64 bits. |
| `LzCopy.TripleCopy` | src/external/miniz.h:4703-4716 | Three bytes at a time equals one at a time, overlap included. |
| `LzCopy.MaskedCopy` | src/external/miniz.h:4669-4679 | The masked copy, in a circular buffer or a large one, stopped anywhere, equals the byte-by-byte copy. |
| `Progress.StepCloser` | src/external/miniz.h:4323-4799 | Every step of the machine consumes input, produces output or advances the program: it cannot run for ever. |
| `Inflate.StepExtend` | src/external/miniz.h:4183-4312 | A step that was possible is the same step when more input follows. |
| `Inflate.FeedOk` | src/external/miniz.h:4385-4749 | Every transition keeps the state well formed, whatever the input. |
| `Adler32.Update` | src/external/miniz.h:1871-1894 | Blocks of 5552 bytes, eight at a time, with the remainder taken late, give the Adler-32 of RFC 1950, section 9. |
| `Adler32.Block` | src/external/miniz.h:1877-1889 | No intermediate sum of a block exceeds 32 bits, and the sums are those of the definition. |
| `Adler32.RawFits` | src/external/miniz.h:1871-1894 | 5552 bytes without remainder stay below 2^32. |
| `Adler32.AdlerConcat` | src/external/miniz.h:4774-4799 | The checksum of a concatenation continues the checksum of the first part. |
| `Crc32.Update` | src/external/miniz.h:1971-1989 | Four table lookups a round equal the division by the polynomial, bit by bit. |
| `Crc32.LookupSteps` | src/external/miniz.h:1896-1969 | A table lookup is eight steps of the division. |
| `Crc32.CrcConcat` | src/external/miniz.h:1971-1989 | The CRC of a concatenation continues the CRC of the first part. |
| `ZipArchive.RoundTrip` | src/external/zip.c:1045-1222 | Any entries, written in any pieces at any level: reading the finished archive gives the same names and contents, in order. At level 0 it is written exactly when the directory of these entries stays below 4 GiB, and at every level when 74 bytes and the name for each entry do. |
| `ZipArchive.WriteArchive` | src/external/zip.c:1333-1426 | The image is an archive of the entries: local records tile it from 0 without gap or overlap, followed by directory and end records; writing fails exactly at the entry with which the directory reaches 4 GiB. |
| `ZipArchive.DirectoryFits` | src/external/miniz.h:8411-8414 | No contents make a directory longer than 74 bytes and the name for each entry. |
| `ZipArchive.ReadCentralDir` | src/external/miniz.h:5613-5908 | The index of an archive has one position for each entry, in order; of any image, an index that is accepted lists consecutive records inside the directory. |
| `ZipArchive.ReadEntry` | src/external/zip.c:1618-1639 | Entry `i` of an archive: its name and its contents. |
| `ZipLookup.ReadByName` | src/external/zip.c:1082-1123 | Reading by name gives the contents of the first entry with that name, and an error exactly when there is none. |
| `ZipLookup.WriteThenRead` | src/external/zip.c:1082-1123 | Writing an archive and reading from it by name gives what was written first under that name, and an error exactly when nothing was. |
| `ZipFormat.TiledNext` | src/external/zip.c:1128-1222 | Each local record begins where the one before ends, the first at 0. |
| `ZipWriter.Archive.EntryOpen` | src/external/zip.c:1045-1238 | Local header, name and extra data of a new entry behind all that is there; empty names and finalized archives are refused and nothing changes. |
| `ZipWriter.Archive.EntryWrite` | src/external/zip.c:1485-1521 | The contents grow by the bytes given, and the checksum is chained; in the file are the contents, or what the compressor has sent for them. |
| `ZipWriter.Archive.EntryClose` | src/external/zip.c:1333-1426 | The rest of the compressed data, data descriptor and directory record complete the entry; it is refused exactly when the directory would reach 4 GiB. |
| `ZipWriter.Archive.FinishStream` | src/external/zip.c:1357-1367 | Behind the header there is then a stored copy of the contents or a complete DEFLATE stream of them. |
| `ZipWriter.Archive.AddToCentralDir` | src/external/miniz.h:8389-8440 | One more record in the directory; the records before it stay. |
| `ZipWriter.Archive.Finalize` | src/external/miniz.h:9739-9842 | The image becomes an archive of exactly the entries closed. |
| `ZipHeaders.CentralHeader` | src/external/miniz.h:8361-8387 | The fixed part of a directory record, with sizes and offset saturated at 32 bits. |
| `ZipHeaders.LocalHeader` | src/external/miniz.h:8338-8359 | The fixed part of a local header. |
| `ZipHeaders.Zip64Extra` | src/external/miniz.h:8304-8336 | The zip64 extra field holds exactly the values given, in the order of the APPNOTE. |
| `ZipReader.LocateEnd` | src/external/miniz.h:5565-5611 | The last end record signature with room behind it; none is overlooked within 65557 bytes of the end, at the seams of the windows neither. |
| `ZipReader.IndexRecords` | src/external/miniz.h:5781-5908 | A directory is accepted exactly when all its records pass, one behind the other, where extra data are looked at until the first zip64 field; the records of an archive are all accepted. |
| `ZipReader.CheckRecord` | src/external/miniz.h:5787-5905 | A record passes exactly when it lies in the directory, signature, sizes, disk and local data are in order, and its extra data, where they are looked at, are well formed. |
| `ZipReader.FileStat` | src/external/miniz.h:6289-6413 | All 64-bit sizes and offsets written to a directory record come back exactly, and the first 511 bytes of the name. |
| `ZipReader.ReadZip64` | src/external/miniz.h:6372-6404 | The values of the zip64 field go to exactly the saturated fields, in order. |
| `ZipReader.Extract` | src/external/miniz.h:6574-6731 | An entry of an archive, stored or deflated, is given back; whatever is given back has the length and the CRC that the directory announces, and is what the bytes behind the local header stand for. |
| `ZipDeflate.InflateEntry` | src/external/miniz.h:6655-6731 | A deflated entry, read any number of bytes at a time: what comes out is what its stream decompresses to, and a complete stream of the announced size always does. |
| `ZipDeflate.PutMore` | src/external/zip.c:1510-1516 | What the archive's callback gets is what the compressor sends for the bytes given. |
| `ZipDeflate.PutLast` | src/external/zip.c:1357-1364 | After the last call all that was sent is a complete stream of all that was written. |
| `NameIndex.SortIndex` | src/external/miniz.h:5508-5563 | The heap sort leaves a permutation of the file indices, ordered by case-folded name and then length. |
| `NameIndex.SiftDown` | src/external/miniz.h:5526-5538 | The inner loop restores the heap below a position and moves nothing else. |
| `NameIndex.TakeTop` | src/external/miniz.h:5545-5562 | One round of the second phase keeps a heap in front of the sorted rest. |
| `NameIndex.HeapTop` | src/external/miniz.h:5545-5562 | The root of a heap is its largest name. |
| `NameIndex.FilenameLess` | src/external/miniz.h:5470-5498 | Exactly the lexicographic order of the folded names. |
| `NameSearch.BinarySearch` | src/external/miniz.h:6452-6491 | A file with that folded name, or none when there is none. |
| `NameSearch.FilenameCompare` | src/external/miniz.h:6430-6450 | Zero exactly for equal folded names, with the sign of the order. |
| `NameSearch.Scan` | src/external/miniz.h:6523-6571 | The first matching record, under every combination of flags and comment. |
| `NameSearch.Locate` | src/external/miniz.h:6502-6571 | With and without index, a record is found exactly when one matches. |
| `NameSearch.BothWays` | src/external/miniz.h:6502-6571 | Index and scan agree, and on the same record when folded names are distinct; they differ exactly for names of 2^32 bytes or more whose length, cut to 32 bits, makes them an entry's name. |
| `NameSearch.OverlongName` | src/external/miniz.h:6452-6491 | Such names exist for every entry, so the restriction is needed. |
| `NameSearch.StripPath` | src/external/miniz.h:6553-6563 | What follows the last separator. |
| `Clicks.EventSource.Poll` | src/simutrans/simevent.cc:266-288 | Queued events first, then a pending meta-event, and only then the system; every meta-event due is delivered once and none is overwritten. |
| `Clicks.EventSource.Recognise` | src/simutrans/simevent.cc:218-259 | The recogniser's variables follow the trace, and a meta-event arises exactly when one is due. |
| `Clicks.EventSource.FillEvent` | src/simutrans/simevent.cc:70-263 | Translation of one system event, and the recogniser on it. |
| `Clicks.EventSource.Translate` | src/simutrans/simevent.cc:83-216 | Class, code, click position, drag state and buttons of the event. |
| `Clicks.EventSource.QueueEvent` | src/simutrans/simevent.cc:290-312 | Queued events keep their order; of resizes only the newest stays. |
| `Clicks.KthPair` | src/simutrans/simevent.cc:234-252 | The k-th click-release pair of an unbroken sequence makes a double click exactly when k is 2 modulo 3, and a triple click exactly when it is 0. |
| `Clicks.StreakCounts` | src/simutrans/simevent.cc:218-252 | After the k-th pair of an unbroken sequence that does not continue another the streak is k. |
| `Clicks.TrackOther` | src/simutrans/simevent.cc:253-259 | Whatever breaks a sequence resets the count. |
| `FreightExact.HeadingsExactly` | src/simutrans/freight_list_sorter.cc:155-319 | For every mode: each category or special good has exactly one heading, with its full total, for all wares that can be given, exactly when categories have indices of their own or, where the mode merges nothing, no other category comes between two goods of one in the order of the list. |
| `FreightExact.EveryMode` | src/simutrans/freight_list_sorter.cc:155-319 | This is so in all modes exactly when categories have indices of their own. |
| `GoodsCategories.HeadingsByCategory` | src/simutrans/builder/goods_manager.cc:57-76 | With the indices that the game assigns, it is so exactly when there is a special good or no further good of the category of the first one; where nothing is merged, also when no other category is met between the two. |
| `FreightHeadings.SortFreight` | src/simutrans/freight_list_sorter.cc:155-319 | In every sort mode the details account for all amounts but those lost to the limit, and the headings are right under the condition above, in spite of merging and overflow. |
| `FreightHeadings.SuitedRight` | src/simutrans/freight_list_sorter.cc:285-319 | The headings are right under this condition for any list with the merged packets that is sorted by the comparison. |
| `FreightExact.Overflow` | src/simutrans/freight_list_sorter.cc:187-195 | A packet, and two others of another good that are merged beyond the limit: where indices do not go with categories, the first heading is wrong. |
| `FreightExact.InBetween` | src/simutrans/freight_list_sorter.cc:287-319 | Three packets, with another category between two of one: the first heading shows less than its category has, in every mode. |
| `Freight.MergeWares` | src/simutrans/freight_list_sorter.cc:165-274 | The list and the amounts lost are those of merging ware by ware (`Merge`), and add up to the accepted amounts of each category index; no two listed packets could still be merged; where nothing can be merged the list is the accepted wares. |
| `Freight.MergeConserves` | src/simutrans/freight_list_sorter.cc:165-274 | Merging loses nothing: what is listed and what is lost to the limit are the accepted amounts of each category index. |
| `Freight.NothingMerged` | src/simutrans/freight_list_sorter.cc:165-274 | In a mode without merging, or without permissions that fit, the accepted wares are the list. |
| `Freight.MergeKeepsGoods` | src/simutrans/freight_list_sorter.cc:165-274 | Of each accepted ware there is a packet with its good in the list. |
| `Freight.Merged` | src/simutrans/freight_list_sorter.cc:187-195 | Merging a packet into a listed one conserves the total of every category index, overflow included. |
| `Freight.SharesConnection` | src/simutrans/freight_list_sorter.cc:207-236 | A common line, or without any line a common convoy. |
| `Freight.FindPartner` | src/simutrans/freight_list_sorter.cc:178-200 | The first listed packet that the new one can join. |
| `Freight.AddGoods` | src/simutrans/simware.cc:190-200 | Saturating addition: what is kept and what is returned add up. |
| `Freight.TotalPermuted` | src/simutrans/freight_list_sorter.cc:285-285 | Sorting does not change a total. |
| `FreightList.StrictWeakOrder` | src/simutrans/freight_list_sorter.cc:59-123 | The comparison is irreflexive, transitive and has transitive incomparability in every sort mode, as `std::sort` demands. |
| `FreightList.CompareIsRank` | src/simutrans/freight_list_sorter.cc:59-123 | The comparison with all its fall-throughs is the lexicographic order of one key. |
| `FreightList.PrintList` | src/simutrans/freight_list_sorter.cc:287-339 | Headings and details of a list, in any order and for any goods, are `Lines`. |
| `FreightHeadings.LinesComplete` | src/simutrans/freight_list_sorter.cc:287-319 | In a sorted list, when no other category comes between two goods of one, `Lines` has one heading for each category present, with its whole total. |
| `FreightList.LinesDetails` | src/simutrans/freight_list_sorter.cc:325-339 | One detail line for every packet, in order, whatever the goods are. |
| `FreightList.SumFrom` | src/simutrans/freight_list_sorter.cc:302-314 | The inner loop adds the packets up to the first that has neither the index nor the category of the heading. |
| `FreightHeadings.RunIsCategory` | src/simutrans/freight_list_sorter.cc:302-314 | In such a list these are the packets of the category. |
| `GoodsCategories.AssignCategories` | src/simutrans/builder/goods_manager.cc:57-76 | Categories get one index each exactly when there is a special good, or the first good's category has no other good: without special goods index 0 is mistaken for none. No other category comes between its goods exactly when none is met before its second good. |
| `GoodsCategories.FirstCategoryTwice` | src/simutrans/builder/goods_manager.cc:57-76 | With the categories 1, 2, 3, 1 the first and the last good get different indices, and another category comes between. |
| `GoodsCategories.TwoHeadings` | src/simutrans/freight_list_sorter.cc:287-319 | Then packets of category 1 with one of category 2 between get two headings, neither with their total. |

## Left out

- Tinfl.Decompressor.Decompress: a circular buffer has at least one byte and the same size in all calls, with which `dist_from_out_buf_start` is the position in it; an output pointer before its buffer (`src/external/miniz.h:4363-4370`) has no counterpart.
- Compressing.Compressor.Compress: output is collected in the order it is sent; handing it out in pieces (`tdefl_flush_output_buffer`) and a callback that refuses are not modelled.
- Compressing.Compressor.ChooseMatch: says that a match is true, not that it is the best one; hash chain completeness, probe limits and compression ratio are not stated.
- MinRedundancy.CalculateMinimumRedundancy: the array holds the keys only; that the symbol indices beside them stay in place is what passing the keys alone expresses. Sums are 16-bit words as in the code; that the weights add up to less than 65536 is what the caller's buffer size guarantees.
- Crc32.Update: the 256 table constants are represented by the division that generates them.
- ZipReader.Extract: without `MZ_ZIP_FLAG_COMPRESSED_DATA`.
- ZipArchive.RoundTrip: entries with names that do not end in a slash; directory entries carry no data. The file is at most 2^64 - 1 bytes long, for which `ZipArchive.Volume` is an upper bound.
- ZipWriter.Archive.EntryOpen: entry names have at most 65535 bytes (the length field of a longer one would be cut to 16 bits) and the file at most 2^64 - 1; alignment padding is off, as `zip_open` leaves it; times are parameters.
- NameSearch.Locate: names of 2^32 bytes and more are the subject of `NameSearch.BothWays` and `NameSearch.OverlongName`.
- FreightHeadings.SortFreight: without a list of capacities; `std::sort` is represented by an insertion sort, and `FreightHeadings.SuitedRight` and `Freight.TotalPermuted` hold for any sorted permutation. Names of lines and convoys behind a packet, and the text of the lines, are not modelled.
- Freight.Accepted: compares a packet's index with that of the good `none`, where the code compares descriptions; every index has one description of its own (`src/simutrans/simware.h:83`). For the index of `none` itself the table is cleared (`src/simutrans/builder/goods_manager.cc:102`), and no packet has it.
- GoodsCategories.AssignCategories: category 255, which eight bits can hold, is excluded: for it the code reads and writes one element behind its table of 255 (`src/simutrans/builder/goods_manager.cc:65-71`).
- Clicks.EventSource.Translate: bit masks of buttons are sets of buttons.
- Streams of `zip_stream_open`: the same codec and the same headers.
- Deleting entries, `zip_name_normalize`, `mz_zip_writer_add_mem_ex_v2`, `tdefl_compress_fast` and the variants switched off by the configuration.
- Files, sockets, memory allocation and its failure, time conversion, translation and window code.
