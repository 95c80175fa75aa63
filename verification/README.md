# Proofs about the boot ROM's decompressors, heap, file system and PCI windows

This project models, in Dafny, the parts of the Cobalt boot ROM that are algorithms rather than
hardware access, and proves what they are for:

- **bzip2** (`x86/common/unbzip.c`): canonical Huffman codes, the segmented move-to-front list, zero
  runs, the inverse Burrows-Wheeler transform in its FAST and SMALL forms, run-length output through
  buffers of any size, the parser that may be left at any bit and entered again, and all of them
  together: a stream in any pieces comes out as its data, up to the first CRC or bits that are wrong.
- **inflate** (`x86/common/inflate.c`, `x86/common/misczip.c`): the multi-level tables of `huft_build`
  against bit-by-bit canonical decoding (section 3.2.2 of RFC 1951), the window copy (section 3.2.3),
  and all of it together: stored, fixed and dynamic blocks come out as what they stand for.
- **the heap** (`x86/common/malloc/`): `malloc`, `free` and `realloc` over coalesced clusters,
  fragments on linked lists, and an information table that moves.
- **the ROM file system** (`cobalt_romfs/crfs_func.c`): copy on write with two superblocks, mounting by
  marking what can be reached, and the contents of files.
- **PCI windows** (`x86/common/pci_resource.c`, `x86/common/region.c`): one descending pointer handed
  through a tree of buses.

Code that changes state is written as classes and methods over arrays and fields; what a method
computes is a function, and what that function means is proved of it in lemmas. Bytes and words are
integers with their ranges; wrap-around is written out where the source relies on it or suffers it.

Modules, bottom up: `Bits`, `BitString`, `Permutations`; `BwtSpec`, `InverseBwt`, `RunLength`,
`Crc`, `Randomise`, `BlockOutput`; `Huffman`, `CodeTables`, `MoveToFront`, `Symbols`, `BitStream`, `Parser`, `Suspension`,
`SymbolLoop`, `BlockBits`, `StreamFormat`, `Bunzip`;
`CodeSpace`, `HuftTables`, `HuftLookup`, `HuftBuild`, `InflateTables`, `InflateWindow`,
`InflateInput`, `InflateTokens`, `InflateBlocks`; `FreeList`,
`HeapLayout`, `HeapRoom`, `Heap`, `FragLists`, `Malloc`; `CrfsImage`, `CrfsFreemap`, `CrfsStore`, `FileContents`,
`Crfs`, `CrfsFiles`, `CrfsMount`; `PciWindows`.

## Findings

Places where the code does not do what it is for, each with the exact condition under which it does.

1. **`huft_build` tables** (`x86/common/inflate.c:266-275`). The loop that picks the size of a
   second-level table can raise it past the codes that are left, and then not every cell is written.
   Decoding is right for every stream if and only if `Fine` holds of the counts and the lookup width
   (`HuftLookup.DecodesIffFine`); lengths `[1, 3, 3, 3, 3]` with a one-bit lookup are a complete set
   that is not (`InflateTables.NotAlwaysFine`). The widths inflate uses are always fine
   (`InflateTables.HalfFine`, `InflateTables.FewFine`).
2. **The superblock number after mounting** (`cobalt_romfs/crfs_func.c:893-918`). The place of the best
   superblock among the valid ones is taken for its number. They agree if and only if superblock 0
   checks out (`CrfsMount.WhichIffFirstValid`, and in `CrfsMount.Mount`); when it does not, the next
   flush writes over the only good superblock (`CrfsMount.NextFlushUnsafe`).
3. **Writing on after a block boundary** (`cobalt_romfs/crfs_func.c:1347`). A call of `crfs_write` that
   starts where the one before it ended a block exactly writes over that block. The bytes are added if
   and only if the position is 0, is not a multiple of 4080, or there are none to add
   (`FileContents.AddedIff`, example in `FileContents.BoundaryLosesData`).
4. **Long runs in bzip2** (`x86/common/unbzip.c:1366-1396`). Run lengths are summed in 32 bits. The sum
   is the run length if and only if that is below 2^31 (`Symbols.RunExactIff`); the block decoded is the
   one meant if and only if every run fits (`Symbols.MeantIffRunsFit`); `unzftab` is the histogram of the
   block if and only if no byte's negative runs add up to anything but a multiple of 2^32
   (`Symbols.HistogramIff`, example of 31 digits in `Symbols.NegativeRun`).
5. **A bzip2 block that ends in four equal bytes** (`x86/common/unbzip.c:2028-2036`). The count is read
   past the end of the block and the end is never met again: the decoder delivers bytes without end.
   A block comes to an end if and only if every run of four in it has its count
   (`BlockOutput.Feed.EndsIffWellFormed`, `BlockOutput.DState.OutputBlock`; example in
   `BlockOutput.Feed.CountMissing`).

`cobalt_romfs/crfs_func.c:829-835` is there to clear both maps after a flush; it clears the block map
twice and the inode map never. The model does what the code does.

## Model

| member | source | states |
|---|---|---|
| BwtSpec.WalkRecovers | x86/common/unbzip.c:414-417 | For any nonempty text, repeated rotations included, stepping back through the last column of its sorted rotations from its own row reads the text from front to back. |
| BwtSpec.TransformExists | x86/common/unbzip.c:1479-1533 | Every nonempty text has a last column and a row, so what the decoder inverts is never empty. |
| InverseBwt.BuildCftab | x86/common/unbzip.c:1479-1482 | From an exact histogram the table holds, for every byte, how many bytes of the block are smaller. |
| InverseBwt.InvertFast | x86/common/unbzip.c:1517-1524 | In place, each word of `tt` ends up holding its byte and the link back of the step before it, for every block and however many cycles the links have. |
| InverseBwt.InvertSmall | x86/common/unbzip.c:1484-1505 | The packed 20-bit links end up reversed exactly on the cycle of the start row, found by pointer reversal that terminates on every block. |
| InverseBwt.PackedLinks.Set | x86/common/unbzip.c:424-437 | Storing a 20-bit link changes that entry and no other, although two entries share the byte of their high bits. |
| InverseBwt.IndexIntoF | x86/common/unbzip.c:468-479 | The binary search finds the byte in whose bucket the row lies, buckets without rows included. |
| InverseBwt.GetSmall | x86/common/unbzip.c:441-443 | On a row of the reversed cycle it gives the same byte as the FAST fetch and the row that follows. |
| RunLength.ExpandEncode | x86/common/unbzip.c:1948-2039 | Expanding undoes run-length encoding of every text, and encoded text always has a count after each run of four. |
| RunLength.StopsIffWellFormed | x86/common/unbzip.c:2014-2036 | Runs read from any place in a block stop exactly at its end if and only if every run of four from there on has its count. |
| Randomise.MaskToggles | x86/common/unbzip.c:107-119 | The countdown toggles the lowest bit of exactly those bytes that are the last but one before a start, the starts being the numbers of the table added up in a circle. |
| Crc.CrcIsDivide | x86/common/unbzip.c:137-142 | With a table whose entries are eight shift-and-xor steps of their index, the CRC of a text by bytes is the remainder of the long division of its bits by the polynomial, one bit after another. |
| Crc.CrcFinds | x86/common/unbzip.c:137-142 | Texts that differ in no more than four bytes in a row, single bytes among them, have different CRCs, whatever stands before and after. |
| Crc.BlockCrcIs | x86/common/unbzip.c:127-135 | The CRC of a block, begun and finalised as the macros do, is the flipped remainder of its bits after thirty-two ones. |
| Crc.CombineIs | x86/common/unbzip.c:2065-2068 | Shift, shift, or and exclusive-or turn the combined CRC by one bit and join the block's to it. |
| BlockOutput.Feed.EndsIffWellFormed | x86/common/unbzip.c:2014-2036 | The decoder's own fetches, randomised or not and going round a block of any cycles, come to an end if and only if the block's runs are well formed. |
| BlockOutput.Feed.Delivers | x86/common/unbzip.c:1948-2039 | The first n bytes due of a block are those of its one-shot expansion if it is well formed, and n bytes, for every n, if it is not. |
| BlockOutput.Feed.CountMissing | x86/common/unbzip.c:2028-2036 | The block of four equal bytes delivers that byte for ever. |
| BlockOutput.DState.ReadRun | x86/common/unbzip.c:2014-2036 | In any order of the end and change tests, a run started at any fetch has the byte, length and next fetch that the block gives it. |
| BlockOutput.DState.Deliver | x86/common/unbzip.c:1948-2039 | The SMALL routine fills the buffer with the next bytes due and keeps the CRC of exactly those; what was to follow still is. |
| BlockOutput.DState.DeliverFast | x86/common/unbzip.c:1855-1942 | The FAST routine, on cached copies and with its jump into the middle of the loop, delivers the same bytes, CRC and remainder. |
| BlockOutput.DState.BeginBlock | x86/common/unbzip.c:1467-1540 | A block is refused exactly when its start names no row; otherwise both forms stand before its first byte with everything still due. |
| BlockOutput.DState.DeliverAll | x86/common/unbzip.c:2048-2056 | Any sequence of buffer sizes together receives the first bytes due of any block, with the CRC of exactly those, and the block is finished exactly when none are left. |
| BlockOutput.DState.OutputBlock | x86/common/unbzip.c:1467-1540 | Any block and any start row: refused exactly when there is no such row, delivered in order otherwise, and finished if and only if its runs are well formed and there was room for all of them. |
| BlockOutput.DState.DecodeBlock | x86/common/unbzip.c:1467-1540 | Data run-length encoded and transformed comes back in order, FAST or SMALL, for all buffer sizes. |
| Huffman.CodeRange | x86/common/unbzip.c:665-677 | Under Kraft's inequality every canonical code fits its length. |
| Huffman.ScanSound | x86/common/unbzip.c:1076-1087 | Whatever the lengths, over-subscribed or not, an accepted code names a symbol of the alphabet and is that symbol's canonical code. |
| Huffman.ScanCodeword | x86/common/unbzip.c:1076-1087 | Under Kraft's inequality a codeword is decoded to its symbol and its bits are consumed, whatever follows. |
| Huffman.DecodeEncode | x86/common/unbzip.c:1060-1088 | Decoding the codewords of any sequence of symbols gives the sequence back and consumes exactly those bits. |
| Huffman.CreateDecodeTables | x86/common/unbzip.c:650-680 | The counting loops leave limits, bases and the order of symbols that are those of the canonical code. |
| CodeTables.MakeTables | x86/common/unbzip.c:650-680 | Tables that fit the code exist for every set of lengths in range. |
| MoveToFront.Mtf.Decode | x86/common/unbzip.c:1402-1453 | Near, far and rebuilding steps alike return element n of one plain list and move it to the front; segments stay apart and in bounds. |
| MoveToFront.Mtf.constructor | x86/common/unbzip.c:1344-1355 | The list starts as 0 to 255 in order. |
| Symbols.RunValueOfDigits | x86/common/unbzip.c:1366-1383 | Every count has a code of run digits. |
| Symbols.RunDigitsOfValue | x86/common/unbzip.c:1366-1383 | And only one. |
| Symbols.RunExactIff | x86/common/unbzip.c:1366-1383 | The 32-bit sum is the run length if and only if that is below 2^31. |
| Symbols.ShortRunsExact | x86/common/unbzip.c:1366-1383 | Runs of up to thirty digits are. |
| Symbols.MeantIffRunsFit | x86/common/unbzip.c:1358-1465 | The decoder finds the block that the symbols mean if every run before the end fits 32 bits, and when it finds a block at all, only then. |
| Symbols.HistogramIff | x86/common/unbzip.c:1358-1465 | The counts left are the histogram of the block if and only if every byte's negative runs add up to a multiple of 2^32. |
| Symbols.NegativeRun | x86/common/unbzip.c:1366-1396 | Thirty-one RUNB digits and the end of block: accepted, empty, and with counts that are not its histogram. |
| Symbols.DecodeEncodeBlock | x86/common/unbzip.c:1358-1465 | The symbols of any text over the bytes in use decode to the text, with nothing lost in the counts. |
| Symbols.BlockReader.MakeMaps | x86/common/unbzip.c:1013-1022 | The map lists the bytes in use in order. |
| Symbols.BlockReader.ReadDigits | x86/common/unbzip.c:1366-1379 | The loop reads a maximal run of digits and leaves its value in 32 bits. |
| Symbols.BlockReader.ReadBlock | x86/common/unbzip.c:1358-1465 | The loop over the arrays stores what the symbols stand for, refuses exactly the blocks that outgrow the maximum, and leaves the counts of the text and its negative runs. |
| BitStream.BitReader.GetBits | x86/common/unbzip.c:1029-1051 | The 32-bit buffer gives the next bits of the input as a number, or none and no change but refilling when there are too few. |
| Parser.AcceptedSymbol | x86/common/unbzip.c:1076-1087 | No stream, however malformed its lengths, makes the decoder look past the alphabet. |
| Parser.State.AfterValid | x86/common/unbzip.c:1179-1540 | From every label, for every bits received, the machine reaches a label with all that the code there relies on: tables made, group at hand, counts in range. |
| Parser.State.Independent | x86/common/unbzip.c:1086-1177 | The locals that are not saved may hold anything when a call begins: one step from any label leaves the same fields and the same save area. |
| Suspension.RunResume | x86/common/unbzip.c:1029-1051 | Stopping for want of input and going on is one run with all the input. |
| Suspension.RunSame | x86/common/unbzip.c:1125-1177 | Whole runs that start alike but for unsaved locals end alike, with the same bits left. |
| Suspension.Decompressor.Decompress | x86/common/unbzip.c:1092-1600 | One call, its unsaved locals arbitrary, takes the saved machine where the run over all its input leads, whatever those locals were. |
| Suspension.Decompressor.FeedAll | x86/common/unbzip.c:1092-1600 | However the input is cut into pieces, the machine is left as by one call that had all of it, with the same bits unread. |
| SymbolLoop.CodeTaken | x86/common/unbzip.c:1060-1088 | At any label that asks for a symbol, the machine takes exactly the bits of a symbol's codeword, bit by bit past the shorter lengths, and then has that symbol. |
| SymbolLoop.LoopTaken | x86/common/unbzip.c:1356-1471 | On the codewords of symbols up to the end of block, with the code changing every fifty, the machine's own loop (digits summed as they come, runs stored when they end) stores exactly the block the symbols stand for, with its counts, or stops with a data error: that, exactly when the block outgrows the maximum or has no such start row. |
| BlockBits.SelectorsBack | x86/common/unbzip.c:1288-1300 | Undoing the move-to-front coding of the selectors gives them back. |
| BlockBits.BlockTaken | x86/common/unbzip.c:1208-1471 | For every layout of a block (bytes in use, two to six codes, selectors, symbols, any start) the machine takes exactly its bits from the block header on, and stands before the output of the block with its CRC and start row, or has refused it, exactly when it does not fit or has no such row. |
| StreamFormat.TextCarried | x86/common/unbzip.c:1194-1540 | Every nonempty text that fits a block has a layout whose symbols stand for its transform, whatever CRC is stored with it. |
| StreamFormat.MagicTaken | x86/common/unbzip.c:1183-1195 | The four magic bytes lead to the first block header, with the block size. |
| StreamFormat.TrailerTaken | x86/common/unbzip.c:1541-1566 | The trailer's bytes lead to the end of the stream, with the combined CRC stored in them. |
| StreamFormat.MagicOnly | x86/common/unbzip.c:1183-1195 | Any other four bytes are refused as no bzip2 stream. |
| StreamFormat.BeginsIff | x86/common/unbzip.c:1183-1195 | Those that are not refused are the magic with a block size from 1 to 9. |
| StreamFormat.HeaderTorn | x86/common/unbzip.c:1208-1220 | From the head of a block, six bytes that announce neither a block nor the end are a data error, whatever follows. |
| StreamFormat.BlockTorn | x86/common/unbzip.c:1208-1471 | So is the layout of a block that does not fit or whose start names none of its rows. |
| StreamFormat.VerdictIff | x86/common/unbzip.c:2063-2080 | A stream is reported good if and only if the CRC stored with each block is that of its data, and the trailer is there with their combination; then all of its data comes out. |
| BlockOutput.DState.DeliverRest | x86/common/unbzip.c:2048-2056 | One delivery of a block that ends gives as much of what is due as there is room for; the block is finished exactly when that is all. |
| Bunzip.BzStream.constructor | x86/common/unbzip.c:1764-1801 | A new decoder has the whole stream before it, good or not. |
| Bunzip.BzStream.Supply | x86/common/unbzip.c:1038-1046 | More input changes nothing but what is unread. |
| Bunzip.BzStream.Decompress | x86/common/unbzip.c:2043-2090 | One call, in any state between calls on any blocks, randomised or not, with any CRCs stored and any end: as much comes out as room and input allow, it stops early only for want of one of them, and with enough of both it reports the end, a data error at the first block or trailer whose CRC is wrong or at wrong bits, or a stream that is none. |
| Bunzip.Decode | x86/common/unbzip.c:2043-2090 | Such a stream in any pieces, to buffers of any sizes: what comes out is its data from the front up to the first thing wrong, and the one report due is made when all of that is out and is reached once a buffer is large enough. |
| InflateTables.Build | x86/common/inflate.c:146-346 | Every complete or over-full set of lengths: the right result code, and tables that are those of the code set; no index leaves its table. |
| HuftBuild.MakeTables | x86/common/inflate.c:249-340 | The nested loops, with their stack of open tables, leave every cell that a code of the set needs. |
| HuftLookup.DecodesIffFine | x86/common/inflate.c:266-275 | The walk through the tables decodes every stream as bit-by-bit canonical decoding does if and only if the code set is fine for the lookup width. |
| InflateTables.CodewordDecoded | x86/common/inflate.c:395-405 | In a fine set the code that RFC 1951 assigns to a symbol is found as that symbol and its length, whatever follows it. |
| InflateTables.SomeCodeword | x86/common/inflate.c:395-405 | In a complete set every stream starts with some symbol's code. |
| InflateTables.HalfFine | x86/common/inflate.c:266-275 | Lookups of at least half the longest code are fine: the literal and the code-length codes. |
| InflateTables.FewFine | x86/common/inflate.c:266-275 | So are complete sets of fewer codes than the lookup has entries: the distance codes. |
| InflateTables.NotAlwaysFine | x86/common/inflate.c:266-275 | Lengths 1, 3, 3, 3, 3 with a one-bit lookup are complete and not fine: some stream is misread. |
| InflateBlocks.AcceptedIff | x86/common/inflate.c:186-243 | `huft_build` returns 0 if and only if the code leaves no string without a meaning, or is a single code of one bit, or empty. |
| InflateBlocks.MakeDecoder | x86/common/inflate.c:146-346 | So for its callers, with the tables of the set whenever there are any. |
| InflateInput.BitBuffer.NeedBits | x86/common/inflate.c:62 | Bytes come in above the bits that are left, and none is lost or used. |
| InflateInput.BitBuffer.DumpBits | x86/common/inflate.c:63 | So many bits are used, and the rest keep their order. |
| InflateTokens.Walk | x86/common/inflate.c:395-405 | With the bits of a symbol's code ahead, the loop from table to table finds what the symbol stands for, nothing included, and uses exactly those bits. |
| InflateTokens.NextLength | x86/common/inflate.c:87-97 | The lengths of each code end where those of the next begin, the last having 258 for itself, and the extra bits grow by one every four codes. |
| InflateTokens.NextDistance | x86/common/inflate.c:100-112 | So do the distances, up to 32768, their extra bits growing every two codes. |
| InflateTokens.TokenOnce | x86/common/inflate.c:87-112 | No length but 258 at any distance has two such codings. |
| InflateTokens.TokenFor | x86/common/inflate.c:87-112 | Every length of 3 to 258 at every distance up to 32768 has a length code, a distance code and extra bits. |
| InflateTokens.InflateCodes | x86/common/inflate.c:372-478 | On the bits of any literals and copies in any two codes, the history grows by what they say, and exactly those bits and the end of the block are used; a symbol that stands for nothing is an error in its place. |
| InflateBlocks.InflateStored | x86/common/inflate.c:482-532 | From any bit position: refused exactly when the second length is not the complement of the first, otherwise so many bytes from the next byte boundary are added. |
| InflateBlocks.ReadLengths | x86/common/inflate.c:656-702 | Lengths and the three kinds of repeats give the lengths they stand for, and more than there should be are an error, exactly then. |
| InflateBlocks.ReadBorder | x86/common/inflate.c:637-644 | The code-length codes' lengths come in their odd order, the missing ones being 0. |
| InflateBlocks.BorderRule | x86/common/inflate.c:81-84 | That order: the three codes that repeat, 0, then lengths from 8 outwards, alternately above and below. |
| InflateBlocks.InflateDynamic | x86/common/inflate.c:585-754 | For any header, refused ones included: accepted exactly when there are at most 286 and 30 codes, `huft_build` takes all three sets and the lengths are not too many; then the tokens that follow are carried out, and otherwise nothing is. |
| InflateBlocks.InflateFixed | x86/common/inflate.c:537-581 | The fixed codes are accepted and their tables right, although the distances' set is incomplete; symbols 286 and 287 are errors. |
| InflateBlocks.FixedCodes | x86/common/inflate.c:549-556 | The lengths set up there give the codes that section 3.2.6 of RFC 1951 lists, and distances their own numbers. |
| InflateBlocks.InflateBlock | x86/common/inflate.c:759-800 | Each of the four types of block: an error exactly for a wrong one, 2 for the type that does not exist. |
| InflateBlocks.Inflate | x86/common/inflate.c:804-844 | For any sequence of blocks of which at most the last is wrong: an error exactly then; all of what they say is written, nothing else, and the input is left at the first byte of which no bit was used. |
| InflateWindow.CopiedMeaning | x86/common/inflate.c:406-468 | The result of a copy is the history with bytes added each of which equals the one the distance before it. |
| InflateWindow.Window.Put | x86/common/inflate.c:406-412 | A literal is added to the history; a full window is written out first. |
| InflateWindow.Window.Copy | x86/common/inflate.c:432-468 | Overlapping, wrapping and whole-window distances alike, the history grows by the copy that section 3.2.3 of RFC 1951 describes. |
| InflateWindow.Window.FlushWindow | x86/common/misczip.c:127-142 | What has been written out and what is in the window stay one history. |
| Heap.FreeListDetermined | x86/common/malloc/free.c:36-91 | Sorted, circular and fully coalesced, the free list is a function of the regions in use. |
| HeapRoom.FitsIff | x86/common/malloc/malloc.c:188-193 | The free list has a cluster of n blocks if and only if n blocks that no region owns follow one another. |
| HeapRoom.FirstFit | x86/common/malloc/malloc.c:188-193 | The first one in a circle from the place visited last: no run of as many blocks begins between the two. |
| HeapRoom.SpareIs | x86/common/malloc/malloc.c:197-203 | What new core would continue is the last cluster if it reaches the break, and nothing otherwise. |
| HeapRoom.TrailingMost | x86/common/malloc/free.c:78-88 | The blocks counted below the break belong to no region, and the one below them does. |
| Heap.Clusters.Morecore | x86/common/malloc/malloc.c:84-117 | More blocks, with the information table moved and the old one freed if need be; it fails exactly when the system has not enough for the blocks and the larger table, and changes nothing then; live regions and memory keep. |
| Heap.Clusters.FreeCluster | x86/common/malloc/free.c:36-91 | Exactly one region is given up, whichever neighbours it joins; the clear blocks at the end go back to the system exactly if the region's are among them and they are eight or more. |
| Heap.Clusters.MallocBlocks | x86/common/malloc/malloc.c:183-244 | A cluster of the size asked, apart from all others: the next that fits if there is one, otherwise with as much core as is missing; none, and nothing changed, exactly when nothing fits and the system has not that much. |
| Heap.Clusters.TryExtend | x86/common/malloc/malloc.c:194-207 | New core that continues the last free cluster makes it large enough, also when the table had to move for it; exactly what is missing is asked for. |
| Heap.Clusters.Unfree | x86/common/malloc/realloc.c:81-92 | The region just freed is taken back at its address and size, and the heap is as it was. |
| Heap.Clusters.Grow | x86/common/malloc/realloc.c:67-98 | A larger cluster with the old bytes; none, and everything as it was, exactly when there is no room even with the old one's blocks. |
| Malloc.Allocator.Malloc | x86/common/malloc/malloc.c:120-244 | One more region of the size asked rounded up to its class, apart from all others; none and the same heap exactly for size 0, or with no fragment of the class and no block, or not so many blocks; regions in use keep place, size and bytes. |
| Malloc.Allocator.Free | x86/common/malloc/free.c:24-140 | One region fewer and no other changed; a cluster goes back whole, a block of fragments if and only if no other fragment of it is in use and it is not the only block of its class, and otherwise no block does. |
| Malloc.Allocator.Realloc | x86/common/malloc/realloc.c:29-120 | Left in place exactly as the classes say, grown, shrunk, moved or un-freed: the new region starts with the old bytes; there is none exactly when there is no room, and then the old one is untouched. |
| CrfsFreemap.Freemap.Next | cobalt_romfs/crfs_func.c:158-183 | The number given is neither in use nor freed since the last flush, and there is none only if all are taken. |
| CrfsFreemap.Freemap.Flush | cobalt_romfs/crfs_func.c:149-155 | Freed numbers become available, and only then. |
| Crfs.FileSystem.WriteInode | cobalt_romfs/crfs_func.c:249-303 | An inode is rewritten in a table that the committed tree does not use: its own if that is dirty, otherwise a copy, the old one being freed; every other inode and block keeps. |
| Crfs.FileSystem.Create | cobalt_romfs/crfs_func.c:964-1056 | On success a new empty file, with the least inode number neither in use nor freed, is entered first in the directory and all else keeps; otherwise the error of the checks, and nothing changes. |
| Crfs.FileSystem.Mkdir | cobalt_romfs/crfs_func.c:1441-1538 | The same for a directory: in it "." leads to itself, ".." to the directory it was made in, and no other name to anything. |
| Crfs.FileSystem.LinkEntry | cobalt_romfs/crfs_func.c:1505-1530 | One entry of a directory changes and nothing else in the tree: in place if the directory's block is dirty, otherwise in a copy, the old block being freed. |
| Crfs.FileSystem.Append | cobalt_romfs/crfs_func.c:450-492 | A further, empty block at the end of a file's chain, numbered one higher, the piece before it linked to it; no block of the committed tree is written. |
| Crfs.FileSystem.Flush | cobalt_romfs/crfs_func.c:800-840 | The writes are phased, data before the other superblock, and what the disk then mounts is the tree that was current; the blocks in use are the tree's and the superblocks, none lost, and those freed can be given out again. |
| Crfs.CrashSafe | cobalt_romfs/crfs_func.c:800-840 | After any part of a flush's writes short of the last, or with the superblock torn, the disk mounts to the committed tree, the whole of it unchanged. |
| CrfsMount.MarkInode | cobalt_romfs/crfs_func.c:513-566 | Marking ends in spite of "." and "..", and marks exactly what can be reached and its blocks. |
| CrfsMount.Mount | cobalt_romfs/crfs_func.c:871-944 | For every image with no superblock to choose or a committed tree: none, or the tree with both maps exactly those of what the root reaches; and the superblock number is right if and only if superblock 0 checks out. |
| CrfsMount.WhichIffFirstValid | cobalt_romfs/crfs_func.c:893-918 | The place among the valid superblocks is the superblock's number if and only if superblock 0 checks out. |
| CrfsMount.NextFlushUnsafe | cobalt_romfs/crfs_func.c:893-918 | When it does not, the next flush overwrites the only good superblock, and if that tears nothing can be mounted. |
| CrfsMount.TornThenMounted | cobalt_romfs/crfs_func.c:885-918 | A crash that tears the superblock and then a mount: the committed tree, with the right number exactly when superblock 0 was the one committed. |
| FileContents.AddedIff | cobalt_romfs/crfs_func.c:1302-1401 | A write at the end of a file adds its bytes if and only if the position is 0 or inside a block, or there are none. |
| FileContents.WrittenAll | cobalt_romfs/crfs_func.c:1302-1401 | A series of writes none of which starts on a full block adds all their bytes in order. |
| FileContents.BoundaryLosesData | cobalt_romfs/crfs_func.c:1347-1352 | A first write of one block and a second of one byte: the byte lands on the first of the block. |
| FileContents.ReadsAreConsecutive | cobalt_romfs/crfs_func.c:1202-1286 | Reads of any sizes give consecutive parts of the file, up to its length. |
| CrfsFiles.Read | cobalt_romfs/crfs_func.c:1202-1286 | One read gives the bytes of the file at the position, as many as asked or are left, and moves the position by them. |
| CrfsFiles.Write | cobalt_romfs/crfs_func.c:1302-1401 | One write leaves the file that `Extended` describes and every other file and directory as it was. |
| CrfsFiles.Open | cobalt_romfs/crfs_func.c:1126-1146 | An opened file stands at its first byte. |
| CrfsFiles.ReadAll | cobalt_romfs/crfs_func.c:1202-1286 | Any series of reads of one open file. |
| CrfsFiles.WriteAll | cobalt_romfs/crfs_func.c:1302-1401 | Any series of writes to one open file, none starting on a full block. |
| CrfsFiles.StoreAndLoad | cobalt_romfs/crfs_func.c:1126-1401 | What any such series puts into a new file, reads of any sizes give back, and no other file changes. |
| PciWindows.Roundup2 | x86/common/region.c:129-147 | The loop finds the power of two at or above a size, and 0 for those above 2^31. |
| PciWindows.Region.Take | x86/common/region.c:91-111 | A register gets the highest address below all given out before that is a multiple of its rounded size and of the region's granule, unless the space runs out. |
| PciWindows.Region.Align | x86/common/region.c:113-119 | Alignment only lowers the pointer, to a multiple of the granule. |
| PciWindows.PciSpace.Allocate | x86/common/pci_resource.c:92-161 | For any tree of buses: either the region ran out, or registers and windows of peers, children and the bus itself lie one below the other. |
| PciWindows.PciSpace.Init | x86/common/pci_resource.c:54-87 | All three kinds of space, and no shortage when there is room for the tree's demand. |
| PciWindows.SlotsApart | x86/common/pci_resource.c:92-161 | No two registers of the tree share an address. |
| PciWindows.WindowsNest | x86/common/pci_resource.c:92-161 | Every bus's window lies inside the range of the tree and holds its own registers and its children's windows. |
| PciWindows.PeersApart | x86/common/pci_resource.c:92-161 | Windows of peers do not meet. |
| PciWindows.DecodedApart | x86/common/pci_resource.c:286-340 | Although limits are not kept at granule ends, what a bridge passes on for one peer never reaches the next. |
| PciWindows.MemoryApart | x86/common/pci_resource.c:54-87 | Over both kinds of memory no address is given out twice, and prefetchable space lies below the other. |
| PciWindows.PrefetchKeptOut | x86/common/pci_resource.c:69-80 | With a PCI-PCI bridge in the tree, no bridge passes on an address of the other kind of memory. |

## Left out

- bzip2 stdio, verbosity, counters of bytes in and out, allocation failure; the CRC and randomisation tables are parameters, of which is required what `Crc.IsCrcTable` says and that no number is below 2.
- `nSelectors` beyond the 18002 that `selectorMtf` holds: the model's list grows, the source's array does not.
- The output buffer is a text that grows; the pointer through which bytes are stored is not modelled.
- In `Parser` the fields of `DState` that hold lists, counts and the block are values; the arrays that hold them are in `MoveToFront`, `Symbols` and `BlockOutput`. `Bunzip` fills the arrays when the block is complete instead of byte by byte, and makes them for the largest block instead of when the block size is read.
- Bunzip.BzStream.Decompress: blocks that spoil their own counts (`Symbols.HistogramIff`) or never end (`BlockOutput.Feed.EndsIffWellFormed`) are not among those of a stream; what the parser makes of any bits at all is in `Parser` and `Suspension`. Of calls after an error nothing is said.
- inflate: tables and the locals of `huft_build` are sequences, its allocation failure (result 3) is left out, and the tables of incomplete sets are only those of the set filled out. The input is one run of bytes; the refilling of the buffer, and the rewinding at the end across a refill, are not modelled.
- InflateBlocks.Inflate: bits that are the code of no symbol, in the incomplete set of the fixed distances or after a single code, are read from cells the source leaves unset, and are left out. So are the gzip header and trailer.
- `memcpy` where source and target overlap is a copy in ascending order.
- The heap: a failing second `_morecore` in `align`, which a block-aligned heap never makes; sizes of 2^31 and more; `valloc` and `calloc`.
- The file system: removing files and directories, which writes in place; looking up paths; the bytes of a block on disk and the checksum's arithmetic; `crfs_write` over blocks already in a file; two valid superblocks of the same version. Operations that need blocks or inodes are stated with enough of them free.
- FileContents.WrittenAll: after a write that starts on a full block nothing is said of later ones; `FileContents.AddedIff` says that the one already loses its bytes.
- PCI: register encodings, fixups, memory sizing and cardbus; the list of a bus's devices is given in the order the source walks it.
