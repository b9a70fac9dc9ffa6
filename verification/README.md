# Compressors, package names and checksums: a verified model

This project models the archival programs of a busybox port and proves what
they promise. Two of them are covered from the first input byte to the last
output byte.

**bzip2** (`archival/bzip2.rs`). Run-length stage, fallback rotation sort with
its three-way quicksort, Burrows-Wheeler column, move-to-front with RUNA/RUNB
written over the sort array, Huffman lengths with the rescale-and-retry loop,
canonical codes, bit writer, and the state machine that ties them together
over any pattern of input and output buffers. Every stage has its inverse as a
function, the inverses compose to a decompressor (`BzStream.Decompressed`),
and `BzCompress.CompressStream` shows that this decompressor returns the input.
It also pins what is inside: the blocks are the cut of the text that only the
text and the level determine (`BlockCut.BlocksUnique`), the coding tables come
from the shares of the values in exactly four rounds (`BzBackend.SendBody`), and
the checksums are remainders by the CRC-32 polynomial (`CrcTable`, `StreamCrc`).

**gzip/deflate** (`archival/gzip.rs`). Sliding window, hash chains, lazy
matching; token buffers and frequency counts; heap-built trees with the
bit-length repair; code-length coding; exact size accounting; stored, static
and dynamic blocks; the bit writer with its flushed buffer. The decoder of
RFC 1951 is a function (`Inflate.ReadBlock`, `BlockStream.Inflated`), and
`Gzip.DeflateStream` shows that it returns the input. Which tokens are sent is
said of the input alone: at every string the longest match among the nearest
earlier ones, taken unless the next string has a longer one
(`LazyMatch.LazyParse`), and each block is bit for bit the form that the exact
sizes choose.

**How good the codes are.** Both programs cap their code lengths, gzip by a
repair and bzip2 by rescaling the frequencies. Their lengths are an optimal
code if and only if some optimal code keeps to the limit (`BuildTree.Build`,
`HbCodes.CheapestIfFits`); because ties are broken by height, that is so if and
only if the tree itself does (`CodeQuality.FitsByDepth`), and it is so whenever
the frequencies add up to less than a Fibonacci number (`Fib`: 1, 2, 3, 5, 8, ...
from `Fib(0)` on).
`DoublingFrequencies` has inputs where it fails. The form a deflate block is
sent in is the smallest wherever that is so, with the exact condition and an
input where it is not (`FifteenBytes.StoredLarger`).

**dpkg** (`archival/dpkg.rs`). The string table that gives every name one index,
and Debian's version order, with Debian's own rules proved of the strings
(`DebianRules`). **lzop** (`archival/lzop.rs`). Adler-32.

What writer and reader share, constants and bit orders, is listed as the formats
list it (`FormatValues`, `CanonicalCode`, `BlockCoder.TypeBits`), so that the two
cannot be wrong together.

## How it is put together

Code that changes arrays and fields in place is modelled by methods on arrays
and by classes; each is proved against functions on the contents, and the laws
are lemmas about those functions. Integers are unbounded; where a width
matters it is written out (`% 0x1_0000_0000`, `Add32`, `Shl(x, k, 32)`, 16-bit
and 8-bit stores). The unions `freq/code` and `dad/len` are single arrays that
are overwritten.

| files | what they hold |
|---|---|
| `Powers`, `Bytes`, `PrefixCode`, `BitStrings`, `BitLaws`, `Occurrences` | powers of two, canonical prefix codes, bit strings built from parts and read back, words bit by bit |
| `FormatValues` | what a canonical code is, and the values both formats fix |
| `Heap`, `TreeWeight`, `TreeDepths`, `NodeWeights` | heaps, trees as lists of nodes, their depths, weights that hold frequency and height |
| `Huffman`, `HuffmanHeight`, `CodeQuality`, `Arrangement`, `DoublingFrequencies` | why merging the two lightest is best, what breaking ties by height adds, what a limit on the lengths leaves |
| `Rotation`, `Bwt`, `QSort3`, `RadixSort`, `FallbackSort`, `MainGtU` | the block sort and the transform |
| `Mtf`, `RunLength`, `BzInput`, `BlockCut` | move-to-front, the run-length stage, the cut into blocks |
| `CrcTable`, `StreamCrc` | the CRC as a remainder, the checksums of blocks and stream |
| `HbHeap`, `HbLengths`, `HbCodes` | bzip2's code lengths and codes |
| `MsbWriter`, `BzFormat`, `BzSize`, `BzTables`, `FirstTables`, `BzSend`, `BzBackend`, `BzStream`, `BzCompress` | bit writer, block format, back end, stream, state machine |
| `GenBitlen`, `GenCodes`, `BuildTree` | deflate's trees |
| `Lz77`, `Deflate`, `LazyMatch`, `WindowMatch` | tokens, hash chains, window, the search for the longest match, lazy matching said of the input |
| `LsbWriter`, `DeflateFormat`, `CodeLengths`, `SendTree`, `DynamicTrees`, `StaticTrees`, `Inflate` | bit writer, RFC 1951 format and decoder |
| `LengthTables`, `CtInit`, `Pricing`, `Tally`, `CompressBlock`, `BlTree`, `FlushBlock`, `BlockChoice`, `BlockCoder`, `FifteenBytes`, `Gzip` | tables, tallies, exact sizes, blocks, the whole |
| `Primes`, `NameTable`, `DebVersion`, `DebianRules` | dpkg |
| `Adler` | lzop's checksum |

Some large predicates come in two layers: the facts themselves, and the same
facts behind a quantifier whose trigger is a small predicate (`Stage`, `Turn`,
`Step`, `Whole`, `Here`, `Same`, ...). Mentioning the small predicate takes the facts
apart; elsewhere they are only passed on, which keeps each proof small.

`dafny verify dfyconfig.toml` checks the whole project.

## Model

| member | source | states |
|---|---|---|
| `BzCompress.CompressStream` | archival/bzip2.rs:2740-2790 | However the input is cut into buffers, the bytes written decompress (checksums included) to exactly the input: the format's decoder, written as a function, returns `Some(input)`. The blocks in them are those the text is cut into by the rule of `BlockCut.CutsText`, so they depend on the input and the level alone. |
| `BlockCut.BlocksUnique` | archival/bzip2.rs:1586-1681 | The blocks of a text are determined by it and the limit: two cuts by the rule (runs as long as they can be up to 255 bytes; a block takes runs until it is full) are the same. |
| `BlockCut.BlockSizes` | archival/bzip2.rs:1586-1681 | In such a cut every block but the last holds at least 100000*level-19 bytes, and none more than four over that. |
| `BlockCut.GreedyUnique` | archival/bzip2.rs:1586-1622 | A text has only one list of runs in which every run shorter than 255 bytes ends because another byte follows. |
| `BzCompress.Compressor.Fill` | archival/bzip2.rs:1643-1681 | A block is closed only when it is full, or, when finishing, once the input is used up; consumed plus unread input is unchanged. |
| `Gzip.DeflateStream` | archival/gzip.rs:1576-1800 | The bytes written inflate, by the decoder of RFC 1951 written as a function, to exactly the input, whatever the chunks it comes in; and they are, block after block, the forms `Coder.Flush` chooses for the tokens of the input's lazy parse, with fewer than 8 zero bits at the end. |
| `Rotation.CmpIsLexicographic` | archival/bzip2.rs:406-417 | The place-by-place comparison of two cyclic rotations is lexicographic order: zero exactly for equal prefixes, otherwise the sign at the first difference. |
| `Rotation.CmpSplit` | archival/bzip2.rs:497-574 | Comparing h+h' characters is comparing h, and if equal the next h': the law prefix doubling rests on. |
| `Bwt.DecodeInvertsSort` | archival/bzip2.rs:1930-1938 | The column of preceding bytes of ANY sort of the rotations, ties included, with the place of rotation 0, walks back to the block. |
| `Bwt.ColumnIsUnique` | archival/bzip2.rs:1368-1419 | Two rotation sorts of a block give the same column, so the choice of sort cannot change the stream. |
| `QSort3.SimpleSort` | archival/bzip2.rs:253-287 | Sorts fmap[lo..hi] by eclass in place, a permutation of what was there, nothing outside touched; both passes (by fours, by ones). |
| `QSort3.VecSwap` | archival/bzip2.rs:233-243 | Exchanges two disjoint stretches place by place. |
| `QSort3.Partition` | archival/bzip2.rs:334-377 | The three-way partition: equal to the pivot at both ends, smaller then larger between, same elements. |
| `QSort3.PartitionThree` | archival/bzip2.rs:334-386 | After the equal ends are swapped to the middle: smaller, equal, larger parts with their bounds. |
| `QSort3.QSort3` | archival/bzip2.rs:288-404 | fmap[lo..hi] ends as a permutation in non-decreasing eclass order, the rest untouched; it ends, and the explicit stack never holds more than 30 entries for blocks below 2^31, so 100 suffice. |
| `RadixSort.CountBytes` | archival/bzip2.rs:440-449 | Byte counts of the block. |
| `RadixSort.Accumulate` | archival/bzip2.rs:455-461 | Counts become bucket ends. |
| `RadixSort.Place` | archival/bzip2.rs:462-469 | Every index lands in its byte's bucket: a permutation, bucketed by first byte. |
| `FallbackSort.InitHeaders` | archival/bzip2.rs:470-496 | Header bits exactly at bucket starts, and alternating sentinels behind the block. |
| `FallbackSort.AssignClasses` | archival/bzip2.rs:497-515 | eclass[(p-h) mod n] is the start of p's bucket: order of classes is order by h characters, h places on. |
| `FallbackSort.Skip` | archival/bzip2.rs:516-551 | A scan for the next clear or set header bit, word-wise, stops at the first such bit (sentinels bound it). |
| `FallbackSort.RefineBucket` | archival/bzip2.rs:552-572 | Sorting one bucket by class and marking changes makes it sorted by 2h characters with headers at exactly the 2h-equal classes. |
| `FallbackSort.Double` | archival/bzip2.rs:497-574 | One round: sorted by h characters with exact headers becomes sorted by 2h with exact headers; the number returned is that of the places that shared their bucket before, and if it is 0 every place is a bucket of its own. |
| `FallbackSort.DoubleAll` | archival/bzip2.rs:497-574 | The log(N) loop ends with all rotations sorted. |
| `FallbackSort.Restore` | archival/bzip2.rs:575-590 | The block bytes that eclass overwrote are put back from the sorted order and the byte counts. |
| `FallbackSort.Sort` | archival/bzip2.rs:418-590 | For every non-empty block of bytes, fmap is a permutation listing the cyclic rotations in non-decreasing order, and the block is as before. |
| `FallbackSort.FindOrigin` | archival/bzip2.rs:1407-1417 | The one place that lists rotation 0. |
| `MainGtU.GtU` | archival/bzip2.rs:598-807 | Under the quadrant invariant of lines 1305-1326, true means rotation i1 is not smaller, false not larger; every index read is within nblock plus the overshoot of 34, for starting offsets up to nblock+14. |
| `MainGtU.QuadrantDecides` | archival/bzip2.rs:1305-1326 | What equal or different quadrant values mean for the order of two rotations. |
| `Mtf.MakeMaps` | archival/bzip2.rs:1844-1856 | Every byte in use gets the index at which the list of used bytes, in increasing order, names it. |
| `Mtf.MoveToFront` | archival/bzip2.rs:1869-1884 | The list ends as it was with the found entry moved to the front; the place it had is returned. |
| `Mtf.PutRun` | archival/bzip2.rs:1953-1971 | A run of pending front bytes is written as bijective base-2 digits, least first, whose value is the run's length, in at most as many values as bytes. |
| `Mtf.PutEntry` | archival/bzip2.rs:1930-1984 | One pointer is read, unharmed by the 16-bit values written over the array so far, and its byte is deferred or written. |
| `Mtf.GenerateMTFValues` | archival/bzip2.rs:1886-1994 | The values written decode (RUNA/RUNB and move-to-front undone) to the last column of the sort; they end in the only end-of-block value; mtfFreq counts each value exactly; they overlay only pointers already read, on either byte order. |
| `RunLength.UnpackStored` | archival/bzip2.rs:1515-1574 | Undoing the run-length stage on the stored runs gives the bytes they stand for. |
| `BzInput.Filler.constructor` | archival/bzip2.rs:1483-1513 | An empty block with room for 19 bytes past the limit. |
| `BzInput.Filler.AddPairToBlock` | archival/bzip2.rs:1515-1574 | The pending run is stored: block bytes, exact marks of the bytes in use, CRC over the unpacked run. |
| `BzInput.Filler.TakeByte` | archival/bzip2.rs:1586-1622 | One input byte, by the fast track or not: blocks' text plus pending run grows by exactly that byte; the runs of all blocks stay as long as they can be, and the block needed every run it has. |
| `BzInput.Filler.CopyInput` | archival/bzip2.rs:1586-1622 | Takes input until it runs out or the block is full; at most five bytes over the limit; at least one byte if there is room. |
| `BzInput.Filler.FlushRL` | archival/bzip2.rs:1576-1581 | Nothing stays pending, the text is unchanged, and the block is at most 100000*level-10 bytes. |
| `BzInput.Filler.PrepareNewBlock` | archival/bzip2.rs:1457-1472 | An empty block; a pending run is kept for it, and the runs stored before are remembered. |
| `BzInput.FilledUnpacks` | archival/bzip2.rs:1515-1574 | A block unpacks to what its runs stand for, and the block CRC covers exactly that. |
| `MsbWriter.BitWriter.Write` | archival/bzip2.rs:1780-1790 | bsW: bytes out plus live bits are the most-significant-first concatenation of all writes; fewer than 32 bits stay live. |
| `MsbWriter.BitWriter.Write16` | archival/bzip2.rs:1792-1803 | bsW16: the same for sixteen bits. |
| `MsbWriter.BitWriter.WriteOne` | archival/bzip2.rs:1805-1815 | bsW1_1 appends a one, freeing at most one byte first. |
| `MsbWriter.BitWriter.WriteZero` | archival/bzip2.rs:1817-1827 | bsW1_0 appends a zero without touching the buffer, which already holds one there. |
| `MsbWriter.BitWriter.Write32` | archival/bzip2.rs:1835-1839 | bsPutU32 appends 32 bits as two halves. |
| `MsbWriter.BitWriter.FinishWrite` | archival/bzip2.rs:1770-1777 | The stream as whole bytes, fewer than 8 zero bits added. |
| `BzTables.Select` | archival/bzip2.rs:2100-2161 | Every group of fifty values is given the first cheapest of the present tables; each table's frequencies are exactly how often every value occurs in the groups that use it. |
| `BzTables.MakeTable` | archival/bzip2.rs:2162-2184 | No code beats the table for its frequencies after the fewest rescalings that let a cheapest code fit 17 bits; none are made if the frequencies add up to less than 6765. |
| `FirstTables.MakeFirst` | archival/bzip2.rs:2033-2080 | The tables the rounds start from: the alphabet is cut into one stretch per table, each the shortest that holds its part of the values still to be shared out, every other one between the first and the last giving up its last symbol; length 0 inside, 15 outside. |
| `FirstTables.SharesCover` | archival/bzip2.rs:2033-2080 | Every symbol of the alphabet is favoured by exactly one of these tables. |
| `BzTables.Improve` | archival/bzip2.rs:2083-2184 | Exactly four rounds lead from the first tables to the last; in each, every group takes the first table cheapest for it, and the new tables are fit for exactly the values of the groups that took them. At the end there is one selector per group, and the tables are complete codes of lengths 1..17. |
| `BzTables.MakeAllCodes` | archival/bzip2.rs:2211-2239 | Every table's codes are the canonical codes of its lengths. |
| `BzBackend.SelectorPlaces` | archival/bzip2.rs:2185-2210 | Undoing move-to-front on the selector places gives the selectors. |
| `BzSend.SendMap` | archival/bzip2.rs:2240-2286 | Appends sixteen row flags and the rows in use, as the format has them. |
| `BzSend.SendSelectors` | archival/bzip2.rs:2287-2300 | Appends the number of tables, of selectors, and each selector in unary. |
| `BzSend.SendTable` | archival/bzip2.rs:2301-2322 | Appends a table as a start length and steps up and down. |
| `BzSend.SendData` | archival/bzip2.rs:2323-2361 | Appends every value with the code of its group's table. |
| `BzBackend.SendMTFValues` | archival/bzip2.rs:1996-2362 | Appends exactly the body bits of the format for these values, with sound tables and selectors that the four rounds lead to. |
| `BzFormat.ReadsMap` | archival/bzip2.rs:2240-2286 | The map of used bytes reads back. |
| `BzFormat.ReadsTable` | archival/bzip2.rs:2301-2322 | A table reads back, by a reader that refuses any length outside 1..20. |
| `BzFormat.ReadsData` | archival/bzip2.rs:2323-2361 | The data reads back, value by value, up to the end-of-block value. |
| `BzBlock.ReadsBlock` | archival/bzip2.rs:2376-2414 | A block sent from ANY sort of its rotations reads back as the block with its CRC, whatever follows. |
| `BzBackend.SendBody` | archival/bzip2.rs:2376-2414 | CRC, randomised bit, origin and body of a block are appended and read back as the block; its tables come from the shares of its values in four rounds. |
| `BzStream.StreamDecompresses` | archival/bzip2.rs:2364-2426 | A stream that carries checked blocks, none larger than the level in its header allows, decompresses with its trailer to their text. |
| `BzStream.CarriesMore` | archival/bzip2.rs:2376-2414 | One more faithful block keeps the stream readable whatever proper rest follows. |
| `BzCompress.CompressBlock` | archival/bzip2.rs:2364-2426 | Header once, block unless empty, trailer at the end: the stream carries one block more, the runs as stored, with the complemented CRC and the rotated combined CRC; after the last, the bytes decompress to all the text. What it writes never exceeds the bytes that arr2 has behind the block. |
| `StreamCrc.CombineBit` | archival/bzip2.rs:2369-2370 | Bit i+1 (around from 31 to 0) of the new combined CRC is bit i of the old one xor bit i+1 of the block's. |
| `StreamCrc.CombinedIs` | archival/bzip2.rs:2364-2426 | The CRC in the trailer is the xor of all blocks' CRCs, each rotated left by the number of blocks after it, bit by bit. |
| `StreamCrc.BlockCheck` | archival/bzip2.rs:2368-2368 | Every bit of a checked block's CRC is the opposite of that bit of the CRC of its text. |
| `CrcTable.ByteIsEightSteps` | archival/bzip2.rs:1515-1574 | With the library's table, taking a byte into the CRC is xoring it into the top byte and dividing by the polynomial for eight steps. |
| `CrcTable.CrcIsRemainder` | archival/bzip2.rs:1515-1574 | So the CRC of a block is eight division steps for each byte of its text, from 0xffffffff. |
| `CrcTable.FillTable` | libbb/crc32.rs:21-61 | The big-endian table: entry i is i in the top byte after eight division steps. |
| `CrcTable.PolynomialTerms` | libbb/crc32.rs:21-26 | The bits set in the polynomial are exactly 26, 23, 22, 16, 12, 11, 10, 8, 7, 5, 4, 2, 1 and 0. |
| `FormatValues.Magics` | archival/bzip2.rs:2385-2424 | The stream begins with the bytes BZh and the digit of the level, a block with 31 41 59 26 53 59, the trailer with 17 72 45 38 50 90. |
| `FormatValues.BitsAt` | archival/bzip2.rs:1780-1790 | What bsW sends for a number is its bits, the most significant first. |
| `FormatValues.UnaryIs` | archival/bzip2.rs:2287-2300 | A selector's place j is j ones and a zero. |
| `FormatValues.DeltaIs` | archival/bzip2.rs:2301-2322 | From one length to the next: one and zero for each step up, one and one for each step down, then a zero. |
| `FormatValues.GroupsOfFifty` | archival/bzip2.rs:2323-2361 | The values 50g to 50g+49 are sent with the table of selector g. |
| `FormatValues.TablesFor` | archival/bzip2.rs:2028-2037 | Two tables below 200 values, three below 600, four below 1200, five below 2400, otherwise six. |
| `FormatValues.RunIs` | archival/bzip2.rs:1953-1971 | A row of zeros and ones stands for a run whose length has the digits one and two in base two, the least first. |
| `FormatValues.StoredIs` | archival/bzip2.rs:1515-1574 | A run of one to three bytes is stored as it is, a longer one as four of them and the rest of its length. |
| `BzSize.BlockSize` | archival/bzip2.rs:1908-1914 | However the block comes out, it takes at most 257500 bits and 17 for every byte of it, which is what the space behind it can hold. |
| `BzCompress.Compressor.CopyOutput` | archival/bzip2.rs:1624-1641 | Hands over output until it or the space for it runs out. |
| `BzCompress.Compressor.HandleCompress` | archival/bzip2.rs:1643-1681 | Ends; input consumed plus input left is unchanged; it stops only with output pending, the stream complete, or (while running) the input used up. |
| `BzCompress.Compressor.Compress` | archival/bzip2.rs:1683-1719 | 4 is returned exactly when the stream is complete and all of it handed over; 3 means output is pending. |
| `BzCompress.Compressor.Write` | archival/bzip2.rs:2694-2739 | The whole buffer is consumed; given none, the stream is completed and handed over. |
| `HbHeap.UpHeap` | archival/bzip2.rs:2501-2513 | The last entry rises to its place: a heap again, same entries. |
| `HbHeap.DownHeap` | archival/bzip2.rs:2520-2547 | The first entry sinks to its place: a heap again, same entries. |
| `NodeWeights.JoinedOk` | archival/bzip2.rs:2585-2599 | Joining two nodes adds the frequencies and raises the height by one without carrying into them; Fibonacci numbers bound the height. |
| `HbLengths.JoinAll` | archival/bzip2.rs:2516-2614 | The joining loop ends with one tree over all leaves, its weight the sum of theirs; the nodes, in the order they were joined, are sorted by weight, and every inner node weighs what its two children weigh. |
| `HbLengths.CountSteps` | archival/bzip2.rs:2618-2623 | The number of parents above a leaf is its depth. |
| `CodeQuality.DepthsFill` | archival/bzip2.rs:2615-2632 | The leaf depths of a finished tree have Kraft sum exactly one for every limit they keep to. |
| `HbCodes.Rescale` | archival/bzip2.rs:2649-2657 | Every weight becomes one plus half of it. |
| `HbCodes.ScaledTotal` | archival/bzip2.rs:2633-2657 | Scaling lowers the total unless every weight is 1 or 2 already. |
| `HbCodes.MakeCodeLengths` | archival/bzip2.rs:2457-2658 | Ends for every frequency vector (total below 2^23) with lengths in 1..maxLen and Kraft sum exactly one, for every limit with Fib(maxLen+1) > 2*alphaSize. The number of rescalings is the least after which a cheapest code fits the limit, and the lengths are cheapest for the frequencies then; it is zero whenever the total is below Fib(maxLen+1). |
| `HbCodes.LeavesFit` | archival/bzip2.rs:2609-2632 | A leaf is too deep exactly if no cheapest code for the weights keeps to the limit, and only if they add up to at least Fib(maxLen+1). |
| `HbCodes.CheapestIfFits` | archival/bzip2.rs:2633-2657 | The lengths are cheapest for the original frequencies if and only if some cheapest code for those keeps to the limit. |
| `DoublingFrequencies.SeventeenBitsFail` | archival/bzip2.rs:2633-2657 | Where that fails: nineteen symbols with frequencies 1, 1, 2, 4, ... make a rescaling necessary, and the lengths are not cheapest. |
| `HbCodes.LeavesCheapest` | archival/bzip2.rs:2615-2632 | The leaf depths of a finished tree cost no more than any code for the same weights. |
| `HbCodes.SeventeenEnds` | archival/bzip2.rs:2169-2182 | The limit of 17 used for alphabets up to 258 is such a limit. |
| `HbCodes.AssignCodes` | archival/bzip2.rs:2661-2685 | Every symbol gets the canonical code of its length. |
| `HbCodes.AssignedCodesDecode` | archival/bzip2.rs:2661-2685 | Those codes fit their lengths and decode uniquely, whatever follows. |
| `PrefixCode.PrefixFree` | archival/gzip.rs:900-938 | No canonical code of lengths within the code space is a prefix of another. |
| `PrefixCode.DecodeEncode` | archival/gzip.rs:900-938 | Decoding one symbol undoes encoding it, whatever bits follow. |
| `BuildTree.PqDownHeap` | archival/gzip.rs:722-772 | If everything below k is in heap order (by frequency, then depth), everything from k on is afterwards; the heap keeps the same entries. |
| `BuildTree.Heapify` | archival/gzip.rs:996-1003 | Sub-heaps of increasing size end as one heap over the same leaves. |
| `BuildTree.PopLeast` | archival/gzip.rs:1009-1016 | The root taken off is a least one; what is left is a heap of the other roots. |
| `BuildTree.Collect` | archival/gzip.rs:948-966 | The heap starts with exactly the symbols of non-zero frequency. |
| `BuildTree.Force` | archival/gzip.rs:967-995 | Exactly the symbols the code makes up bring the tree to two leaves (0 and 1, or one beside the only one used), and both lengths are charged back. |
| `BuildTree.MergeOnce` | archival/gzip.rs:1004-1050 | Two least roots become children of a new node of their joint frequency (16 bits) and are filed in front of the tail; the forest stays a forest and the rest a heap. |
| `BuildTree.RankedStep` | archival/gzip.rs:1004-1035 | Joining two least roots keeps the tail sorted by frequency and, among equals, by height; every node weighs and rises as its children say, and is heavy enough for its height, so the depth byte does not wrap. |
| `BuildTree.JoinedSum` | archival/gzip.rs:1023-1027 | Joining keeps the sum of the roots, so no frequency is lost to its 16 bits while the total is below 65536. |
| `Huffman.LightestSunk` | archival/gzip.rs:1004-1008 | In any code the two lightest places can be given one common length at no extra cost. |
| `Huffman.AtLeastInner` | archival/gzip.rs:1004-1008 | No code for the nodes still apart costs less than the merges to come add up to. |
| `Huffman.Optimal` | archival/gzip.rs:774-784 | The leaf depths of a tree with the sibling property cost no more than any code for the same leaves, however long the codes of that one may be. |
| `Huffman.HeavierNotLonger` | archival/gzip.rs:774-784 | In such a tree a heavier leaf is never deeper than a lighter one. |
| `HuffmanHeight.LightestSunkLow` | archival/gzip.rs:720-721 | With ties broken by height, giving the two lightest places one common length saves something or lets no subtree reach deeper. |
| `HuffmanHeight.LimitedCostsMore` | archival/gzip.rs:720-721 | That tie breaking minimizes the worst case length: if the tree is higher than a limit, every code within the limit costs strictly more than the leaf depths. |
| `TreeDepths.OverflowIsDeep` | archival/gzip.rs:808-823 | The nodes whose length was cut off are exactly those deeper than max_length. |
| `TreeDepths.LeavesDecide` | archival/gzip.rs:808-848 | No node is too deep if and only if no leaf is. |
| `CodeQuality.FitsByDepth` | archival/gzip.rs:720-721 | A cheapest code fits a limit if and only if no node of the tree is deeper; a deeper one takes a tree as heavy as a Fibonacci number. |
| `DoublingFrequencies.NoneFits` | archival/gzip.rs:846-851 | For every limit there are frequencies (1, 1, 2, 4, ...) for which no cheapest code fits it. |
| `DoublingFrequencies.SevenBitsFail` | archival/gzip.rs:846-851 | So code length frequencies that add up to 256 can be beyond the seven bits allowed: the repair runs and the lengths are not cheapest. |
| `Arrangement.BestArranged` | archival/gzip.rs:872-898 | Repaired or not, no other way of giving the same number of codes of each length to the symbols takes fewer bits. |
| `BuildTree.DeliveredIsBest` | archival/gzip.rs:774-784 | With the total below 65536, a more frequent symbol never has the longer code, repaired or not. The lengths are cheapest if and only if some cheapest code keeps to max_length, which is so if and only if no node of the tree is deeper, and always if the total is below Fib(max_length+1). |
| `FlushBlock.TalliesSmall` | archival/gzip.rs:1283-1373 | The tallies of one block add up to at most 8192, so that condition always holds in flush_block. |
| `BuildTree.Build` | archival/gzip.rs:940-1057 | A complete code within max_length for exactly the used symbols and those made up, canonical reversed codes, and opt_len/static_len raised by exactly the bits the frequencies take. Lengths follow frequency, and they are optimal exactly if an optimal code fits max_length. |
| `GenBitlen.FirstPass` | archival/gzip.rs:798-848 | Depths capped at max_length, counts by length, exact running costs, and the number of capped nodes. |
| `GenBitlen.Repair` | archival/gzip.rs:849-871 | Each step takes a longest code below max_length one down and gives it a brother from the bottom: the counts end as `Repaired` has them; the overflow is even, no count underflows, the searches stop, and the Kraft sum comes down to exactly one. |
| `GenBitlen.MoveRepairs` | archival/gzip.rs:849-871 | One repair step lowers the Kraft sum by one unit and keeps the number of leaves. |
| `GenBitlen.Recompute` | archival/gzip.rs:872-898 | Lengths are handed out again along the sorted nodes to match the repaired counts: a node listed later (less frequent) never has the shorter code; the cost is adjusted exactly. |
| `GenBitlen.Gen` | archival/gzip.rs:784-899 | Lengths at most max_length with Kraft sum exactly one, and exact costs; they are the true depths of the tree, or after a repair they rise along its sorted nodes, as many of each length as repairing the counts of the depths cut at max_length leaves; overflow is exactly the number of nodes deeper than max_length. |
| `TreeWeight.LeafWeight` | archival/gzip.rs:798-848 | The leaves of a tree capped at max_length overfill the code space by exactly half the overflow. |
| `GenCodes.BiReverse` | archival/gzip.rs:298-309 | The reversed code, sent least significant bit first, is the code most significant bit first. |
| `GenCodes.Gen` | archival/gzip.rs:908-938 | Every symbol gets its canonical code, reversed. |
| `LengthTables.InitLengths` | archival/gzip.rs:1870-1888 | length_code and base_length cover every match length; the longest has a code of its own. |
| `LengthTables.InitDists` | archival/gzip.rs:1889-1914 | dist_code and base_dist cover every distance, by 1 below 256 and by 128 above. |
| `LengthTables.LengthTableRight` | archival/gzip.rs:1870-1888 | Code and extra bits from the tables are those of the table in section 3.2.5 of RFC 1951. |
| `LengthTables.DistTableRight` | archival/gzip.rs:1889-1914 | The same for distances. |
| `DeflateFormat.LengthValues8` | archival/gzip.rs:601-607 | The base lengths of codes 0 to 8 that the extra bits imply are those RFC 1951 lists. |
| `DeflateFormat.LengthValues20` | archival/gzip.rs:601-607 | The same for codes 9 to 20. |
| `DeflateFormat.LengthValues28` | archival/gzip.rs:601-607 | The same for codes 21 to 27; the codes below 28 cover 256 lengths. |
| `DeflateFormat.DistValues16` | archival/gzip.rs:608-640 | The base distances of codes 0 to 16 are those RFC 1951 lists. |
| `DeflateFormat.DistValues30` | archival/gzip.rs:608-640 | The same for codes 17 to 29; the 30 codes cover 32768 distances. |
| `CtInit.MakeFixedL` | archival/gzip.rs:1915-1968 | The static literal codes are the fixed codes of section 3.2.6 of RFC 1951. |
| `CtInit.MakeFixedD` | archival/gzip.rs:1969-1979 | The static distance codes are the fixed 5-bit codes. |
| `FormatValues.FixedCodesAre` | archival/gzip.rs:1915-1968 | The fixed literal and length codes are 00110000 on, 110010000 on, 0000000 on and 11000000 on, as section 3.2.6 of RFC 1951 lists them. |
| `CtInit.FixedDistCode` | archival/gzip.rs:1969-1979 | The fixed code of distance code n is n in five bits. |
| `CanonicalCode.CodeIsRoom` | archival/gzip.rs:908-938 | The code of a symbol, as a binary fraction, is the room taken by all symbols with shorter codes and by the earlier ones of its own length: codes of one length are consecutive in symbol order, shorter ones come first. |
| `CanonicalCode.EncodeIsRoom` | archival/gzip.rs:908-938 | The bits sent for a symbol spell that number, the most significant first. |
| `FormatValues.LsbAt` | archival/gzip.rs:257-290 | What send_bits sends for a number is its bits, the least significant first. |
| `FormatValues.OrderIs` | archival/gzip.rs:646-666 | The code length code's lengths are sent in the order 16, 17, 18, 0, 8, 7, 9, 6, 10, 5, 11, 4, 12, 3, 13, 2, 14, 1, 15. |
| `FormatValues.CountsAre` | archival/gzip.rs:1251-1270 | Before them come the number of literal codes from 257 in five bits, of distance codes from 1 in five, and of these from 4 in four. |
| `FormatValues.RepeatsAre` | archival/gzip.rs:641-645 | 16 repeats the previous length 3 times and more by two extra bits, 17 and 18 repeat zero 3 times and more by three, 11 times and more by seven. |
| `Tally.Buffers.Add` | archival/gzip.rs:1283-1373 | Literal, distance and flag buffers hold the tokens in order, and the frequencies are those of the symbols to be sent; a full buffer is reported. |
| `Tally.Buffers.InitBlock` | archival/gzip.rs:678-715 | Nothing tallied but the end-of-block code. |
| `SendTree.ScanTree` | archival/gzip.rs:1064-1118 | Counts exactly the symbols that will be sent, and sets the guard. |
| `SendTree.SendLengths` | archival/gzip.rs:1123-1203 | Sends exactly the symbols counted, with their extra bits. |
| `CodeLengths.SymsExpand` | archival/gzip.rs:1123-1203 | The code-length symbols expand back to the lengths, for every vector of lengths below 16. |
| `CodeLengths.TwoVectorsExpand` | archival/gzip.rs:1271-1278 | Both vectors in one stream expand to both: code 16 only ever repeats a length of its own vector. |
| `BlTree.FirstIsSent` | archival/gzip.rs:1208-1246 | The first non-zero length is sent as itself, so at least four code length codes are always sent. |
| `BlTree.Build` | archival/gzip.rs:1208-1246 | A tree that covers both vectors, at least four codes to send, and opt_len raised by exactly the header's size. |
| `BlTree.SendAllTrees` | archival/gzip.rs:1251-1278 | Appends exactly the header of section 3.2.7 of RFC 1951 for the two vectors. |
| `Inflate.ReadsTrees` | archival/gzip.rs:1251-1278 | The header reads back as the two vectors of lengths, by a reader that refuses overfull codes, oversized alphabets and trees without an end-of-block code. |
| `Pricing.CostIsPrice` | archival/gzip.rs:784-899 | The cost kept by frequencies is the number of bits the symbols take when sent. |
| `Pricing.StaticIsPrice` | archival/gzip.rs:784-899 | The same for the static lengths. |
| `TokenSymbols.DataPrice` | archival/gzip.rs:1374-1456 | The data of a block takes exactly the price of its two lists of symbols. |
| `BlockCoder.SizesExact` | archival/gzip.rs:1472-1492 | Nothing wraps round: opt_len is the size of header plus data of the dynamic block, static_len that of the static one. |
| `CompressBlock.Compress` | archival/gzip.rs:1374-1456 | Appends the codes of the buffered tokens, read back through flag_buf, l_buf and d_buf, and the end-of-block code. |
| `DeflateFormat.ReadsData` | archival/gzip.rs:1374-1456 | The data of a block reads back as its tokens. |
| `BlockChoice.StoredFits` | archival/gzip.rs:1507-1517 | When the stored form is chosen its length fits 16 bits, being below the static size of at most 8191 tokens. |
| `FlushBlock.CopyBlock` | archival/gzip.rs:334-358 | Byte boundary, length and complement, bytes. |
| `BlockCoder.BuildAll` | archival/gzip.rs:1466-1478 | All three trees and the exact sizes. |
| `BlockCoder.BuildTwo` | archival/gzip.rs:1469-1471 | Literal and distance tree for the tallied tokens, exact data sizes; in both trees more frequent symbols have the shorter codes, and the lengths are cheapest exactly if a cheapest code fits 15 bits, so always below 2584 symbols. |
| `BlockCoder.Coder.Flush` | archival/gzip.rs:1462-1551 | Whichever form is chosen, the block appended is that form of its tokens, bit for bit, reads back as what they stand for and has exactly the size of its form; opt_len and static_len are the exact sizes of the two coded forms and the choice is the one they lead to; the tallies start again. |
| `BlockCoder.TypeBits` | archival/gzip.rs:1507-1543 | The first three bits: the last-block flag, then 00 for a stored block, 10 for one with fixed codes, 01 for one with dynamic codes, in the order they are sent. |
| `BlockCoder.BlockIsOne` | archival/gzip.rs:1507-1543 | What was sent is one of the three blocks, and the type bits in front say which. |
| `BlockCoder.CodedIsSmallest` | archival/gzip.rs:1479-1543 | A static or dynamic block sent takes no more bytes than the other of the two, and fewer bits than the stored one would. |
| `BlockCoder.StoredIsSmallest` | archival/gzip.rs:1507-1517 | A stored block sent is no larger than both coded forms if and only if its length plus 4 is at most the smaller size less the alignment, in whole bytes; it never loses more than 17 bits. |
| `BlockChoice.StoredChoiceAligned` | archival/gzip.rs:1507-1507 | At a byte boundary, in bytes: it is larger exactly when the two sizes the code compares are equal. |
| `BlockChoice.TreeChoiceInBits` | archival/gzip.rs:1479-1492 | The tree chosen is the smaller in bits unless the dynamic one saves bits but no byte. |
| `FifteenBytes.StoredLarger` | archival/gzip.rs:1507-1517 | Whatever trees are built for the fifteen literals 144..158, the stored block sent at a byte boundary is 20 bytes where the static one is 19. |
| `FifteenBytes.DynamicSize` | archival/gzip.rs:1469-1480 | For those literals the dynamic form takes at least 149 bits: counts, eighteen code length codes, the runs of zeros, and 64 bits that sixteen symbols need in any code. |
| `Inflate.StoredReads` | archival/gzip.rs:1507-1517 | A stored block reads back. |
| `Inflate.StaticReads` | archival/gzip.rs:1518-1530 | A static block reads back. |
| `Inflate.DynamicReads` | archival/gzip.rs:1531-1543 | A dynamic block reads back. |
| `BlockStream.CarriesMore` | archival/gzip.rs:1462-1551 | For any block reader, one more block keeps the stream readable whatever proper rest follows. |
| `LsbWriter.Output.Put16` | archival/gzip.rs:163-193 | put_16bit: two bytes, low first, in one store or around a flush; always room for a byte afterwards. |
| `LsbWriter.Output.Put32` | archival/gzip.rs:195-209 | put_32bit: four bytes, low first. |
| `LsbWriter.Output.SendBits` | archival/gzip.rs:257-290 | Bytes plus waiting bits are the least-significant-first concatenation of all values sent; outcnt stays below 8192. |
| `LsbWriter.Output.WindUp` | archival/gzip.rs:313-327 | The waiting bits go out as bytes, fewer than 8 zero bits added. |
| `LsbWriter.Output.FlushOutbuf` | archival/gzip.rs:148-158 | The bytes stay the same, the buffer is empty. |
| `LongestMatch.Find` | archival/gzip.rs:472-598 | Of the candidates walked along the chain (above the limit, at most 128, or 32 with a good match at hand), the longest match of all, if longer than prev_length, at the first candidate that has it; the walk is cut short only at the first match of 128 bytes or more. The match returned is exact, the uncompared third byte included, and no further back than MAX_DIST. |
| `LongestMatch.Compare` | archival/gzip.rs:525-575 | The number of bytes two strings agree on, up to 258: it stops at the first difference. |
| `WindowMatch.WalkIsNearest` | archival/gzip.rs:472-598 | The strings walked are the nearest earlier ones in the input: none within 32506 bytes that begins with the same three bytes is left out, unless as many as are tried are nearer. |
| `WindowMatch.ChainFinds` | archival/gzip.rs:472-598 | So what the search finds in the window is what there is to be found in the input. |
| `LazyMatch.NothingLonger` | archival/gzip.rs:472-598 | With fewer than 32 strings to try and no match of 128 bytes, no earlier string within 32506 bytes has more in common with the current one than the match found, or fewer than three bytes. |
| `HashChains.KeyDecidesThird` | archival/gzip.rs:472-598 | Equal 13-bit keys and two equal bytes leave no choice for the third byte. |
| `HashChains.InsertKeepsChains` | archival/gzip.rs:1584-1607 | Inserting a string keeps every chain a chain of equal keys that skips no string of its key. |
| `HashChains.SlideKeepsChains` | archival/gzip.rs:370-451 | Sliding the window by WSIZE keeps the chains, cut at the new start. |
| `Tokens.CopyRepeats` | archival/gzip.rs:1642-1724 | A match token reproduces data that repeats at its distance, overlaps included. |
| `Window.State.Slide` | archival/gzip.rs:370-451 | The window holds the same input one WSIZE on; strings, chains and distances survive. |
| `Window.State.FillWindow` | archival/gzip.rs:370-451 | There is always room for at least two bytes, so the end is noted only when the input is at its end; otherwise more of it is read. Everything held stays put in the input. |
| `Window.State.InsertString` | archival/gzip.rs:1584-1607 | The current string heads its chain; the old head is returned; every entry fits its 16 bits. |
| `Window.State.FindMatch` | archival/gzip.rs:1608-1641 | A match found is usable: inside the lookahead, within MAX_DIST, and a repeat of the input; one of length 3 is at most 4096 back. It is the longest among the nearest strings of the input (`LazyMatch.Finds`), none being sought with a match of 16 or more held back. |
| `Window.State.Choose` | archival/gzip.rs:1642-1767 | Lazy matching: the match held back is taken exactly if it has three bytes or more and none longer was found here; otherwise the byte before goes out, if one waits, and the match found is held back. The tokens account for exactly the bytes passed, never by a stale match. |
| `Window.State.FlushBlock` | archival/gzip.rs:1462-1551 | At each call the tallied tokens expand to the data of [block_start, strstart). |
| `Window.State.LmInit` | archival/gzip.rs:1812-1857 | Empty chains, first read, key over the first two bytes. |
| `Window.State.Deflate` | archival/gzip.rs:1576-1800 | Over the whole run the emitted blocks stand for exactly the input, in order; only the last is marked last; their tokens are the lazy parse of the input: at every string the longest match among the nearest ones, taken unless the next string has a longer one. |
| `Window.Run` | archival/gzip.rs:1576-1800 | From a fresh state on any input: the tokens of all blocks expand to the input and are its lazy parse. |
| `Primes.ProbesHit` | archival/dpkg.rs:201-221 | Stepping down by any decrement round a prime-sized table visits every slot. |
| `Primes.TableSizeIsPrime` | archival/dpkg.rs:201-205 | 16381 is prime. |
| `NameTable.StillFindable` | archival/dpkg.rs:201-221 | Inserting keeps every string reachable along its probes. |
| `NameTable.Table.Search` | archival/dpkg.rs:201-221 | Ends if a slot is free or the string is there, so also in a full table; a known string keeps its index, a new one fills a free slot, no other slot changes, and the string is nowhere else. |
| `NameTable.Intern` | archival/dpkg.rs:201-221 | Over every sequence with at most 16381 distinct strings, indexes are equal exactly for equal strings. |
| `VersionOrder.OrderSeparates` | archival/dpkg.rs:246-260 | Only the end and digits rank zero, and no two other characters rank alike, which is why the scan never steps past a terminator. |
| `VersionOrder.CmpTransitive` | archival/dpkg.rs:262-314 | Place-by-place comparison of zero-padded keys is transitive. |
| `VersionOrder.CmpFlips` | archival/dpkg.rs:262-314 | ... and total. |
| `VersionOrder.NumbersDecide` | archival/dpkg.rs:262-314 | At a number, the numbers' values decide first. |
| `DebianRules.TildeFirst` | archival/dpkg.rs:246-260 | A version followed by a tilde and anything comes before the version itself. |
| `DebianRules.TildeBeforeOthers` | archival/dpkg.rs:246-260 | ... and before the version followed by any other character that is no digit. |
| `DebianRules.EndFirst` | archival/dpkg.rs:246-260 | Every continuation by another character that is no digit comes after the end. |
| `DebianRules.LettersFirst` | archival/dpkg.rs:246-260 | After the same text, a letter comes before every character that is no letter, digit or tilde. |
| `DebianRules.ByCode` | archival/dpkg.rs:246-260 | Letters among themselves, and the others among themselves, go by character code. |
| `DebianRules.NumbersByValue` | archival/dpkg.rs:284-308 | Texts that begin with numbers of different value go by those values. |
| `DebianRules.PartsOf` | archival/dpkg.rs:319-371 | A number, a colon, any text, a dash and a text without one are read as epoch (modulo 2^32), upstream version and revision. |
| `DebianRules.PartsInTurn` | archival/dpkg.rs:319-371 | Versions so written compare by epoch value, then upstream version, then revision. |
| `DebianRules.CandidateFirst` | archival/dpkg.rs:372-388 | A release candidate `v~t` is smaller than `v`. |
| `DebVersion.CompareNumbers` | archival/dpkg.rs:284-308 | Skipped zeros, first difference and length together compare the numbers by value. |
| `DebVersion.ComparePart` | archival/dpkg.rs:262-314 | The sign is the comparison of the keys: ranks of the non-digit part, then the number, and so on, zero from the end on. What the ranks mean for the strings is said by the rows of `DebianRules`. |
| `DebVersion.Compare` | archival/dpkg.rs:319-371 | The sign is the comparison of epoch, then upstream version, then revision. |
| `DebVersion.VersionFlips` | archival/dpkg.rs:315-318 | Comparing the other way round flips the sign. |
| `DebVersion.VersionTransitive` | archival/dpkg.rs:315-318 | The order is transitive, with equal versions interchangeable. |
| `DebVersion.TestVersion` | archival/dpkg.rs:372-388 | Each operator asks exactly its relation of the order; unknown ones fail. |
| `Adler.Adler32` | archival/lzop.rs:648-678 | For every start value and buffer, the two sums of section 8.2 of RFC 1950 in closed form: the first plus the sum of the bytes, the second plus n times the first plus every byte times its distance from the end, both modulo 65521; no buffer gives 1. |
| `Adler.BaseIsLargestPrime` | archival/lzop.rs:127-128 | 65521 is prime, and no larger number below 65536 is. |
| `Adler.ChecksumIs` | archival/lzop.rs:648-678 | The byte-by-byte definition is that closed form. |
| `Adler.NoOverflow` | archival/lzop.rs:127-132 | Up to 5552 bytes no 32-bit sum wraps round, from any 16-bit sums. |
| `Adler.NmaxIsLargest` | archival/lzop.rs:127-132 | 5553 bytes of 255 would wrap round. |
| `Adler.InPieces` | archival/lzop.rs:648-678 | Checksumming in pieces equals checksumming the concatenation. |

## Left out

- `mainSort`, `mainSimpleSort`, `mainQSort3` (the bucket-copying driver and its budget): only the comparison `mainGtU` is modelled. `BzBackend.SortBlock` always runs the fallback sort; `Bwt.ColumnIsUnique` and `BzBlock.ReadsBlock` hold for any sort of the rotations.
- MainGtU.GtU: takes the quadrant invariant as given; that `mainSort` keeps it is not shown.
- FallbackSort.Sort: the block has an array of its own. That `eclass` shares its storage is modelled by writing arbitrary bytes over the block before `Restore` rebuilds it. Header bits are a boolean array, so the 32-bit packing of `bhtab` shows only in the word-wise skips.
- BzBackend.SendMTFValues: takes the first tables as given; `FirstTables.MakeFirst` says what they are and `BzBackend.SendBody` joins the two. Where several sets of lengths are equally cheap, which of them is used is left open.
- BzCompress.CompressStream: output is an appended sequence; that a block is written into the same array behind its own bytes shows only as the bound `BzCompress.CompressBlock` keeps. The CRC table is any table of 256 words; with the one `CrcTable.FillTable` fills, the CRC is the remainder.
- HbCodes.MakeCodeLengths: optimal for the frequencies as rescaled; what a rescaling costs against the original ones is not bounded.
- BuildTree.Build: lengths that had to be repaired follow frequency, form a complete code and are the cheapest arrangement of their lengths, but nothing is claimed of the number of codes of each length against the best code of at most max_length; the repair is a heuristic.
- Window.State.Tally: the guess whether to end a block early is left open (any answer), so the results hold for every guess, and only where a block ends depends on it; a full buffer always ends the block. Bytes beyond the lookahead, also past the window's end, are arbitrary.
- Window.State.FillWindow: the case `more == -1`, which 32-bit arithmetic rules out, is omitted.
- Gzip.DeflateStream: the window's blocks are coded after it has produced them, not interleaved; the two halves share nothing but tokens and block ends. The gzip header and the trailing CRC and size are not modelled.
- DebVersion.Compare: works on the strings; that two indexes lead to them is `NameTable`'s business. `atoi` is modelled for epochs that do not overflow.
- NameTable.Table.Search: the hash is any pair of functions into the ranges `make_hash` guarantees.
- Reading and writing files, options, messages, and the decompressors: input is a sequence delivered in arbitrary pieces, output an appended sequence.
- The little-endian CRC table, the LZO code in the libraries, `lzo1x_optimize`, dpkg's dependency checks and status file, unzip, rpm, tar, cpio and the rest of the repository: they would add easier members or rest on code that is not part of this model.
