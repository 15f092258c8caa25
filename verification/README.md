# Proofs about the engine's decoders, string storage, text conversions, block stream and averages

This project models five parts of the engine and proves what each of them is for. In every part a
fast or stateful piece of code has to agree with a simple mathematical definition; the definition is
written down independently and the code, as imperative Dafny, is proved against it.

**Inflate** (`Bits`, `Bytes`, `HuffmanCode`, `HuffmanTrie`, `HuffmanRoom`, `HuffmanTable`, `BitReader`,
`Window`, `Inflate`, `DeflateSpec`, `DynamicBlock`, `Deflate`, `Straying`, `ZlibStream`, `StrayStream`,
`ShortStreams`, `Adler32`, `InflateDriver`). A compressed stream is a natural number, its bits read from the lowest.
`DeflateSpec` and `HuffmanCode` say what blocks and codes mean in the words of RFC 1951, sections
3.1.1 and 3.2.2 to 3.2.7, and prove that a stream has at most one meaning. The decoder itself is
modelled with its bit buffer, its two-level decoding tables with negative node numbers, its literal
loop of two symbols per round, its match copy through a flat or circular buffer, and suspensions:
input comes in any chunks, and the caller comes back for output any number of times. The end result
is `ZlibStream.Decompress` and `ZlibStream.Uncompress`: whatever the chunking, what can be read from a
stream comes out, completely unless the room runs out, and when the model is done or stops, the
output is the meaning of the stream if and only if the stream neither strays from an incomplete code
nor takes the code outside the definition. `InflateDriver` is the buffered
driver around it, `Adler32` the checksum of RFC 1950, section 8.2, with its deferred modulo.

**String heap and string columns** (`HeapLayout`, `StringHeap`, `StringColumn`). The heap is a
sequence of bytes with its bucket table and its collision links inside, for an arbitrary hash
function. Runs of insertions keep every location valid; a small heap stores a string once; a linear
scan rebuilds the bucket table. A column of one to eight bytes wide offsets into such a heap is widened
in place, back to front.

**Text conversions** (`Utf8`, `StringText`, `StringQuote`, `NumberText`). The grammar of RFC 3629,
section 4, is proved to describe exactly the encodings of section 3. The string decoder, with its
escapes and its byte-by-byte validator, accepts exactly the well-formed texts; printing and parsing
is the identity. The number parser is exact and never leaves 64 bits.

**Block stream** (`BlockStream`). Writer and reader of length-prefixed blocks with a flush mark. For any
writes and flushes, any request sizes and any short reads below, the reader puts together exactly the
blocks that were flushed. What a read does on a cut or damaged stream is stated as well.

**Averages and variance** (`Average`, `Candidates`, `ColumnAverage`, `Variance`). A quotient and a
remainder kept up to date without overflow, the enumeration of candidate positions, the average of a
column in two phases, and the one-pass variance over the reals.

The widths of the 64-bit build are used: `var_t`, `size_t` and the bit buffer have 64 bits, words in
memory are little-endian, and there are no 128-bit integers. Integers are unbounded except where a
range is stated; `CTypes.lng` is a 64-bit type whose operations do not verify if they overflow.

## Where the code and its comments part

- A step of the running average leaves the remainder `n` instead of one below `n` exactly when the
  truncated remainder of the new value, plus `n`, is that of the old average
  (`Average.Divide`); the carry behind it repairs this.
- The C type in which a step subtracts two remainders is not always wide enough. For numbers between two
  bounds `Average.DifferenceFitsIff` gives the exact condition; numbers of one sign, or no further
  apart than the type is wide, always fit, and over all values of a type one and two byte numbers do,
  32-bit numbers up to 2^30 values and 64-bit numbers up to 2^62 (`Average.WholeRangeFits`).
- The second loop of the column average takes that step for every value behind the overflow, with the
  average so far rounded down, so its contracts require exactly that each of these subtractions fits
  (`ColumnAverage.FoldFits`). `ColumnAverage.ColumnFits` gives conditions a caller can check,
  `ColumnAverage.FoldFitsIff` is the exact bound for all folds, from their second value on, of values in
  a range, and `ColumnAverage.ColumnsFitIff` the exact condition for all columns of n values of a type whose sum
  overflows. `ColumnAverage.FoldOverflowWitness` is a 32-bit column whose sum overflows and whose last subtraction
  does not fit.
- The column average without a candidate list, or with a dense one, leaves out the value whose
  addition overflowed. Average and count are exact together if and only if no partial sum overflows
  (`ColumnAverage.RangeExactIff`, with `ColumnAverage.RangeOverflowWitness`); the average alone is exact also
  when the value left out is the mean of the others (`ColumnAverage.RangeAverageIff`). With a sparse
  list both are, as long as the subtractions fit.
- Code lengths with one used symbol, or none, pass the test at src/embedded/decompress.c:741 although the
  code is incomplete. A stream that goes on with another bit string is not refused: symbol 0 is decoded,
  and a number of bits skipped that depends on the lengths alone (`HuffmanTrie.DeadEndIs`). Which
  bits do it is stated in `Straying.LoneDecodable`. The model follows the code there; such a stream is
  said to stray, and what is read from it is not its meaning (`DeflateSpec.StrayIff`).
  `StrayStream.StrayWitness` is a stream of 140 bits that strays and is read to its end.
- At length symbols 286 and 287 and distance symbols 30 and 31 the code goes on with a base of zero, and in
  a circular buffer a distance may reach before the output. The definition stops there, and so does the
  model, with the status `Unspecified` that the code does not have; whatever the code reports then is not the
  meaning of the stream, because it has none (`Straying.OutsideStream`). `ShortStreams.ReservedStream` is the
  four bytes 73 1C 03 00, a literal, length symbol 286, a distance and the end symbol.
- Behind the end of the input zeros are read. A stream that ends in the middle of its end symbol can be done with
  a meaning that ends behind the input, for instance the single byte 03 (`ShortStreams.EarlyEnd`). While
  input bytes are left over, the end lies within the input (`ZlibStream.Decompress`).
- The counted length of an escaped string is enough for every string if and only if the quote is
  printable and not 0xC2, or has a two-character escape, or is absent (`StringQuote.CountCoversIff`).
- The one insertion that starts within the last word below 64 KiB puts its link cell exactly at the
  limit (`HeapLayout.LinkAtLimit`); its bucket is then read as that of a large heap, which
  costs a duplicate but never a wrong answer.

## Model

| member | source | states |
|---|---|---|
| HuffmanCode.PrefixFree | src/embedded/decompress.c:736-748 | the codes that the construction hands out to lengths that are not over-subscribed are prefix-free |
| HuffmanCode.SymbolUnique | src/embedded/decompress.c:736-748 | a bit stream starts with the code of at most one symbol |
| HuffmanCode.SymbolExists | src/embedded/decompress.c:741-744 | when the total is 65536 every bit stream starts with the code of some symbol |
| HuffmanCode.AcceptedNotOversubscribed | src/embedded/decompress.c:741-744 | the lengths that pass the test, including those with at most one used symbol, are not over-subscribed |
| HuffmanTrie.ShortSlotsFree | src/embedded/decompress.c:749 | every look-up slot that a short code claims was free: it overwrites neither a leaf nor a link |
| HuffmanTrie.AddShort | src/embedded/decompress.c:749 | claiming all slots that end in the reversed code adds exactly that symbol to the table |
| HuffmanTrie.AddRootNode | src/embedded/decompress.c:750 | the slot of a new subtree was empty, and linking it leaves the meaning of the table unchanged |
| HuffmanTrie.AddInnerNode | src/embedded/decompress.c:752-756 | the cell that gets a new link was empty, lies inside the array, and the table means what it did |
| HuffmanTrie.AddLongLeaf | src/embedded/decompress.c:757 | the cell of a long code's leaf was empty and inside the array, and writing it adds exactly that symbol |
| HuffmanTrie.SlotsPartitioned | src/embedded/decompress.c:745-758 | each of the 1024 slots of a finished complete table belongs to one short code or to one subtree, never to both and never to none |
| HuffmanTrie.SlotRead | src/embedded/decompress.c:646-649 | what the walk reads in a slot is the link of the subtree, the leaf of the stream's own symbol, or nothing when it has none |
| HuffmanTrie.CellRead | src/embedded/decompress.c:649 | what it reads in a tree cell, which lies inside the array, is the next link, the stream's own symbol, or nothing |
| HuffmanTrie.DeadEndUnique | src/embedded/decompress.c:649 | a walk that finds no symbol ends after one number of bits |
| HuffmanTrie.DeadEndIs | src/embedded/decompress.c:646-649 | that number is determined by the code lengths: none if the ten look-up bits begin no code, and otherwise up to the first bit that leaves the beginnings of codes |
| HuffmanTrie.SettledForAll | src/embedded/decompress.c:622-635 | once the buffered bits settle a walk, no bits behind them change its symbol |
| HuffmanRoom.RoomForNode | src/embedded/decompress.c:229 | a complete code never needs a node beyond the 576 cells of the tree array |
| HuffmanTable.SumsFitUint32 | src/embedded/decompress.c:739-740 | the running sums of the construction stay below 2^32 |
| HuffmanTable.CodeReversed | src/embedded/decompress.c:748 | the reversed code starts, lowest bit first, with the code of its symbol |
| HuffmanTable.LoneSymbol | src/embedded/decompress.c:741-744 | when an incomplete set of lengths is accepted, no node exists before its only symbol |
| HuffmanTable.Tally | src/embedded/decompress.c:738-740 | the counting loops compute the first code of each length, the number of used symbols and the Kraft sum |
| HuffmanTable.Table.Build | src/embedded/decompress.c:736-758 | construction fails exactly on incomplete or over-subscribed lengths with several symbols, and otherwise the table stands for exactly the canonical code |
| HuffmanTable.Table.Insert | src/embedded/decompress.c:747-757 | entering a symbol changes no slot and no cell that was in use |
| HuffmanTable.Table.Walk | src/embedded/decompress.c:646-650 | the table walk on any bits returns the raw entry and the length of the one symbol whose code is a prefix of them, and says so when there is none |
| HuffmanTable.DecodeSymbol | src/embedded/decompress.c:646-650 | for every accepted set of lengths and every stream, the one symbol whose code the stream starts with and its length; a complete set leaves no stream without one |
| HuffmanTable.Table.Sufficient | src/embedded/decompress.c:624-634 | the test on a part-filled buffer succeeds only when the buffered bits settle the symbol |
| BitReader.Reader.GetByte | src/embedded/decompress.c:602-616 | the next byte of the concatenated chunks, however often it has to wait, and zero behind the end |
| BitReader.Reader.GetBits | src/embedded/decompress.c:618-620 | the next n bits of the stream, which is then n bits further; no buffered bit is dropped |
| BitReader.Reader.Unread | src/embedded/decompress.c:883 | while input bytes are left, no bit behind the input was consumed |
| BitReader.Reader.HuffFill | src/embedded/decompress.c:622-635 | byte-wise filling stops with a settled symbol and an unchanged stream |
| BitReader.Reader.TopUp | src/embedded/decompress.c:639-645 | so does filling with two bytes at once when they are there |
| BitReader.Reader.HuffDecode | src/embedded/decompress.c:637-650 | decodes the symbol at the head of the stream and consumes exactly its code; where there is none, symbol 0 and the bits of the dead end |
| Window.CopyMatchPeriodic | src/embedded/decompress.c:846-870 | a match that overlaps its own output repeats its last dist bytes |
| Window.MaskedIndex | src/embedded/decompress.c:846-853 | the masked source index is the cell dist back, also across the start of the circular buffer |
| Window.Out.SourceByte | src/embedded/decompress.c:846-853 | the cell dist back still holds the byte that was output dist bytes ago |
| Window.Out.HoldsWindow | src/embedded/decompress.c:846-853 | at any time the buffer holds, back from the cursor, the last bytes of the output |
| Window.HoldsMore | src/embedded/decompress.c:846-853 | bytes stored at the cursor become the last ones of that window, also on a later lap |
| Window.Out.Conserved | src/embedded/decompress.c:946-960 | the pieces handed out and the piece in the buffer are, concatenated, the flat output |
| Window.Out.MakeRoom | src/embedded/decompress.c:908-927 | coming back with more room, in a circular buffer or a larger flat one, changes nothing in the output |
| Window.Out.Full | src/embedded/decompress.c:852 | output that waits for room that never comes has used all room there was |
| Window.Out.CopyFast | src/embedded/decompress.c:857-870 | three bytes per round appends the byte dist back, length times |
| Window.Out.CopySlow | src/embedded/decompress.c:848-856 | so does the masked byte loop, as far as there is room |
| Window.Out.CopyOut | src/embedded/decompress.c:846-870 | whichever of the two is taken, the match is appended to the output |
| Inflate.DecodeTwo | src/embedded/decompress.c:793-818 | two codes decoded from one fill are the two that the stream has, the second only behind a literal |
| Inflate.FastPair | src/embedded/decompress.c:791-829 | a round of the fast loop does one or two steps of the definition |
| Inflate.LiteralLoop | src/embedded/decompress.c:781-830 | both literal loops produce the literals of the definition and stop at the same symbol having consumed the same bits |
| Inflate.ReadPair | src/embedded/decompress.c:833-838 | length and distance are those of the tables and extra bits of section 3.2.5 of RFC 1951 |
| Inflate.MatchStep | src/embedded/decompress.c:833-870 | a length symbol is carried out as defined, or refused because the distance reaches before the start; the model stops exactly at a reserved symbol and, in a circular buffer, at a distance before the output |
| Inflate.CompressedBlock | src/embedded/decompress.c:778-872 | a compressed block yields exactly the output of the definition for every chunking and every number of resumptions, also where it strays, up to where the model stops |
| Inflate.EndUnique | src/embedded/decompress.c:778-872 | a block ends in at most one way |
| DeflateSpec.FixedCodesComplete | src/embedded/decompress.c:719-727 | the fixed codes are complete |
| DeflateSpec.HeaderUnique | src/embedded/decompress.c:730-775 | a dynamic header is read in at most one way |
| DeflateSpec.BlockUnique | src/embedded/decompress.c:680-873 | so has a block |
| DeflateSpec.StreamUnique | src/embedded/decompress.c:680-873 | and a whole stream: number of blocks, end, output and whether it strays are determined |
| DeflateSpec.ReadOnce | src/embedded/decompress.c:680-878 | at most one output and one end is read from a stream |
| DeflateSpec.StrayIff | src/embedded/decompress.c:741-744 | what is read from a stream is its meaning if and only if no block strays |
| Deflate.StoredHeader | src/embedded/decompress.c:685-687 | the length fields are read from the next byte boundary |
| Deflate.StoredData | src/embedded/decompress.c:688-711 | the bytes of a stored block come out in order, first those in the bit buffer |
| Deflate.StoredBlock | src/embedded/decompress.c:683-712 | a stored block is copied as defined, or fails on a wrong complement or missing input |
| Deflate.Decompressor.PrepareTables | src/embedded/decompress.c:719-777 | the tables are those of the block's codes, or the block cannot be read |
| Deflate.Decompressor.Block | src/embedded/decompress.c:680-873 | a block leaves behind what is read of it; a failure is a block that cannot be read within the input; the model stops exactly in a block that takes the code outside the definition |
| DynamicBlock.HeaderCounts | src/embedded/decompress.c:730 | the three counts of a dynamic header |
| DynamicBlock.ReadClSizes | src/embedded/decompress.c:731 | the code length code's lengths in their permuted order |
| DynamicBlock.ExpandOne | src/embedded/decompress.c:763-769 | one symbol of the run-length expansion, inside the 457 entries whatever the stream |
| DynamicBlock.ExpandLengths | src/embedded/decompress.c:761-774 | the expanded lengths are those of the definition, or the stream defines none |
| DynamicBlock.HeaderLengths | src/embedded/decompress.c:730-774 | the whole header is read as defined, or defines nothing |
| DynamicBlock.DynamicTables | src/embedded/decompress.c:730-777 | tables are built exactly for headers with acceptable codes |
| ZlibStream.InflateAll | src/embedded/decompress.c:680-878 | all blocks to the final one: done, what is read from the stream; waiting for room, a beginning of it; failed, nothing can be read within the input; stopped, the stream takes the code outside the definition |
| Straying.LoneDecodable | src/embedded/decompress.c:741-744 | from an accepted code of at most one symbol a stream strays exactly where it does not go on with that many zeros |
| Straying.CompleteBlockStays | src/embedded/decompress.c:741-744 | a block whose codes are complete never strays |
| Straying.CompleteStreamStays | src/embedded/decompress.c:741-744 | nor does a stream of such blocks |
| StrayStream.StrayWitness | src/embedded/decompress.c:646-649 | a stream that strays, a stored byte and then a dynamic block with one distance code of one bit where a length is followed by the other bit, is read to its end with seven bytes, and has no meaning |
| Straying.OutsideBlock | src/embedded/decompress.c:833-844 | a block with a reserved symbol, or in a circular buffer with a distance before the output, cannot be read |
| Straying.OutsideStream | src/embedded/decompress.c:833-844 | so a stream with such a block has no meaning |
| ShortStreams.ReservedStream | src/embedded/decompress.c:833-870 | a stream of four bytes that does not stray and has no meaning: it takes the code outside the definition |
| ShortStreams.EarlyEnd | src/embedded/decompress.c:602-616 | an input of one byte whose meaning ends two bits behind it |
| ZlibStream.LeftAgrees | src/embedded/decompress.c:680-878 | the outcome of the block loop agrees with what is read, and done or stopped it is the meaning exactly when the stream neither strays nor goes outside |
| ZlibStream.Decompress | src/embedded/decompress.c:903-964 | from any chunks, into any buffer, with any number of resumptions: what is read from the stream comes out, entirely if there is room; done or stopped, the output is the meaning of the stream if and only if it neither strays nor takes the code outside the definition, and it ends within the input if input bytes are left over |
| ZlibStream.ReadTrailer | src/embedded/decompress.c:876 | the stored checksum, most significant byte first, from the next byte boundary |
| ZlibStream.ChecksumMatches | src/embedded/decompress.c:887-898 | the comparison is with the Adler-32 checksum of everything produced |
| ZlibStream.Uncompress | src/embedded/decompress.c:672-678 | a zlib stream is refused on a bad header, and otherwise done exactly when the stored checksum is that of the output read; done, mismatched or stopped, output and verdict are those of the meaning if and only if the stream neither strays nor takes the code outside the definition |
| Adler32.ReduceLate | src/embedded/decompress.c:372-385 | reducing once behind a block is reducing after every byte |
| Adler32.BlockFitsUint32 | src/embedded/decompress.c:377-382 | no sum leaves 32 bits within a block of 5552 bytes |
| Adler32.SumBlock | src/embedded/decompress.c:377-381 | the unrolled loop and the rest loop compute the plain sums of the block |
| Adler32.Checksum | src/embedded/decompress.c:372-385 | the blocked checksum, whose first block may be empty, is the checksum defined byte by byte |
| Adler32.AdlerConcat | src/embedded/decompress.c:372-385 | the checksum of a concatenation continues from the first part |
| Adler32.ChecksumContinues | src/embedded/decompress.c:884-898 | checksumming output piece by piece, as the decompressor does, is checksumming it at once |
| InflateDriver.InflateStream.CopyOut | src/embedded/decompress.c:498-504 | pending bytes are delivered in order, as many as fit |
| InflateDriver.Refilled | src/embedded/decompress.c:509-518 | bytes written behind the dictionary offset keep received, pending and decoded bytes and the window together |
| InflateDriver.InflateStream.Refill | src/embedded/decompress.c:509-518 | a call of the decompressor appends its bytes to what is pending and accounts for the input it used; the dictionary, which holds the last 32 KiB decoded, is then again the window of the next call |
| InflateDriver.InflateStream.InflateDirect | src/embedded/decompress.c:477-495 | the one-call path delivers what is decoded and is at the end exactly when the decompressor is |
| InflateDriver.InflateStream.Pump | src/embedded/decompress.c:507-538 | decompressing and delivering in turn stops only when a side has to wait |
| InflateDriver.InflateStream.Inflate | src/embedded/decompress.c:456-539 | every call keeps delivered plus pending equal to decoded, conserves input and room, keeps the dictionary the window of what was decoded unless the first call went straight to the caller, and returns the code its state calls for |
| InflateDriver.InflateStream.Run | src/embedded/decompress.c:456-539 | over any run of calls delivered bytes plus pending bytes are the decoded bytes, in order and once each |
| HeapLayout.LinkAtLimit | src/gdk/gdk_atoms.c:1287-1292 | the link cell of a string entered in a small heap is at most at the limit, and exactly there if and only if the heap ended within a word of it |
| HeapLayout.SameIsEqual | src/gdk/gdk_atoms.h:357-362 | comparing with a stored string is comparing the strings, nil included |
| HeapLayout.EntryRange | src/gdk/gdk_atoms.c:1287-1301 | cells and bytes of an entry lie between the end of the one before and its own end |
| HeapLayout.InsertedOk | src/gdk/gdk_atoms.c:1388-1407 | after the writes the new string is in place, linked to its bucket's last one, heads its bucket, and all older bytes are untouched |
| HeapLayout.DenotesFrame | src/gdk/gdk_atoms.c:1388-1407 | a location keeps its string as long as older bytes are untouched |
| StringHeap.Heap.constructor | src/gdk/gdk_atoms.c:1123-1140 | a fresh heap is valid and has an empty bucket table |
| StringHeap.Heap.SearchList | src/gdk/gdk_atoms.c:1264-1273 | a collision list holds only strings of its bucket at decreasing places, so the search ends, and finds a string exactly when the list has it |
| StringHeap.Heap.Locate | src/gdk/gdk_atoms.c:1221-1242 | in a small heap a string is found exactly when it was entered |
| StringHeap.Heap.FindBeforePut | src/gdk/gdk_atoms.c:1259-1284 | what is found is the string; in a small heap nothing that was entered is missed; the head of a bucket is recognised in a large heap too |
| StringHeap.Heap.Extend | src/gdk/gdk_atoms.c:1305-1333 | growing ends above the size needed and keeps all bytes |
| StringHeap.Heap.Enter | src/gdk/gdk_atoms.c:1336-1407 | entering appends one entry at its aligned place and keeps the bucket table complete if it was |
| StringHeap.Heap.Put | src/gdk/gdk_atoms.c:1244-1410 | the location returned denotes the string; a small heap never stores one twice; refusal means the heap is at its largest |
| StringHeap.Heap.PutAll | src/gdk/gdk_atoms.c:1244-1410 | over any run of insertions every location ever returned keeps denoting its string, and in a heap that stayed small two locations are equal exactly if their strings are, and the strings found afterwards are those entered before and those of the run |
| StringHeap.Heap.Scan | src/gdk/gdk_atoms.c:1174-1189 | one linear scan finds for every bucket its last string entered while the heap was small |
| StringHeap.Heap.CleanHash | src/gdk/gdk_atoms.c:1152-1214 | the rebuilt table is the one insertion kept for a small heap, and the one of the limit crossing for a large one, under which the heap is valid again |
| StringColumn.PutCell | src/gdk/gdk.h:1034-1048 | a cell reads back as what was stored |
| StringColumn.OtherCell | src/gdk/gdk.h:1253-1257 | cells do not overlap |
| StringColumn.ConvertedFits | src/gdk/gdk_heap.c:484-532 | a widened offset fits and stands for the same place |
| StringColumn.WidthFor | src/gdk/gdk_heap.c:391-396 | the new width is the smallest wider one that holds the offset |
| StringColumn.Widen | src/gdk/gdk_heap.c:476-532 | converting back to front in the same memory keeps what every cell stands for |
| StringColumn.Appended | src/gdk/gdk.h:1034-1048 | storing behind the last cell leaves the others alone |
| StringColumn.Column.Read | src/gdk/gdk.h:1253-1257 | the offset at position i denotes the i-th string appended |
| StringColumn.Column.Upgrade | src/gdk/gdk_heap.c:374-537 | a wider column denotes the same strings and holds the new offset |
| StringColumn.Column.Append | src/gdk/gdk.h:1022-1052 | appending through deduplication, heap growth and widening adds exactly one string at the end |
| Utf8.GrammarIsEncoding | src/gdk/gdk_atoms.c:1417-1438 | the byte grammar describes exactly the shortest encodings of code points up to 10FFFF without surrogates |
| Utf8.WellFormedConcat | src/gdk/gdk_atoms.c:1537-1576 | behind a well-formed text, well-formedness is that of the rest |
| Utf8.LastTail | src/gdk/gdk_atoms.c:1547-1565 | the three tests on a collected code point are exactly the restrictions of the grammar |
| Utf8.CountOnes | src/gdk/gdk_atoms.c:1566-1579 | the shifting loop recognises the lead bytes of two, three and four byte characters |
| Utf8.Step | src/gdk/gdk_atoms.c:1537-1584 | a byte completes or continues a character, or no continuation is well-formed |
| StringText.OctalEscape | src/gdk/gdk_atoms.c:1459-1487 | an octal escape has up to three digits, and is refused exactly when its value is no byte |
| StringText.HexEscape | src/gdk/gdk_atoms.c:1488-1499 | a hexadecimal escape has one or two digits, and without any is the letter |
| StringText.EscapedUnit | src/gdk/gdk_atoms.c:1457-1531 | what any escape stands for and where it ends |
| StringText.Decode | src/gdk/gdk_atoms.c:1440-1595 | succeeds exactly when every escape is a byte and the bytes are well-formed, emits those bytes and a zero, and writes nothing behind them |
| StringText.ScoutedEnough | src/gdk/gdk_atoms.c:1622-1634 | the decoder never emits more than the scouted length |
| StringText.Scout | src/gdk/gdk_atoms.c:1622-1634 | scouting finds the first quote that no escape covers, or that there is none |
| StringText.StrFromStr | src/gdk/gdk_atoms.c:1597-1649 | nil, the word nil, a quoted text or a refusal, with the count the code returns |
| StringQuote.CountCovers | src/gdk/gdk_atoms.c:1663-1696 | the counted length is at least the escaped length, before every byte of the string |
| StringQuote.CountCoversIff | src/gdk/gdk_atoms.c:1663-1696 | for all strings, exactly for the quotes named |
| StringQuote.EscapedStrlen | src/gdk/gdk_atoms.c:1663-1696 | computes the counted length |
| StringQuote.EscapedStr | src/gdk/gdk_atoms.c:1698-1749 | writes the escaped string and a zero and stays within its room |
| StringQuote.StrToStr | src/gdk/gdk_atoms.c:1751-1768 | a buffer of the counted length and three more holds the quoted text |
| StringQuote.RoundTrip | src/gdk/gdk_atoms.c:1597-1768 | parsing what was printed is the identity on nil and on every well-formed string, and refuses all others |
| NumberText.TableScale | src/gdk/gdk_atoms.c:605-627 | the scales of the table are the powers of ten |
| NumberText.TableMax | src/gdk/gdk_atoms.c:605-627 | the maximum beside a scale is exactly what may still be multiplied by it |
| NumberText.ReadDigits | src/gdk/gdk_atoms.c:681-690 | the digits as a 64-bit number, refused exactly when they exceed it |
| NumberText.Scale | src/gdk/gdk_atoms.c:699-714 | the number times a power of ten, refused exactly when the product exceeds 64 bits |
| NumberText.Magnitude | src/gdk/gdk_atoms.c:681-766 | sign, digits and exponent give the exact value when the type holds it |
| NumberText.NumFromStr | src/gdk/gdk_atoms.c:629-776 | the exact value if and only if it is a non-nil value of the type; otherwise failure with nil stored |
| NumberText.DecimalReads | src/gdk/gdk_atoms.c:397-407 | the decimal digits of a number read back as it |
| NumberText.NumberRoundTrip | src/gdk/gdk_atoms.c:397-407 | printing and parsing is the identity on every value of every width, nil included |
| BlockStream.ParseAppend | src/common/stream.c:2215-2233 | sending a block appends its bytes, and its end if marked, to what the wire says |
| BlockStream.Writer.Write | src/common/stream.c:2179-2236 | buffered and sent bytes are what was written, in order, whatever the pieces |
| BlockStream.Writer.Flush | src/common/stream.c:2243-2290 | a flush closes a block, also an empty or a full one, and the wire then says exactly the blocks |
| BlockStream.Reader.ReadHeader | src/common/stream.c:2329-2352 | reading a header changes nothing of what is still to be reported, finds none only at the end, and refuses a negative one |
| BlockStream.Reader.ReadBytes | src/common/stream.c:2359-2387 | short reads below deliver the bytes of the block in order, all of them unless they are missing |
| BlockStream.Reader.ReadPart | src/common/stream.c:2357-2421 | after the bytes that the block still has, the reader stops at a flush and looks ahead otherwise |
| BlockStream.Reader.Read | src/common/stream.c:2302-2429 | on any wire, a request gets the next bytes of its block, all it asked for unless the block ends before; an empty result consumes exactly one block end or means that the stream ends inside a block; an error means missing data or a bad header within the request |
| BlockStream.SoundRead | src/common/stream.h:208-216 | on a stream that was not cut or damaged no read fails or loses a byte |
| BlockStream.TranscriptInjective | src/common/stream.h:208-216 | what is reported tells the blocks |
| BlockStream.BlocksRecovered | src/common/stream.h:208-216 | results that report the blocks put together exactly the blocks |
| BlockStream.Listen | src/common/stream.c:2302-2429 | a series of reads of any sizes reports the stream in order and once |
| BlockStream.Converse | src/common/stream.c:2179-2429 | whatever the writes, flushes, requests and short reads, the reader puts together the blocks written, one empty read each |
| Average.QuotRem | src/gdk/gdk_aggr.c:1186-1191 | truncated quotients and remainders stay in the type |
| Average.DifferenceFitsIff | src/gdk/gdk_aggr.c:1190-1202 | the difference of remainders fits its C type for all numbers between two bounds if and only if the two largest remainders do; for numbers of one sign, or no further apart than the type is wide, always |
| Average.WholeRangeFits | src/gdk/gdk_aggr.c:1190-1202 | over all values of a type it fits always for one and two byte numbers, and if and only if n is at most 2^30 for int and 2^62 for lng |
| Average.Divide | src/gdk/gdk_aggr.c:1186-1214 | if the one subtraction of remainders fits, quotient and remainder of x - a by n without overflow, the remainder being n in one exact case |
| Average.Iterate | src/gdk/gdk_aggr.c:1177-1221 | if that subtraction fits, a*n + r grows by exactly the new value, with r between 0 and n, and no intermediate leaves its type |
| Candidates.DensePositions | src/gdk/gdk_cand.h:26-56 | the clamped range of a dense list is exactly its positions in the column |
| Candidates.SparsePositions | src/gdk/gdk_cand.h:30-43 | the slice of any other list is exactly its positions in the column |
| Candidates.WantedCount | src/gdk/gdk_cand.h:16-59 | no position is visited twice |
| Candidates.Cursor.constructor | src/gdk/gdk_cand.h:16-59 | the state set up visits exactly the candidate positions in range |
| Candidates.Cursor.Next | src/gdk/gdk_aggr.c:1511-1522 | the loop header visits the next of them, or ends |
| ColumnAverage.AddWithCheck | src/gdk/gdk_calc_private.h:50-71 | the checked addition refuses exactly the sums out of range and then leaves the sum alone |
| ColumnAverage.AddUp | src/gdk/gdk_aggr.c:1509-1533 | the first loop adds up the values that are not nil up to the first overflow |
| ColumnAverage.Convert | src/gdk/gdk_aggr.c:1547-1558 | the sum becomes its floor quotient and remainder |
| ColumnAverage.AverageBetween | src/gdk/gdk_aggr.c:1562-1579 | the running quotient stays between the least and the greatest value folded in |
| ColumnAverage.FoldWithin | src/gdk/gdk_aggr.c:1562-1579 | so all subtractions of a fold fit if the values have one sign or no greater spread than the type is wide, or if the bound on differences holds |
| ColumnAverage.FoldFitsIff | src/gdk/gdk_aggr.c:1562-1579 | all folds of n values between two bounds, from the second value on, fit if and only if that bound holds |
| ColumnAverage.ColumnsFitIff | src/gdk/gdk_aggr.c:1537-1581 | the second loop subtracts without overflow for every column of n values of the type whose sum overflows, if and only if the bound holds for the values folded or the first n - 1 values cannot overflow the sum |
| ColumnAverage.ColumnFits | src/gdk/gdk_aggr.c:1537-1581 | what a caller can check of a column whose sum overflows so that the second loop is exact |
| ColumnAverage.FoldOverflowWitness | src/gdk/gdk_aggr.c:1562-1579 | a 32-bit column whose sum overflows and whose last subtraction overflows too, as a list and as a range |
| ColumnAverage.Continue | src/gdk/gdk_aggr.c:1562-1579 | the second loop goes on with all values ahead, if each of its subtractions fits |
| ColumnAverage.Resume | src/gdk/gdk_aggr.c:1537-1581 | a list is visited again from the value that overflowed, a range is not |
| ColumnAverage.CalcAvg | src/gdk/gdk_aggr.c:1505-1582 | the exact rational average of the candidate values; over a range, of all but the one that overflowed; behind an overflow, if the subtractions of the second loop fit |
| ColumnAverage.RangeExactIff | src/gdk/gdk_aggr.c:1518-1533 | over a range average and count are exact if and only if no partial sum overflows |
| ColumnAverage.RangeAverageIff | src/gdk/gdk_aggr.c:1518-1533 | the average alone is exact if and only if no partial sum overflows or the value left out is the mean of the others |
| ColumnAverage.RangeOverflowWitness | src/gdk/gdk_aggr.c:1518-1533 | two values for which they are not |
| Variance.MeanIsBest | src/gdk/gdk_aggr.c:2615-2674 | deviations from another point exceed those from the mean by n times the squared distance |
| Variance.WelfordStep | src/gdk/gdk_aggr.c:2622-2625 | one step keeps n times the mean equal to the sum and m2 equal to the squared deviations |
| Variance.CalcVariance | src/gdk/gdk_aggr.c:2615-2674 | the one-pass result is the two-pass population or sample variance of the values that are not nil |

## Left out

- Inflate.MatchStep: what the code does behind a reserved symbol, or with what a circular buffer held before the
  output, is not followed; it depends on the room left in the buffer and can leave it.
- Inflate.CompressedBlock: ends at such a symbol, with a status of the model.
- ZlibStream.Decompress: says of a stream outside the definition that it has no meaning, not what the code reports.
- ZlibStream.Uncompress: likewise.
- The resumable state machine of the decompressor: suspending and resuming is modelled as input that arrives in chunks
  and output room that comes back, not as saved fields.
- InflateDriver.InflateStream.Inflate: runs over any decompressor that respects its buffers, not over the one modelled beside it.
- ZlibStream.InflateAll: circular buffers of less than 32 KiB, and the check that their size is a power of two; any size from 32 KiB
  on is covered.
- CRC-32, compression and the heap-allocating convenience wrappers of the decompressor.
- Memory allocation failure, file storage, backup copies, dirty flags and memory-mapped heaps.
- StringHeap.Heap.CleanHash: the flag that makes the call a no-op and the debug-only checks are not modelled.
- The string hash function is arbitrary; the two-word hash layout is not modelled.
- Heaps shared between columns, views, deletions and in-place replacement of strings.
- Escaping with separators in place of a quote, and quotes of more than one byte.
- The C type `char` is taken as a byte; locale-dependent spaces are the six of the C locale.
- Printing and parsing of floating-point numbers, dates, booleans and object identifiers.
- BlockStream.Reader.Read: items of more than one byte, read errors of the stream below other than its end, and the byte
  and block counters are not modelled; half a header counts as the end of the stream.
- BlockStream.Writer.Write: write errors of the stream below are not modelled.
- The block stream with variable block size and compression.
- ColumnAverage.CalcAvg: averages are rational numbers, not rounded doubles; what the code does behind a subtraction that
  overflows is undefined in C and not modelled.
- Variance.CalcVariance: real arithmetic instead of floating point.
- Grouped aggregates, averages of floating-point columns, sums and products.
