# Succinct graph store: a verified model

The library keeps a graph in succinct form: bit arrays with rank and select, packed number arrays, wavelet trees,
adjacency lists, and front-coded dictionaries whose byte strings sort in the order of the values they stand for.
Every layer is a compact encoding of a plain list, and is used through a handful of operations that must answer as the
list would. This project models the layers and proves, for all inputs, that they do. Each concrete structure comes
with a predicate `Holds` that ties it to its list; builders are proved to establish it, readers to answer by it, and a
layer above uses nothing else about the layer below.

## Layers

* **Bits and packed numbers** (`Bits`, `Words`, `BitStreams`, `LogArrays`, `BitArrays`). Naive rank and the k-th
  matching bit are defined once in `Bits` and are what every index is measured against. Packed arrays read back what
  was pushed at every width up to 64, across word boundaries, with the control word behind or in front.
* **Rank and select** (`BitIndexes`, `RankSelect`). Building and querying the two-level index. Select is proved exact
  where the answer exists. Where it does not, the code answers with padding or panics in certain cases, and the
  contracts say exactly when (`Overflows`, `RunsOffIndex`, `LandsShort`).
* **Wavelet tree** (`WaveletLayout`, `WaveletBuild`, `WaveletTrees`, `WaveletLookups`). The built tree spells, layer by
  layer, the next bits of the elements in every interval. From this alone decoding gives back every element, and a
  lookup gives exactly the positions of a value.
* **Adjacency list** (`AdjacencyLists`). The lagging bit stream, holes filled with 0, and the readers through rank and
  select.
* **Dictionaries** (`ByteStrings`, `VariableBytes`, `DictBlocks`, `RopeOrder`, `SizedDicts`, `StringDicts`,
  `TypedSegments`, `TypedDictBuilders`, `TypedDicts`). From the variable-byte code through one front-coded block and
  many blocks to a dictionary of several datatypes whose ids are recovered from gaps in last blocks. Access and lookup
  are proved to agree with the plain list, for every string looked up.
* **Streaming** (`DictReaders`, `DictStreams`, `DictIterators`, `TypedIterators`). The reader that withholds the last
  eight bytes, and the iterators over it. Streaming a builder's buffers gives back the typed strings built.
* **Values as byte strings** (`BigIntegers`, `DecimalDigits`, `Decimals`, `DecimalTexts`, `Datetimes`). Stored bytes
  sort as the numbers do and decode to what was stored. For integers the order holds up to 8191 bytes and not beyond.
* **Merging** (`SortedMerge`). The k-way merge of sorted iterators.

## How it is modelled

* A 64-bit register is the sequence of its bits, highest first, with shifts and or defined on it; numbers are bounded
  naturals. A disjoint or of shifted bytes is written as a sum.
* Methods take the list a structure holds as a ghost argument. It is what the contract speaks about; the code cannot
  look at it.
* The code has two copies of select that differ only in whether they count ones or zeros. Here it is one, with the bit
  as an argument.
* The code modelled is that of a build with debug assertions and overflow checks. Panics that it can reach on admissible
  arguments are results (`Panics`, `None`), so that contracts can say when they happen. Bounds and underflow elsewhere
  are proof obligations.
* Decimals are kept as integer part, fraction digits and sign, and their value is a real number.

## Where the code departs from what one would expect

* Select with an explicit end at the very end of an array whose length is a multiple of 3328 runs off the superblock
  index when the bit is not there: an assertion fails, and a build without debug assertions goes on with the word behind
  the last entry. `select0` counts padding and missing blocks as zeros. A rank close to 2^64 overflows when the ones
  before the range are added. All three are characterised exactly (`IndexFails`, `PastZeros`), with an input for each.
* Select of rank 0 answers the start of its range unless that holds the bit. With the index it does so if the
  superblock of the start holds the bit before the start; otherwise it underflows if the first block of that superblock
  holds the bit, and finds nothing if not (`SelectZero`).
* A rope with an empty chunk at its end compares greater than the same bytes without it. `OrderIsOfBytes` says for
  which ropes the order is that of the bytes; no entry of a strictly sorted dictionary is one of the others.
* An integer of 8192 magnitude bytes sorts below one of 128 bytes (`SizeInversion`).
* "-0" without a fraction comes back as "0", leading zeros are dropped, and so is a bare point. `RoundTrip` states
  exactly which numerals come back as written.
* An empty read request to the withholding reader ends its stream for good.
* A timestamp within a leap second never comes back. After the epoch its nanoseconds are printed with a digit too many:
  they are read as a tenth, or refused if that makes ten digits, and the timestamp sorts below the middle of its own
  second. Before the epoch, nanoseconds beyond a second underflow, and exactly a second of them is stored as the next
  second, or as negative zero right before the epoch. `OrderCondition` says exactly which timestamps sort right.
* The byte that stands for an empty fraction is looked at but not taken off the buffer.
* A typed dictionary whose datatypes were added out of order is built without complaint, and refused by the order check
  of debug assertions when it is read.
* A lookup in a typed dictionary for a datatype that is not present answers "not found", also where smaller entries
  exist; only within a datatype that is present does "closest" reach back over segment boundaries.

## Model

| member | source | states |
|---|---|---|
| `Bits.RankCounts` | src/bitindex.rs:73-100 | the reference count every rank is measured against is the number of positions below an index that hold the bit |
| `Bits.KthExists` | src/bitindex.rs:159-165 | a range has a k-th matching bit as soon as its count reaches k |
| `Bits.KthIsUnique` | src/bitindex.rs:159-165 | there is at most one k-th matching bit after a start, so "the" selected position is well defined |
| `Bits.KthWithinCount` | src/bitindex.rs:163-213 | the k-th matching bit lies below an end exactly when the range up to there counts at least k |
| `Words.PutU64Bits` | src/bitarray.rs:145-155 | a written 64-bit register extends the bit stream by exactly its own bits |
| `Words.ReadU64IsBigEndian` | src/logarray.rs:317-368 | the register read from eight bytes is their big-endian number |
| `Words.PutU64IsBigEndian` | src/bitarray.rs:163-174 | the eight bytes a register is written as are its number, big-endian |
| `Words.ShlIsProduct` | src/logarray.rs:345 | a left shift is the product with a power of two, less the bits shifted out |
| `Words.ShrIsQuotient` | src/logarray.rs:345 | a right shift is the quotient by a power of two |
| `Words.FromBeOfBe` | src/tfc/integer.rs:81-119 | a big-endian field wide enough for a number reads back as it |
| `LogArrays.ControlWordRoundTrip` | src/logarray.rs:224-231 | parsing the control word gives back any length up to the maximum and any width |
| `LogArrays.ControlWordBytes` | src/logarray.rs:513-528 | where the low half of the length, the width and the rest of the length stand in the control word |
| `LogArrays.ParsedControlWord` | src/logarray.rs:224-231 | what is read from any eight bytes: the length from the first four and the last three, the width from the one between |
| `LogArrays.LogArray.EntryInBuffer` | src/logarray.rs:317-368 | reading an element never leaves the buffer, also when it straddles two words |
| `LogArrays.LogArray.SliceHolds` | src/logarray.rs:382-401 | a slice of an array that reads as a list reads as that part of the list, so slices compose |
| `LogArrays.ParseUndoesBuild` | src/logarray.rs:268-278 | packed data with its control word passes validation and reads back as the values pushed, for every width up to 64 |
| `LogArrays.ParseHeaderFirstUndoesBuild` | src/logarray.rs:280-296 | the header-first form reads back too and hands over exactly the bytes behind it |
| `LogArrays.PackedAt` | src/logarray.rs:442-479 | element i takes the bits from i times the width on, its highest bit first |
| `LogArrays.LogArrayBufBuilder.Push` | src/logarray.rs:442-479 | one push appends one value to the packed stream, whether it fits the current word, fills it or spills over |
| `LogArrays.LogArrayBufBuilder.PushVec` | src/logarray.rs:481-485 | pushes a whole list in order |
| `LogArrays.LogArrayBufBuilder.FinalizeData` | src/logarray.rs:487-491 | the last partial word is written out padded with zeros |
| `LogArrays.LogArrayBufBuilder.Finalize` | src/logarray.rs:493-498 | the finished buffer parses with its width and every entry is the value pushed at that place |
| `LogArrays.CalculateWidthIsLeast` | src/util.rs:171-178 | the width of a value is the least positive one it fits in |
| `LogArrays.LateLogArrayBufBuilder.Push` | src/logarray.rs:551-557 | after any mix of pushes and pops the width is the least positive one for everything ever pushed, so that it fits every value still held |
| `LogArrays.LateLogArrayBufBuilder.Pop` | src/logarray.rs:569-571 | takes the last value off, or answers that there is none |
| `LogArrays.LateLogArrayBufBuilder.Finalize` | src/logarray.rs:573-578 | the buffer written at the end reads back as the values held, with just that width |
| `LogArrays.LateLogArrayBufBuilder.FinalizeHeaderFirst` | src/logarray.rs:580-587 | the same with the header in front, whatever follows in the buffer |
| `LogArrays.IsMonotonic` | src/logarray.rs:724-742 | the check of a monotonic array passes exactly if its elements are sorted |
| `LogArrays.ParseMonotonic` | src/logarray.rs:744-748 | parsing as a monotonic array gives the array or the parse error, and panics exactly if the elements are not sorted |
| `LogArrays.NearestIndexOf` | src/logarray.rs:781-803 | binary search on a sorted array: the element's place, or else the place that splits smaller from greater |
| `LogArrays.IndexOf` | src/logarray.rs:772-779 | finds an element exactly when it is there |
| `BitArrays.BitArray.GetIsBit` | src/bitarray.rs:114-122 | reading bit i of a parsed array gives the i-th bit pushed |
| `BitArrays.ParseBitsUndoesBuild` | src/bitarray.rs:80-94 | a finished bit buffer passes validation and reads back as the bits pushed |
| `BitArrays.BitArrayBufBuilder.Push` | src/bitarray.rs:145-155 | one push appends one bit |
| `BitArrays.BitArrayBufBuilder.PushAll` | src/bitarray.rs:157-161 | pushes a whole list in order |
| `BitArrays.BitArrayBufBuilder.Finalize` | src/bitarray.rs:163-174 | the buffer holds the bits, zero padding and the count |
| `BitArrays.BitArrayBlockIterator.Next` | src/bitarray.rs:237-263 | the block iterator hands out every word of a finished buffer but the control word, by reading one word ahead |
| `BitArrays.BlocksOfBuffer` | src/bitarray.rs:237-252 | all words but the last are the words of the data, as many as the bits need |
| `BitIndexes.NextChunk` | src/bitindex.rs:438-472 | the next 52 blocks, or what is left of them |
| `BitIndexes.RankWithinChunk` | src/bitindex.rs:397-436 | a block's entry is the number of ones from it to the end of its superblock, the superblock's the ones through it |
| `BitIndexes.CountRanks` | src/bitindex.rs:438-472 | the counting loop yields exactly those suffix counts and cumulative counts, for any number of blocks |
| `BitIndexes.BuildFromBlockIter` | src/bitindex.rs:438-481 | the two arrays written read back as those counts, 12 and 64 bits wide |
| `RankSelect.BitIndex.Rank1` | src/bitindex.rs:73-87 | the number of ones up to and including an index, from two index entries and one masked word |
| `RankSelect.BitIndex.Rank1FromRange` | src/bitindex.rs:90-100 | the number of ones in a range |
| `RankSelect.BitIndex.Rank0` | src/bitindex.rs:253-256 | the number of zeros up to and including an index |
| `RankSelect.BitIndex.Rank0FromRange` | src/bitindex.rs:259-269 | the number of zeros in a range |
| `RankSelect.BitIndex.SelectSblock` | src/bitindex.rs:102-124 | the superblock search ends on a superblock whose start is below the rank and whose end reaches it, unless it is the last it may take (also lines 271-293, which differ only in counting zeros) |
| `RankSelect.BitIndex.Get` | src/bitindex.rs:68-70 | the bit at an index |
| `RankSelect.BitIndex.SelectBlock` | src/bitindex.rs:126-156 | the same for the blocks of one superblock (also lines 295-327) |
| `RankSelect.BitIndex.SelectLinear` | src/bitindex.rs:215-250 | the word-by-word scan for short ranges finds the k-th matching bit, or none if there is none; for rank 0 it answers as `SelectZero` says |
| `RankSelect.BitIndex.SelectIndexed` | src/bitindex.rs:167-213 | the indexed search answers right; for ranks from 1 on it panics if and only if it runs off the superblock index or counts missing blocks as zeros, two conditions told from counts and the end; for rank 0 it answers as `SelectZero` says |
| `RankSelect.BitIndex.SelectFromRangeOpt` | src/bitindex.rs:337-390 | select with an optional end, for ones and zeros and every rank: what each answer means, and exactly when it panics, overflow of the rank included; rank 0 answers the start or nothing, or panics, as `SelectZero` says |
| `RankSelect.BitIndex.SelectFromRange` | src/bitindex.rs:163-165 | with an explicit end: the k-th matching bit of the range if the range has one, otherwise no position; panics exactly when the rank overflows or the indexed search fails on its index (also lines 333-335) |
| `RankSelect.BitIndex.Select1` | src/bitindex.rs:159-161 | without an end: the k-th one for every k there is, none beyond, and for those never a panic; rank 0 as `SelectZero` says |
| `RankSelect.BitIndex.Select0` | src/bitindex.rs:329-331 | right for every zero there is; past the last one it answers with the padding position that far behind, exactly in the indexed case and as far as the padding goes; rank 0 as `SelectZero` says |
| `RankSelect.PanicsOnlyWhenMissing` | src/bitindex.rs:167-213 | whenever a search for rank 1 or more panics the bit asked for is not in the range |
| `RankSelect.RunsOff` | src/bitindex.rs:102-124 | the search runs off the index for the first one of 3328 zeros up to their end |
| `RankSelect.FallsShort` | src/bitindex.rs:345-366 | the assertion on the rank in a block fails for the 513th of 512 zeros |
| `RankSelect.RankOverflows` | src/bitindex.rs:172-175 | a rank that overflows when the ones before the range are added |
| `RankSelect.ZeroUnderflows` | src/bitindex.rs:188-194 | rank 0 makes the tally underflow on an array that begins with a one |
| `RankSelect.ScanWord` | src/bitindex.rs:195-212 | the bit scan of one word stops at the matching bit the tally asks for; from tally 0 it underflows exactly if the word has a matching bit |
| `RankSelect.IndexBits` | src/bitindex.rs:36-54 | an index built from any list of bits holds it |
| `RankSelect.RankOfSelected` | src/bitindex.rs:73-161 | rank undoes select for every rank there is |
| `WaveletLayout.TreeSize` | src/wavelettree.rs:247-262 | every layer has one bit for each element |
| `WaveletBuild.CreateFragments` | src/wavelettree.rs:247-262 | one empty fragment for every interval of every layer |
| `WaveletBuild.PushToFragments` | src/wavelettree.rs:264-271 | a pushed number reaches exactly the one fragment of each layer whose interval holds it, which gets its next bit |
| `WaveletBuild.FlattenTree` | src/wavelettree.rs:274-300 | the concatenated fragments are, layer by layer, the next bits of the elements with each prefix in original order |
| `WaveletBuild.BuildWaveletTree` | src/wavelettree.rs:274-300 | the tree built from any list of fitting numbers holds it; of width 0 it has no layers |
| `WaveletTrees.WaveletTree.DecodeLayer` | src/wavelettree.rs:127-153 | one layer of decoding keeps the interval, its place in the layer and the element's rank in it |
| `WaveletTrees.WaveletTree.DecodeOne` | src/wavelettree.rs:119-157 | decoding position i gives the i-th element, and the last interval always has size one |
| `WaveletTrees.LayerBit` | src/wavelettree.rs:247-300 | where the bit of an element stands in each layer: behind the elements with lesser digits above and the earlier ones with the same; and which of its binary digits it is |
| `WaveletLookups.PositionsExact` | src/wavelettree.rs:41-79 | the reference answer of a lookup: exactly the positions of a value, strictly increasing |
| `WaveletLookups.Lookup` | src/wavelettree.rs:160-200 | a lookup finds nothing exactly when the value is absent |
| `WaveletLookups.LookupOne` | src/wavelettree.rs:203-205 | the first position of a value, or none if it is absent or the tree has no layers |
| `WaveletLookups.WaveletLookup.Len` | src/wavelettree.rs:41-49 | the number of occurrences |
| `WaveletLookups.WaveletLookup.Entry` | src/wavelettree.rs:52-79 | the k-th occurrence, found by selecting back up through the layers |
| `WaveletLookups.WaveletLookup.Iter` | src/wavelettree.rs:82-85 | all occurrences in order |
| `AdjacencyLists.AdjacencyListBuilder.PushHoles` | src/adjacencylist.rs:216-224 | the skipped groups are closed with set bits, and each hole gets a 0 |
| `AdjacencyLists.AdjacencyListBuilder.Push` | src/adjacencylist.rs:197-231 | after every push the bit stream is exactly one shorter than the number stream, and both are those of the padded list |
| `AdjacencyLists.AdjacencyListBuilder.PushAll` | src/adjacencylist.rs:233-237 | a list of pairs goes in that continues, strictly increasing, what is there |
| `AdjacencyLists.AdjacencyListBuilder.Finalize` | src/adjacencylist.rs:239-249 | the finished list reads as the pairs with the holes filled in, its numbers as wide as the builder's |
| `AdjacencyLists.EndBitAt` | src/adjacencylist.rs:197-249 | a bit of the finished list is set exactly for the last entry of its left side |
| `AdjacencyLists.AdjacencyList.LeftCount` | src/adjacencylist.rs:61-67 | the greatest left side |
| `AdjacencyLists.AdjacencyList.OffsetFor` | src/adjacencylist.rs:73-79 | a group starts right behind the end of the group before it; one past the last left side gives the number of entries; it panics exactly for 0 and beyond that |
| `AdjacencyLists.AdjacencyList.Get` | src/adjacencylist.rs:108-125 | the slice of exactly the right sides of one left side; it panics exactly for a left side the list does not have |
| `AdjacencyLists.GetIsExact` | src/adjacencylist.rs:108-125 | that slice is the pushed right sides, or the single 0 of a hole |
| `AdjacencyLists.AdjacencyList.LeftAtPos` | src/adjacencylist.rs:92-98 | the left side of the entry at a position |
| `AdjacencyLists.AdjacencyList.PairAtPos` | src/adjacencylist.rs:81-90 | the entry of the padded list at every position |
| `AdjacencyLists.AdjacencyListIterator.Next` | src/adjacencylist.rs:155-177 | the next entry that is not a hole |
| `AdjacencyLists.IterationIsExact` | src/adjacencylist.rs:155-177 | the entries that are not holes are exactly the pairs pushed |
| `ByteStrings.CompareAt` | src/util.rs:20-32 | the order of two strings is decided where they stop agreeing |
| `ByteStrings.LessIsTransitive` | src/util.rs:20-32 | the byte order is transitive |
| `ByteStrings.FindCommonPrefix` | src/util.rs:7-18 | the number of leading bytes shared, and no more |
| `ByteStrings.FindCommonPrefixOrd` | src/util.rs:20-32 | that number together with the lexicographic order |
| `SortedMerge.HeapSortedIterator.Next` | src/util.rs:85-103 | advances the iterator with the least head, the last such one, and no other; the item is a least one of those left if every iterator is sorted |
| `SortedMerge.HeapSortedIterator.Drain` | src/util.rs:64-103 | run to its end it yields all items of all iterators, sorted if each of them is |
| `VariableBytes.EncodeLength` | src/vbyte.rs:26-31 | the code of a 64-bit number has exactly the computed length, at most ten bytes |
| `VariableBytes.EncodeSpells` | src/vbyte.rs:158-167 | the code spells the number in base 128 and marks only its last byte |
| `VariableBytes.EncodedInOneOrTwo` | src/vbyte.rs:158-167 | the codes of one and two bytes, byte for byte, the lowest seven bits first |
| `VariableBytes.EncodeUnchecked` | src/vbyte.rs:158-167 | writes exactly the code at the front of the buffer and leaves the rest alone |
| `VariableBytes.EncodeSlice` | src/vbyte.rs:170-176 | refuses exactly the buffers that are too short |
| `VariableBytes.EncodeVec` | src/vbyte.rs:179-183 | the code in a vector of exactly its length |
| `VariableBytes.EncodeArray` | src/vbyte.rs:186-190 | the code at the front of an array of ten bytes, zeros behind it, and its length |
| `VariableBytes.DecodeBuf` | src/vbyte.rs:98-123 | on arbitrary bytes: a result is the exact value of a terminated prefix and fits 64 bits; each error says exactly what is wrong |
| `VariableBytes.DecodeUndoesEncode` | src/vbyte.rs:93-123 | decoding a code followed by anything gives the number and the code's length |
| `DictBlocks.ControlWordRoundTrip` | src/tfc/block.rs:736-768 | the control word gives back the record size and the number of entries |
| `DictBlocks.ControlWordBits` | src/tfc/block.rs:755-768 | which code in the upper five bits stands for which record size, and one entry less than there are in the lower three |
| `DictBlocks.ControlWordRead` | src/tfc/block.rs:736-753 | what each byte is read as, and that all others panic |
| `DictBlocks.BuildBlockUnchecked` | src/tfc/block.rs:770-817 | appends control word, head, lengths and suffixes, and returns their exact size |
| `DictBlocks.BlockOfTwo` | src/tfc/block.rs:770-817 | a block of two strings part by part: control byte, length and bytes of the head, shared length, suffix length unless the record size gives it, suffix |
| `DictBlocks.ParseHeader` | src/tfc/block.rs:71-102 | parsing a built block's header gives its strings' lengths, with unused slots zero, and stops right before the suffixes |
| `DictBlocks.ParseBlock` | src/tfc/block.rs:486-495 | parsing a built block followed by anything consumes exactly the block |
| `DictBlocks.BlockHead` | src/tfc/block.rs:819-823 | the head alone |
| `DictBlocks.RunningMinima` | src/tfc/block.rs:521-541 | the list of running minima of shared lengths, newest first, up to a zero |
| `DictBlocks.AgreeOnLeast` | src/tfc/block.rs:516-581 | two entries agree on as many bytes as every pair of neighbours between them shares |
| `DictBlocks.SizedDictBlock.Entry` | src/tfc/block.rs:516-581 | entry i is put together from slices to exactly string i, every slice in bounds |
| `DictBlocks.SizedDictBlock.Id` | src/tfc/block.rs:596-630 | the lookup that never builds an entry gives the reference lookup's answer, also in incomplete blocks |
| `DictBlocks.LinearIdIsLookup` | src/tfc/block.rs:596-630 | what that reference lookup answers: the first equal string; or the last one below, all later ones being above; or none, all being above |
| `DictBlocks.TruncateRope` | src/tfc/block.rs:668-685 | cuts a rope to its first bytes without copying: whole chunks while they leave some over, and the start of the next |
| `DictBlocks.SizedBlockIterator.Next` | src/tfc/block.rs:664-694 | the iterator yields the strings in order and then nothing |
| `DictBlocks.NewOptimized` | src/tfc/block.rs:164-256 | joining the chunks or not, the bytes are the same; they are joined exactly if that takes less memory |
| `DictBlocks.StrictSuffix` | src/tfc/block.rs:516-581 | in a strictly sorted block every suffix has a byte, so no entry ends in an empty chunk |
| `RopeOrder.CompareEntries` | src/tfc/block.rs:317-386 | what the chunk walk answers for any two chunk lists, with termination; it panics exactly on an entry without chunks beside one with bytes |
| `RopeOrder.OrderIsOfBytes` | src/tfc/block.rs:317-386 | it is the order of the bytes exactly when these differ, are empty, or the entries end in equally many empty chunks |
| `RopeOrder.WellEndedOrder` | src/tfc/block.rs:317-386 | on entries that do not end in an empty chunk it is the order of the bytes, whatever the chunking |
| `RopeOrder.EmptyChunkMatters` | src/tfc/block.rs:337-352 | an example where it is not: a trailing empty chunk puts an entry above its equal |
| `RopeOrder.EntriesEqual` | src/tfc/block.rs:296-303 | equality of any two entries, with the same exception |
| `SizedDicts.SizedDictBufBuilder.Add` | src/tfc/dict.rs:43-56 | one more string, its id, and after every eighth a block and where it ends |
| `SizedDicts.SizedDictBufBuilder.Finalize` | src/tfc/dict.rs:66-80 | all strings are in the blocks written, all full but the last |
| `SizedDicts.EndsAt` | src/tfc/dict.rs:43-80 | the k-th offset is the size of the blocks up to the k-th |
| `SizedDicts.SizedDict.BlockOffset` | src/tfc/dict.rs:116-125 | a block starts where the ones before it end, relative to the dictionary's own start |
| `SizedDicts.SizedDict.BlockAt` | src/tfc/dict.rs:138-141 | parsing at that offset gives that block |
| `SizedDicts.SizedDict.BlockHeadAt` | src/tfc/dict.rs:143-146 | the first string of a block, without parsing the rest |
| `SizedDicts.SizedDict.BlockNumElements` | src/tfc/dict.rs:148-155 | the number of strings in a block, from its control word; 0 in an empty dictionary |
| `SizedDicts.SizedDict.NumEntries` | src/tfc/dict.rs:243-252 | the number of strings added |
| `SizedDicts.SizedDict.Entry` | src/tfc/dict.rs:165-171 | entry k is the k-th string, none past the last |
| `SizedDicts.SizedDict.FindBlock` | src/tfc/dict.rs:173-205 | the binary search over heads terminates on the one block that can hold the string, or answers at once |
| `SizedDicts.SizedDict.Id` | src/tfc/dict.rs:173-219 | for every strictly sorted list and every string: found, closest or not found, with its id, exactly as a linear search over all strings says |
| `StringDicts.NewBuilder` | src/tfc/typed.rs:406-409 | a builder that has written nothing |
| `StringDicts.AddAll` | src/tfc/typed.rs:427-429 | a whole list of strings with consecutive ids |
| `StringDicts.Finalize` | src/tfc/typed.rs:431-438 | the offsets without the last, of the least width for all, and the data with the number of strings behind it hold exactly the strings added |
| `StringDicts.Parse` | src/tfc/typed.rs:374-380 | parsing these buffers gives the dictionary of the strings added, to which entry and id apply |
| `TypedSegments.RecordSize` | src/tfc/datatypes.rs:73-89 | which datatypes have a fixed size, and which size; the block format knows all of them |
| `TypedDictBuilders.TypedDictBufBuilder.Add` | src/tfc/typed.rs:468-497 | one more typed string, whose id is its place in the whole list |
| `TypedDictBuilders.TypedDictBufBuilder.AddAll` | src/tfc/typed.rs:499-501 | a whole list of typed strings with consecutive ids |
| `TypedDictBuilders.TypedDictBufBuilder.Finalize` | src/tfc/typed.rs:503-522 | the four buffers hold segments whose strings, in order, are what was added, in arrays of the least width, with the number of strings in the last eight bytes of the data; sorted input makes ordered segments |
| `TypedDictBuilders.OrderedSegments` | src/tfc/typed.rs:468-497 | input grouped by increasing datatype and strictly sorted within each makes strictly increasing datatypes and strictly sorted segments |
| `TypedSegments.LastBlocksAt` | src/tfc/typed.rs:468-497 | the type offset of a segment is the number of its last block |
| `TypedDicts.CountAndGaps` | src/tfc/typed.rs:105-117 | entries and unused places of last blocks together fill the blocks |
| `TypedDicts.TallyTypes` | src/tfc/typed.rs:103-117 | the tally loop recovers every segment's last id from the blocks alone |
| `TypedDicts.CountEntries` | src/tfc/typed.rs:119-131 | the number of entries |
| `TypedDicts.FromParts` | src/tfc/typed.rs:84-141 | the dictionary read from built buffers describes exactly the segments built; it panics exactly if the datatypes are out of order |
| `TypedDicts.TypedDict.InnerTypeSegment` | src/tfc/typed.rs:158-204 | the sliced offsets and data of segment i are a dictionary of exactly its blocks |
| `TypedDicts.TypedDict.TypeIndexForId` | src/tfc/typed.rs:229-237 | the segment whose id range holds an id |
| `TypedDicts.TypedDict.TypeForTypeIndex` | src/tfc/typed.rs:239-241 | the datatype of a segment |
| `TypedDicts.TypedDict.Entry` | src/tfc/typed.rs:243-253 | entry k is the k-th typed string added, none past the last |
| `TypedDicts.TypedDict.IdSlice` | src/tfc/typed.rs:215-227 | for a datatype that is present, what a walk over all typed strings says, across segment boundaries; for one that is not, not found |
| `TypedDictBuilders.LinearTypedIsLookup` | src/tfc/typed.rs:215-227 | what that walk answers on sorted input: the string itself; or the last one below, all later ones being above; or none, all being above |
| `TypedDictBuilders.FindsItself` | src/tfc/typed.rs:215-227 | on sorted input, looking the k-th string up finds k |
| `DictReaders.DontReadLastU64Reader.ReadInner` | src/tfc/stream.rs:171-182 | any chunking: some bytes, none only at the end or for an empty request |
| `DictReaders.DontReadLastU64Reader.Read` | src/tfc/stream.rs:150-215 | each non-empty request is served from the input without its last eight bytes, none only when they are used up; an input under eight bytes is an error; an empty request ends the stream for good |
| `DictReaders.Served` | src/tfc/stream.rs:184-215 | what is written out and what is kept are the two ends of old buffer and new bytes together |
| `DictReaders.ReadRun` | src/tfc/stream.rs:150-215 | over any run of non-empty requests, what came out and what is left are the input without its last eight bytes, and enough requests leave nothing |
| `DictStreams.DecodeReader` | src/vbyte.rs:126-149 | decoding off a stream answers as decoding from memory and leaves the rest of the stream |
| `DictStreams.ParseFromReader` | src/tfc/block.rs:497-506 | a block parsed off a stream is the block, and the stream is right behind it |
| `DictIterators.TfcDictIterator.Next` | src/tfc/stream.rs:36-67 | the next string of all, marked when it begins a block; nothing exactly at the end |
| `TypedIterators.TfcTypedDictIterator.Next` | src/tfc/stream.rs:109-127 | the next typed string of all, its datatype told by counting blocks; nothing exactly at the end |
| `TypedIterators.NewIterator` | src/tfc/stream.rs:80-103 | the iterator over built buffers stands before exactly the strings added; it panics exactly if the datatypes are out of order |
| `TypedIterators.TfcTypedDictIterator.Collect` | src/tfc/stream.rs:106-128 | run to its end, it has handed out all typed strings in order, and no other |
| `TypedIterators.StreamEntries` | src/tfc/stream.rs:94-128 | streaming the buffers of a builder gives back exactly the typed strings built, if the datatypes are in order |
| `BigIntegers.SizeEncode` | src/tfc/integer.rs:16-49 | the bytes of a size, last one first, for every 32-bit size |
| `BigIntegers.CodeSpells` | src/tfc/integer.rs:16-79 | a size code is continued up to its last byte and spells the size |
| `BigIntegers.CodeIsShortest` | src/tfc/integer.rs:16-49 | a size code is the shortest of all byte strings that so spell the size, and the only one so short |
| `BigIntegers.SizeCodesInverted` | src/tfc/integer.rs:16-49 | the codes of 128 and 8192, byte for byte |
| `BigIntegers.NumBytesBounds` | src/tfc/integer.rs:81-101 | a magnitude has the least number of bytes with a bit to spare |
| `BigIntegers.StoredInOneByte` | src/tfc/integer.rs:81-101 | integers below 128, negative ones complemented, and negative zero, byte for byte |
| `BigIntegers.StoredInTwoBytes` | src/tfc/integer.rs:81-101 | integers from 128 to 32767, byte for byte |
| `BigIntegers.SizeDecode` | src/tfc/integer.rs:51-79 | sign and size of a well-formed prefix, complemented or not, and of negative zero |
| `BigIntegers.BigintToStorage` | src/tfc/integer.rs:81-101 | built backwards, complemented and turned around: size and magnitude with one spare bit |
| `BigIntegers.StorageToBigint` | src/tfc/integer.rs:103-119 | every storable integer comes back with its sign and whatever followed it |
| `BigIntegers.SizeOrder` | src/tfc/integer.rs:16-49 | size codes sort as the sizes do, up to 8191, and none begins another |
| `BigIntegers.StorageOrder` | src/tfc/integer.rs:81-101 | stored integers of at most 8191 magnitude bytes sort as the numbers do, and none begins another |
| `BigIntegers.OrderBound` | src/tfc/integer.rs:81-101 | the order holds for all integers of up to n bytes if and only if n is at most 8191 |
| `BigIntegers.SizeInversion` | src/tfc/integer.rs:16-49 | the counterexample behind that bound: a number of 8192 bytes that sorts below a smaller one of 128 |
| `Decimals.CentaryRoundTrip` | src/tfc/decimal.rs:65-86 | one or two digits come back from their number below 128 |
| `Decimals.CentaryOrder` | src/tfc/decimal.rs:65-86 | the codes of one or two digits are in the order of the fractions they are, the shorter first |
| `Decimals.CentaryOnto` | src/tfc/decimal.rs:65-86 | the codes are all the numbers from 1 to 110, so that their order fixes them |
| `Decimals.EncodeFraction` | src/tfc/decimal.rs:37-63 | two digits a byte, the low bit saying that more follow; a single zero byte for no fraction |
| `Decimals.FractionSize` | src/tfc/decimal.rs:37-63 | half as many bytes as digits, rounded up; a zero byte for no fraction |
| `Decimals.FractionByte` | src/tfc/decimal.rs:37-63 | each byte is twice the code of its digits, and one more if there are others to come |
| `Decimals.DecodeFraction` | src/tfc/decimal.rs:88-111 | every fraction comes back digit for digit, complemented or not, whatever follows it; its bytes are read off, but the byte that stands for no fraction is left |
| `Decimals.FractionOrder` | src/tfc/decimal.rs:37-63 | a smaller fraction has smaller bytes, for fractions of any two lengths |
| `Decimals.IntegerAndFractionToStorage` | src/tfc/decimal.rs:181-203 | integer part, with a byte of its own for negative zero, and fraction, complemented for negative numbers |
| `Decimals.NumberOrder` | src/tfc/decimal.rs:181-203 | a smaller number has smaller bytes across signs, negative zero and fractions, and neither begins the other |
| `Decimals.BytesOrder` | src/tfc/decimal.rs:181-203 | smaller bytes never mean a greater number, so ties are only between equal numbers |
| `Decimals.SameFractionIsEqual` | src/tfc/decimal.rs:37-63 | fractions are of one value exactly when they are the same up to zeros at the end |
| `Decimals.EqualNumbers` | src/tfc/decimal.rs:181-203 | numbers are equal exactly when they differ only in zeros at the end and in the sign of zero, so these are the only ties that bytes break |
| `DecimalTexts.ScientificValue` | src/tfc/decimal.rs:133-168 | in all three padding cases (point behind, inside and before the digits) the digits stored denote mantissa times power of ten |
| `DecimalTexts.MeaningKept` | src/tfc/decimal.rs:113-179 | plain and scientific numerals, mantissa times power of ten, denote what is stored |
| `DecimalTexts.PlacesKept` | src/tfc/decimal.rs:133-168 | the sign is stored as written and the fraction has exactly the digits left behind the moved point |
| `DecimalTexts.ScientificIsPlain` | src/tfc/decimal.rs:133-168 | a numeral with an exponent is stored with the very bytes of the plain one that has the point moved |
| `DecimalTexts.DecimalToStorage` | src/tfc/decimal.rs:113-168 | stores exactly that number |
| `DecimalTexts.DecimalOrder` | src/tfc/decimal.rs:113-179 | numerals sort by their bytes as the numbers they denote |
| `DecimalTexts.StorageToDecimal` | src/tfc/decimal.rs:170-179 | the numeral printed for a stored number |
| `DecimalTexts.ShownExactly` | src/tfc/decimal.rs:170-179 | the numeral printed: plain, without leading zeros, the stored digits behind the point, a point only if there are any, a sign unless for zero without a fraction |
| `DecimalTexts.ShownStored` | src/tfc/decimal.rs:113-179 | storing what was printed gives the same number, digit for digit, if and only if it is not negative zero without a fraction |
| `DecimalTexts.RoundTrip` | src/tfc/decimal.rs:113-179 | a plain numeral comes back as written if and only if it has no leading zeros, no bare point and is not a signed zero without fraction |
| `DecimalTexts.ShownMeaning` | src/tfc/decimal.rs:170-179 | what is printed always denotes the number stored |
| `DecimalDigits.MovePoint` | src/tfc/decimal.rs:155-168 | moving the point by e places scales by ten to the e |
| `DecimalDigits.ShowIsCanonical` | src/tfc/decimal.rs:170-179 | a numeral is what its number prints as exactly when it has no leading zeros |
| `Datetimes.PartsKeepInstant` | src/tfc/datetime.rs:11-20 | whole seconds and fraction, on either side of the epoch, denote the instant if and only if it is not in a leap second after the epoch; the sign is that of the seconds |
| `Datetimes.DatetimeToStorage` | src/tfc/datetime.rs:22-34 | stores exactly that number; it panics exactly if, before the epoch, the nanoseconds exceed a second |
| `Datetimes.FractionValue` | src/tfc/datetime.rs:22-34 | the three, six or nine digits printed are worth exactly the nanoseconds; within a leap second it is a digit more and they are worth a tenth |
| `Datetimes.FractionLength` | src/tfc/datetime.rs:22-34 | how many digits are printed: none, three, six or nine, whichever is the least that will do |
| `Datetimes.PartsBack` | src/tfc/datetime.rs:11-60 | putting a timestamp together from sign, seconds and fraction undoes taking it apart if and only if it is not in a leap second |
| `Datetimes.StorageToDatetime` | src/tfc/datetime.rs:36-60 | a stored timestamp comes back, to the nanosecond, if and only if it is not in a leap second |
| `Datetimes.OrderCondition` | src/tfc/datetime.rs:11-34 | the stored bytes of a timestamp sort as it does in time, both ways and against every timestamp outside of leap seconds, if and only if it is not in a leap second itself or is the very one before the epoch that is stored as negative zero |
| `Datetimes.LeapMisordered` | src/tfc/datetime.rs:11-34 | the leap seconds that do not, after the epoch: each sorts below the middle of its own second, which is earlier |
| `Datetimes.LeapTies` | src/tfc/datetime.rs:11-34 | the leap seconds that do not, before the epoch: each is stored with the very bytes of the next second, which is later |

## Left out

- File builders and everything under `src/storage`: they repeat the buffer builders over files. The wavelet tree is built with a file builder in the code and with the buffer builder here.
- Reading an array's length and width from a file, and I/O errors other than a stream that ends too early.
- `src/tfc/datatypes.rs` but for the table of record sizes: one-line conversions, and string formatting by other libraries.
- `src/smallbitarray.rs`: one word beside the full index.
- The adapter of entries to the buffer interface (advance, buffer equality), hashing, display and debug output.
- `StringDict` and `TypedDictSegment` as types of their own: they only wrap the dictionary below.
- Matching of numerals against the regular expressions: numerals come split into sign, digits and exponent. An exponent and digits beyond 32-bit lengths are excluded, as the code's conversions overflow there.
- `SortedIterator`, which leaves the choice to its caller's function. The merge is over integers instead of any ordered type.
- Building a tree from a packed array: the same as building it from the numbers read off it.
- Sizes beyond the format: at most 2^56 - 1 elements in a packed array and fewer than 2^64 bytes or bits of data are preconditions of finishing a builder.
- Buffers that no builder made: parsing is stated for what a builder wrote, variable-byte decoding for all bytes.
- Builds without debug assertions and overflow checks: what the code does after the point where a checked build panics.
- DictBlocks.SizedDictBlock.Entry: says which bytes an entry has and how it ends, not into which chunks they are cut; no order or lookup of a well-ended entry depends on that. The same holds of the block iterator.
- Growing arrays and buffers are sequence fields of the builder classes, not shared arrays; the fragments of a wavelet tree, a code's target buffer, a read's target and the bytes of an integer are arrays. Aliasing between an input buffer and its slices is not modelled.
- The offsets and datatypes of an unfinished dictionary, and the two streams of an unfinished adjacency list, are lists of values until the builder is finished, when they are written through the packed-array and bit-array builders.
- The withholding reader's inner stream is its whole content and a position; how many bytes one inner read returns is arbitrary.
- The memory that a chunk takes is that of a 64-bit platform, 32 bytes.
- Numbers of more digits or bytes than a 32-bit size can count are excluded where they are stored.
