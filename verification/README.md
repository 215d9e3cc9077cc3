# Verification of the font loader's inflater, the memory managers and the initrd

This project models four parts of the kernel and proves what they are for:

1. **The DEFLATE decoder of the font library** (`kernel/libk/ssfn.h`). It is a 32-bit bit
   reader, canonical Huffman tables with a 512-entry fast table and a slow path, dynamic
   code lengths, stored, fixed and dynamic blocks, and copies that overlap themselves, into a
   buffer that starts at 8 bytes and grows once.
2. **The physical and virtual memory managers** (`kernel/dev/mem`): a first-fit bitmap
   allocator that keeps its bitmap in the memory it manages, and a builder of four-level
   page tables that takes its tables from that allocator.
3. **The initrd** (`kernel/dev/initrd/initrd.c`): the search for a file in a ustar archive.
4. **The character table of a font** (`kernel/libk/ssfn.h`): the two scans for a glyph record.

Code that changes state in the original is imperative here: the classes `HuffmanTable.Table`,
`Decoder.Decoder`, `Pmm.Manager` and `Vmm.Mapper` have the original's fields and arrays, and
each method is proved against a function that says what it computes. What the original promises
is then proved about those functions for all inputs, all streams and all runs.

## The main results

**Inflating.** `Deflate` defines section 3.2 of RFC 1951 over a sequence of bits. A result is
`Done`, or a reason why there is none. The same definition covers the unbounded output of the RFC
(`Rfc1951`), the same with table values for reserved symbols (`Lenient`), and the decoder's
buffer with its single growth (`Loader`).

- `Decoder.ZlibDecode`: the decoder computes exactly `Loader`. In particular the fast table, the
  slow path and the read-ahead of up to four bytes together find the one symbol whose canonical
  code is a prefix of the stream.
- `Parsing.MeaningIffWritten`: the streams that `Rfc1951` gives a meaning are exactly the coded
  forms of sequences of stored, fixed and dynamic blocks that use nothing reserved, with that meaning.
  `Streams` and `DynamicCodes` define the coded forms independently of any reading.
- `Growth.LoaderMeetsLenient` and `Parsing.LoaderIffWritten`: on every stream the decoder returns 1,
  without touching memory it does not own or has not written, exactly on coded blocks whose output
  fits its buffer. An output fits if it has at most 8 bytes, or if a literal, match or stored block
  begins at offset 8, the output begins with "SFN", and bytes 4 to 7 declare a sufficient size
  (`Growth.Fits`).
- `Parsing.ReservedAcceptedIff`: the decoder accepts a stream that is an error in RFC 1951 exactly if
  it is the coded form of blocks that use a reserved symbol, or code lengths for one, and whose output
  fits when reserved symbols get the values of the decoder's tables. `Parsing.ReservedAccepted` is such
  a stream, and `Parsing.AcceptedHasMeaning` says that there are no others.
- `RfcNumbers`: what the decoder looks up in tables, stated as section 3.2 of RFC 1951 prints it or as a
  formula: lengths and distances, canonical codes with the example of section 3.2.2, the fixed codes,
  the order of the code-length alphabet, and the size that a font declares.
- `PrefixCode` and `HuffmanTable.Table.Build`: the table builder succeeds exactly if the Kraft sum
  of the lengths is at most one, and then the codes are prefix-free and the table describes them.

**Memory.** `Blocks` is the allocator on the value of its bitmap; `PageTables` defines the
architecture's walk and what it means for tables to form a tree.

- `Blocks.RunsAreSafe`, `Blocks.BlocksConserved`, `Pmm.AllocationsAreSafe`: over every run, live
  allocations are disjoint, lie in usable memory, and include neither block 0 nor the bitmap.
- `Pmm.Manager.Setup`: afterwards a block is free exactly if it is not block 0 and lies in a usable
  entry from which the bitmap was cut out. `Pmm.BitmapCovers` says exactly when the bitmap is one byte short, and
  `Pmm.BitmapFallsShort` names an end of memory for which it is.
- `Mapping.MapsOnePage`: mapping changes the translation of one page and of no other, whether it
  makes no table or three, and succeeds exactly if there are blocks for the missing tables.
- `MappingRuns.RunTables`, `MappingRuns.RunSucceeds`, `MappingRuns.RunTranslates`: over every run
  the tables stay a tree, there is one for each distinct path prefix, and each page
  translates as its last request says.
- `MappingRuns.RightsIff`, `MappingRuns.RunRightsIff`: `vmm_map_page` does not always give a page the
  rights it is asked for. It does exactly if the tables that are there before the call grant them;
  over a run, exactly if the first requests that needed the page's tables do. `MappingRuns.RightsLost`
  is a run in which a page asked for with user access has none.
- `Ownership.MixedRuns`, `Boot.RunsAfterBoot`: over every run from boot on that mixes mapping,
  allocating, freeing, and writing to allocated blocks, the tables stay a tree, tables and allocations
  share no block and lie in usable memory outside block 0 and the bitmap, translations change only by
  mapping, and no word of any other memory is written.
- `Windows.SetupTranslates`, `SetupTables.KernelSetupBlocks`: after start-up every page of the three
  windows translates to its offset with the rights of its window, nothing else is mapped, and
  with the kernel's window sizes this takes exactly 5134 blocks.
- `Addresses`: the same in virtual addresses, for every canonical one.

**Initrd and fonts.** `Tar.FindInArchive`: on any archive, written field by field and member by member,
the search finds the data of the first member that is prefix-comparable with the name, and
`Initrd.FindsEntryIff` says exactly when that is a given entry's data: being named as requested does
not suffice (`Initrd.ExactNameNotFound`). The two character-table scans both return `GlyphTable.Lookup`, which `GlyphTable.LookupFindsItem` shows to be
the record of the code point.

## Where the code and its documentation differ

- The `strcmp` of `kernel/dev/initrd/initrd.c` compares only up to the end of the shorter string and
  returns 1 for a match; it is modelled as written.
- The decoder accepts incomplete codes, reserved symbols, and code lengths for the reserved symbols 286
  and 287, as the code does.
- `vmm_map_page` uses both forms of a table's address, physical and higher-half; the model's memory takes
  either (`Vmm.TablePhys`).

## Model

| member | source | states |
|---|---|---|
| BitReverse.BitReverse16Bit | kernel/libk/ssfn.h:476-483 | bit k of the result is bit 15 - k of the argument |
| BitReverse.BitReverse16Correct | kernel/libk/ssfn.h:476-483 | the masks and shifts give the low 16 bits in reverse order, whatever stands above them |
| BitReverse.BitReverse16OfStream | kernel/libk/ssfn.h:575 | on the bit buffer: the next 16 stream bits as a number read most significant first |
| BitReverse.ReverseBitsCorrect | kernel/libk/ssfn.h:485-488 | a code of n bits comes out as its bits in stream order |
| PrefixCode.PrefixUnique | kernel/libk/ssfn.h:490-534 | for any lengths at all, at most one symbol's canonical code is a prefix of a bit string |
| PrefixCode.PrefixFree | kernel/libk/ssfn.h:490-534 | in an accepted code no code's bits start with another's |
| PrefixCode.CodeBitsArePrefix | kernel/libk/ssfn.h:516-532 | the bits of a code, followed by anything, start with that code and so decode to its symbol |
| PrefixCode.CompliesIffKraft | kernel/libk/ssfn.h:500-514 | the lengths pass the builder's tests exactly if their Kraft sum is at most one |
| PrefixCode.SlotInRange | kernel/libk/ssfn.h:519-522 | the slot index stays below the number of symbols |
| PrefixCode.SlotInjective | kernel/libk/ssfn.h:519-522 | no two symbols get the same slot |
| PrefixCode.SlotSurjective | kernel/libk/ssfn.h:519-522 | every slot below the number of codes belongs to a symbol with a shorter length than the bound |
| PrefixCode.FirstBelowIsPrefix | kernel/libk/ssfn.h:576-583 | the shortest length at which the bits drop below the end of its codes names the symbol, and its rank |
| RfcNumbers.CanonicalOrder | kernel/libk/ssfn.h:503-531 | codes of one length count upwards with the symbols, and shorter codes precede longer ones |
| RfcNumbers.ExampleCodes | kernel/libk/ssfn.h:503-531 | the example of section 3.2.2 of RFC 1951: lengths 3, 3, 3, 3, 3, 2, 4, 4 have the codes 010, 011, 100, 101, 110, 00, 1110, 1111 |
| HuffmanTable.Table.constructor | kernel/libk/ssfn.h:466-474 | six separate arrays of the original's sizes |
| HuffmanTable.Table.Build | kernel/libk/ssfn.h:490-534 | succeeds exactly if the lengths comply, and then every array describes the canonical code |
| HuffmanTable.Table.CountLengths | kernel/libk/ssfn.h:495-499 | the number of symbols of each length, none for length 0 |
| HuffmanTable.Table.CheckCounts | kernel/libk/ssfn.h:500-502 | whether no length is used more often than it has bit strings; a failure means that the lengths do not comply |
| HuffmanTable.Table.FirstCodes | kernel/libk/ssfn.h:503-514 | succeeds exactly if the lengths comply; first codes, first slots and bounds of all lengths |
| HuffmanTable.Table.EndSearch | kernel/libk/ssfn.h:515 | the bound that ends the search, with all other bounds as before |
| HuffmanTable.Table.ClearFast | kernel/libk/ssfn.h:496 | a fast table with no symbol in it |
| HuffmanTable.Table.EnterLength | kernel/libk/ssfn.h:505-511 | the entries of one length, without touching the shorter ones |
| HuffmanTable.Table.LengthStep | kernel/libk/ssfn.h:504-514 | neither first code nor first slot loses bits in 16, and the test decides whether the length fits |
| HuffmanTable.Table.FillTables | kernel/libk/ssfn.h:516-532 | after all symbols, the fast table and the slots hold |
| HuffmanTable.Table.EnterSymbol | kernel/libk/ssfn.h:517-530 | one more symbol in its slot and in the fast table |
| HuffmanTable.Table.FillSlot | kernel/libk/ssfn.h:519-522 | the symbol's slot is filled and no earlier symbol's slot is overwritten |
| HuffmanTable.Table.FirstIndex | kernel/libk/ssfn.h:524 | the first fast index is the code's bits in stream order |
| HuffmanTable.Table.Pack | kernel/libk/ssfn.h:520 | length and symbol in one entry, to be taken apart by shift and mask |
| HuffmanTable.Table.EnterShort | kernel/libk/ssfn.h:523-529 | the fast table for one more symbol: it replaces exactly the entries that its code fills |
| HuffmanTable.Table.FillFast | kernel/libk/ssfn.h:525-528 | writes exactly the indices whose low bits are the code, and leaves all others |
| HuffmanTable.PackEntry | kernel/libk/ssfn.h:520-595 | packing by shift and or is undone by shift and mask |
| HuffmanTable.FastHit | kernel/libk/ssfn.h:590-595 | a nonzero fast entry names a symbol of at most 9 bits whose code stands in the low bits of the index |
| HuffmanTable.FastMiss | kernel/libk/ssfn.h:590-597 | a zero fast entry is filled by no symbol |
| HuffmanTable.FillsFastIsPrefix | kernel/libk/ssfn.h:523-529 | an index is filled for a symbol exactly if the stream bits it stands for start with that symbol's code |
| Lookahead.FoundInWindow | kernel/libk/ssfn.h:586-597 | a symbol found among buffered bits, which may reach past the stream, is the stream's next symbol if the stream holds all of it |
| Lookahead.NotInWindow | kernel/libk/ssfn.h:579 | if no code starts the buffered bits, none starts the stream |
| Lookahead.FastHitIsPrefix | kernel/libk/ssfn.h:590-595 | a hit in the fast table is the symbol at the front of the buffer |
| Lookahead.FastMissIsAbove | kernel/libk/ssfn.h:597 | after a miss the buffered bits are above all codes of up to 9 bits, so the search may start at 10 |
| Lookahead.MaxCodeTest | kernel/libk/ssfn.h:575-580 | comparing 16 bits with maxcode compares the bits of that length with the end of its codes |
| Lookahead.SlowSlot | kernel/libk/ssfn.h:580-583 | the index computed from the code is the slot of the symbol at the front |
| Lookahead.AboveAll | kernel/libk/ssfn.h:579 | bits above the end of the longest codes start with no code, so -1 is right |
| Decoder.SlowPath | kernel/libk/ssfn.h:572-584 | the symbol whose code starts the buffered bits and its length; -1 exactly if there is none |
| Decoder.SearchLength | kernel/libk/ssfn.h:576-578 | the first length above 9 whose codes end above the leading bits, or 16 |
| Decoder.DecodedInWindow | kernel/libk/ssfn.h:586-598 | what was found among the buffered bits is what RFC 1951 reads from the stream |
| Decoder.Decoder.Refill | kernel/libk/ssfn.h:589 | at least 16 buffered bits, at the same place in the stream |
| Decoder.Decoder.Leading16 | kernel/libk/ssfn.h:575 | the next 16 bits, most significant first |
| Decoder.Decoder.FastIndex | kernel/libk/ssfn.h:590 | the next 9 bits, least significant first |
| Decoder.Decoder.Unpack | kernel/libk/ssfn.h:592-595 | the code length and the symbol of a fast entry |
| Decoder.Decoder.LookUp | kernel/libk/ssfn.h:590-597 | fast table and slow path together: the one symbol at the front of the buffer, or none |
| Decoder.Decoder.DecodeNext | kernel/libk/ssfn.h:586-598 | the next symbol of RFC 1951 and exactly its bits consumed; -1 exactly if no code is next |
| Decoder.Decoder.constructor | kernel/libk/ssfn.h:763-770 | a decoder at bit 0 with an empty buffer of eight bytes |
| Decoder.Decoder.BufferFits | kernel/libk/ssfn.h:554-560 | the buffered bits fit the 32-bit word, with no bit set above them |
| Decoder.Decoder.FillByte | kernel/libk/ssfn.h:557-558 | eight more buffered bits at the same stream position |
| Decoder.Decoder.FillBits | kernel/libk/ssfn.h:554-560 | between 25 and 32 buffered bits at the same stream position |
| Decoder.Decoder.Consume | kernel/libk/ssfn.h:567-568 | the position moves by n bits and the buffer remains the unread bits |
| Decoder.Decoder.ReceiveBits | kernel/libk/ssfn.h:562-570 | the next n stream bits as a number, least significant first, and the position n bits further |
| Decoder.ShiftBuffer | kernel/libk/ssfn.h:567-568 | shifting the buffer right leaves exactly the bits after the first n |
| Decoder.MaskBuffer | kernel/libk/ssfn.h:566 | masking the buffer gives the first n stream bits |
| Decoder.BufferByte | kernel/libk/ssfn.h:557 | or-ing in a shifted byte appends its eight bits, lowest first |
| Decoder.Decoder.Room | kernel/libk/ssfn.h:631-648 | room for n more bytes exactly as the buffer's rule says, with the bytes written so far kept |
| Decoder.Decoder.StartsWithMagic | kernel/libk/ssfn.h:609 | whether the written ones of the first three bytes are S, F and N |
| Decoder.Decoder.Expand | kernel/libk/ssfn.h:600-617 | fails exactly if the buffer has grown before or lacks the magic number; else as large as bytes 4 to 7 declare, with the same contents |
| Decoder.Decoder.Put | kernel/libk/ssfn.h:632 | one more output byte |
| Decoder.Decoder.CopyMatch | kernel/libk/ssfn.h:649-651 | the copy and the one-byte fill both append the periodic extension |
| Decoder.Decoder.FillMatch | kernel/libk/ssfn.h:650 | the one-byte fill appends the periodic extension with distance one |
| Decoder.Decoder.CopyBack | kernel/libk/ssfn.h:651 | the forward copy appends the periodic extension, also where it reads what it has written |
| Deflate.RepeatIsPeriodic | kernel/libk/ssfn.h:649-651 | the periodic extension keeps all earlier output and repeats with the distance as its period, also when length exceeds distance |
| Growth.RoomIffFits | kernel/libk/ssfn.h:600-617 | making room works exactly if the longer output fits, and then keeps the decoder in step with the unbounded output |
| RfcNumbers.DeclaredSizeInBits | kernel/libk/ssfn.h:609 | the declared size is bytes 4 to 7 as one number, the lowest bit first |
| RfcNumbers.GrowsToDeclared | kernel/libk/ssfn.h:600-617 | eight bytes that begin with 0x53, 0x46, 0x4E and hold n from offset 4 on grow to a buffer of exactly n bytes |
| RfcNumbers.NothingElseGrows | kernel/libk/ssfn.h:609 | without these three bytes, or with a size other than 8, the decoder fails |
| RfcNumbers.FitsInNumbers | kernel/libk/ssfn.h:600-617 | which outputs fit, in the numbers of their bytes |
| Decoder.Decoder.ReceiveExtra | kernel/libk/ssfn.h:638-643 | base plus extra bits of a length or distance, and their end |
| Decoder.Decoder.ReadMatch | kernel/libk/ssfn.h:637-643 | length and distance of a match as RFC 1951 reads them; fails exactly if no distance code is next |
| Decoder.Decoder.WriteMatch | kernel/libk/ssfn.h:644-651 | rejects a distance beyond the output, grows if need be, and appends the match |
| Decoder.Decoder.CopyNext | kernel/libk/ssfn.h:637-651 | a whole match: position, output and outcome |
| Decoder.Decoder.ParseElement | kernel/libk/ssfn.h:628-652 | one literal, match or end of block: position, output and outcome |
| Decoder.Decoder.ParseSymbols | kernel/libk/ssfn.h:624-654 | all symbols up to the end of the block; terminates because every symbol takes a bit |
| Decoder.Decoder.ReceiveCounts | kernel/libk/ssfn.h:664-666 | the three counts with their offsets |
| Decoder.Decoder.ReceiveCodeLengthLengths | kernel/libk/ssfn.h:669-673 | the lengths of the code-length alphabet, each at its place, the others zero |
| Decoder.Decoder.ReceiveRun | kernel/libk/ssfn.h:680-690 | value and size of one run; fails exactly if it repeats a last length that is not there |
| Decoder.Decoder.ReceiveRunLengths | kernel/libk/ssfn.h:676-696 | exactly ntot lengths of at most 15, as section 3.2.7 of RFC 1951 reads them; fails exactly where that is invalid; never writes beyond ntot |
| Decoder.Decoder.ReceiveLengths | kernel/libk/ssfn.h:664-696 | all code lengths of a dynamic block, or failure exactly where RFC 1951 has none |
| Decoder.Decoder.BuildTables | kernel/libk/ssfn.h:697-698 | both tables describe their lists; fails exactly if one does not comply |
| Decoder.Decoder.ParseDynamicHeader | kernel/libk/ssfn.h:656-700 | the two lists of a dynamic block and tables that describe them; fails exactly if the header is invalid |
| Decoder.Fill | kernel/libk/ssfn.h:692 | a run of equal entries after those already there |
| Decoder.Decoder.AlignToByte | kernel/libk/ssfn.h:706-707 | the next byte boundary of the stream |
| Decoder.Decoder.DrainHeader | kernel/libk/ssfn.h:708-713 | at most four header bytes come from the bit buffer, which is then empty |
| Decoder.Decoder.TakeByte | kernel/libk/ssfn.h:710-712 | the next stream byte from the bit buffer |
| Decoder.Decoder.ReceiveHeader | kernel/libk/ssfn.h:708-715 | the four header bytes of the stream, whether buffered or not |
| Decoder.Decoder.Get8 | kernel/libk/ssfn.h:549-552 | the next stream byte from memory |
| Decoder.Decoder.ParseStored | kernel/libk/ssfn.h:702-726 | a stored block: position, output and outcome |
| Decoder.Decoder.CopyStored | kernel/libk/ssfn.h:721-724 | the next len stream bytes appended to the output |
| Decoder.FixedLengths | kernel/libk/ssfn.h:729-738 | the code lengths of section 3.2.6 of RFC 1951 |
| FixedCodes.FixedLitComplies | kernel/libk/ssfn.h:732-735 | the fixed literal code uses up exactly the code space, so its table can be built |
| FixedCodes.FixedDistComplies | kernel/libk/ssfn.h:737 | the fixed distance code complies, so its table can be built |
| RfcNumbers.FixedLitCodes | kernel/libk/ssfn.h:732-735 | the literal codes of section 3.2.6 of RFC 1951: 8 bits from 0x30, 9 from 0x190, 7 from 0, 8 from 0xC0 |
| RfcNumbers.FixedDistCodes | kernel/libk/ssfn.h:737 | the distance codes of section 3.2.6: symbol j is j in five bits |
| Decoder.Decoder.ParseFixed | kernel/libk/ssfn.h:751-757 | a block with the fixed codes: position, output and outcome |
| Decoder.Decoder.ParseDynamic | kernel/libk/ssfn.h:754-757 | a block with its own codes: position, output and outcome |
| Decoder.Decoder.ParseBlock | kernel/libk/ssfn.h:748-758 | a block of any kind; kind 3 fails |
| Decoder.Decoder.ParseStream | kernel/libk/ssfn.h:740-761 | all blocks up to the final one, in any sequence of kinds |
| Decoder.ZlibDecode | kernel/libk/ssfn.h:763-772 | on any stream that does not end early: the output and outcome that the definition gives the stream |
| Growth.FitsEarlier | kernel/libk/ssfn.h:600-617 | an output that fits had fitted at every earlier point |
| Growth.SymbolsFate | kernel/libk/ssfn.h:624-654 | a block of symbols goes the same way in the decoder and in the unbounded definition, strict or with table values for reserved symbols, as long as the output fits; where that has no result the decoder has none |
| Growth.BlockFate | kernel/libk/ssfn.h:748-758 | so does a block of any kind |
| Growth.InflateFate | kernel/libk/ssfn.h:740-761 | so does a stream from any point on |
| Growth.LoaderMeetsLenient | kernel/libk/ssfn.h:763-772 | on every stream the decoder returns 1 exactly if the stream has a meaning with the table values for reserved symbols and the output fits; output and position agree |
| Growth.LoaderMeetsRfc | kernel/libk/ssfn.h:763-772 | on a stream with a meaning in RFC 1951 the decoder returns 1 exactly if the output fits, and then with that output and position |
| Growth.LoaderRejects | kernel/libk/ssfn.h:763-772 | on a stream that RFC 1951 finds invalid or cut off the decoder never returns 1 |
| RoundTrip.DecodeCode | kernel/libk/ssfn.h:586-598 | a code's bits decode to its symbol for any compliant lengths |
| RoundTrip.EveryMatchHasToken | kernel/libk/ssfn.h:619-622 | every length from 3 to 258 and every distance from 1 to 32768 has an unreserved symbol and extra bits, and length 258 has symbol 285 |
| RfcNumbers.MatchInNumbers | kernel/libk/ssfn.h:637-643 | the length and distance of a match that decodes, as closed formulas of its two symbols and the extra bits after them: section 3.2.5 of RFC 1951 without the tables |
| RfcNumbers.TokenInNumbers | kernel/libk/ssfn.h:619-622 | length, distance and bits of a written match by the same formulas |
| RoundTrip.ElementOfToken | kernel/libk/ssfn.h:627-652 | a coded literal or match decodes to itself, unless it is reserved and that is an error |
| RoundTrip.SymbolsOfTokens | kernel/libk/ssfn.h:624-654 | any list of coded tokens decodes to its expansion, for any pair of compliant codes; if one is reserved the strict reading is an error |
| DynamicCodes.RunsRoundTrip | kernel/libk/ssfn.h:676-695 | any list of coded runs decodes to the lengths it stands for, also across the border of the two lists |
| DynamicCodes.AlphabetRoundTrip | kernel/libk/ssfn.h:669-673 | the lengths of the code-length alphabet come back in their order |
| RfcNumbers.AlphabetInNumbers | kernel/libk/ssfn.h:669-673 | the i-th group of three bits is the length of symbol 16, 17, 18, 0, 8, 7, 9, 6 and so on outwards; the others have none |
| DynamicCodes.HeaderRoundTrip | kernel/libk/ssfn.h:656-700 | a coded header decodes to the two lists it was written for, or to an error if it has lengths for reserved symbols and that is one |
| DynamicCodes.EveryPairHasPlan | kernel/libk/ssfn.h:656-700 | any two compliant lists of the sizes the header can count can be written as one |
| Streams.StoredRoundTrip | kernel/libk/ssfn.h:702-726 | coded stored data decode to themselves, from any bit position and with any padding |
| Streams.BlockRoundTrip | kernel/libk/ssfn.h:748-758 | a coded block of any kind decodes to its output; if it uses something reserved the strict reading is an error |
| Streams.InflateRoundTrip | kernel/libk/ssfn.h:740-761 | any sequence of coded blocks decodes to its output from any point of a stream on; if it uses something reserved the strict reading is an error |
| Streams.SameUnderRuleStream | kernel/libk/ssfn.h:740-761 | strictness about reserved symbols changes neither the coded form nor the output |
| Streams.StreamRoundTrip | kernel/libk/ssfn.h:740-761 | the same from the start, under RFC 1951 and with table values, whatever follows the stream |
| Streams.AnyDataCodable | kernel/libk/ssfn.h:740-761 | any bytes have a coded form: one block of fixed literals |
| Streams.DecodeStream | kernel/libk/ssfn.h:763-772 | from memory that starts with coded blocks, reserved symbols included, the decoder returns their output exactly if it fits |
| FixedBlocks.RfcOfFixedBlock | kernel/libk/ssfn.h:751-757 | tokens in one block with the fixed codes decode to their expansion, or to an error exactly if one is reserved |
| FixedBlocks.LiteralsRoundTrip | kernel/libk/ssfn.h:600-632 | bytes coded as fixed literals come back exactly if there are at most eight, or they begin with SFN and declare a sufficient size |
| FixedBlocks.DecodeLiterals | kernel/libk/ssfn.h:763-772 | the same through the decoder |
| RfcNumbers.FontRoundTrip | kernel/libk/ssfn.h:600-632 | a font that declares n bytes, coded as fixed literals, comes back whole exactly if it has no more than n, in a buffer of n bytes |
| Parsing.ParsedSymbol | kernel/libk/ssfn.h:586-598 | the bits a symbol is decoded from are its code |
| Parsing.ParsedElement | kernel/libk/ssfn.h:627-652 | whatever decodes as a literal or match is the coded form of a token with that effect, unreserved if the reading is strict |
| Parsing.ParsedSymbols | kernel/libk/ssfn.h:624-654 | a block that decodes is the coded form of tokens with that output |
| Parsing.ParsedRuns | kernel/libk/ssfn.h:676-695 | code lengths that decode are the coded form of runs |
| Parsing.ParsedHeader | kernel/libk/ssfn.h:656-700 | a header that decodes is the coded form of a plan for the same two lists |
| Parsing.ParsedStored | kernel/libk/ssfn.h:702-726 | a stored block that decodes is padding, length, complement and data |
| Parsing.ParsedStream | kernel/libk/ssfn.h:740-761 | a stream that decodes is the coded form of blocks with that output, which use nothing reserved if the reading is strict |
| Parsing.MeaningIffWritten | kernel/libk/ssfn.h:740-761 | a stream has a given meaning under RFC 1951 exactly if it starts with the coded form of blocks with that meaning that use nothing reserved |
| Parsing.LenientIffWritten | kernel/libk/ssfn.h:740-761 | with table values for reserved symbols a stream has a given meaning exactly if it starts with the coded form of any blocks with that meaning |
| Parsing.SelfDelimiting | kernel/libk/ssfn.h:740-761 | no coded stream starts with another coded stream of a different length or meaning, or of which only one uses something reserved |
| Parsing.LoaderIffWritten | kernel/libk/ssfn.h:763-772 | on every stream the decoder returns 1 exactly on coded blocks, reserved symbols included, whose output fits, and with their output |
| Parsing.ReservedAcceptedIff | kernel/libk/ssfn.h:636-652 | the decoder accepts a stream that is an error in RFC 1951 for a reserved symbol exactly if it is the coded form of blocks that use something reserved and whose output fits |
| Parsing.AcceptedHasMeaning | kernel/libk/ssfn.h:763-772 | what the decoder accepts has the same meaning in RFC 1951 or uses something reserved |
| Parsing.ReservedAccepted | kernel/libk/ssfn.h:636-652 | such a stream: the letter A, then length symbol 286; the decoder returns the letter |
| Memory.AddressRoundTrip | kernel/dev/mem/mem.h:44-49 | the two address forms are inverse to each other on all 64-bit words |
| Memory.HigherHalfIsCanonical | kernel/dev/mem/mem.h:44-46 | a block's address is 0xFFFF800000000000 above its physical one, and canonical: bits 47 to 63 are ones |
| Memory.MaskRoundsDown | kernel/dev/mem/mem.h:37 | rounds down to a multiple of the block size |
| Memory.AlignUpRoundsUp | kernel/dev/mem/mem.h:36 | rounds up to a multiple of the block size unless the sum overflows |
| Memory.TestsBit | kernel/dev/mem/phys_mem_alloc.c:132 | the mask test tells whether the block's bit is set |
| Memory.SetsBit | kernel/dev/mem/phys_mem_alloc.c:138 | sets one bit of the byte and no other |
| Memory.ClearsBit | kernel/dev/mem/phys_mem_alloc.c:147 | clears one bit of the byte and no other |
| Blocks.FirstFitIs | kernel/dev/mem/phys_mem_alloc.c:129-142 | the lowest free run is unique: any start with none before it is the one found |
| Blocks.FreeUndoesAlloc | kernel/dev/mem/phys_mem_alloc.c:129-148 | freeing what was just allocated restores the usage of every counted block |
| Pmm.FreeRestoresBytes | kernel/dev/mem/phys_mem_alloc.c:129-148 | and every byte of the bitmap, bits beyond the last block included |
| Pmm.FreeInBitmap | kernel/dev/mem/phys_mem_alloc.c:131-136 | a free run of counted blocks is a run of clear bits of the whole bitmap |
| Blocks.CountMark | kernel/dev/mem/phys_mem_alloc.c:137-155 | an allocation raises the count of used blocks by its size, and that of any first part by its share |
| Blocks.OneBlock | kernel/dev/mem/phys_mem_alloc.c:129-142 | a single block can be had exactly if not all are in use |
| Blocks.RunsAreSafe | kernel/dev/mem/phys_mem_alloc.c:129-148 | over every run of allocations and frees of live ones: live allocations are disjoint and the bitmap marks exactly them and what was marked at first |
| Blocks.FreshRunsAreSafe | kernel/dev/mem/phys_mem_alloc.c:129-148 | no block of a live allocation was in use at the start or belongs to another |
| Blocks.BlocksConserved | kernel/dev/mem/phys_mem_alloc.c:129-157 | over every run the count of used blocks changes by what was taken less what was given back |
| Pmm.UpdateBit | kernel/dev/mem/phys_mem_alloc.c:132-147 | changing bit i % 8 of byte i / 8 changes block i and no other |
| Pmm.BitmapSizeIs | kernel/dev/mem/phys_mem_alloc.c:52-53 | one byte for eight blocks, rounded up to whole blocks |
| Pmm.BitmapCovers | kernel/dev/mem/phys_mem_alloc.c:52-53 | the bitmap has a bit for every block unless the number of blocks divided by eight is a multiple of 4096 with a remainder |
| Pmm.BitmapFallsShort | kernel/dev/mem/phys_mem_alloc.c:52-53 | with 128 MiB and one block the last block has no bit |
| Pmm.HighestEndInNumbers | kernel/dev/mem/phys_mem_alloc.c:43-51 | no entry of kind 1, 0x1000 or 0x1001 ends above the highest end, and one of them ends there |
| Pmm.UsableInNumbers | kernel/dev/mem/phys_mem_alloc.c:77-83 | a block is usable exactly if an entry of kind 1 covers it |
| Pmm.CarvedFits | kernel/dev/mem/phys_mem_alloc.c:57-72 | cutting out the bitmap leaves every usable entry within the bitmap's range |
| Pmm.AllocatedBlock | kernel/dev/mem/phys_mem_alloc.c:139-145 | the physical form of an allocation's address names its first block to the free function |
| Pmm.BitmapNotUsable | kernel/dev/mem/phys_mem_alloc.c:57-72 | the bitmap's own blocks lie in no usable entry once it is cut out |
| Pmm.FreeIsAvailable | kernel/dev/mem/phys_mem_alloc.c:57-83 | what is free after setup is usable memory of the original map, not block 0, and not the bitmap's |
| Pmm.AvailableInNumbers | kernel/dev/mem/phys_mem_alloc.c:57-83 | all bytes of a block that may be handed out lie in an entry of kind 1 and none in the bitmap |
| Pmm.AllocationsAreSafe | kernel/dev/mem/phys_mem_alloc.c:57-148 | over every run after setup: allocated blocks are usable memory of the original map, not block 0, not the bitmap's, and not shared |
| Pmm.Manager.IsUsed | kernel/dev/mem/phys_mem_alloc.c:132 | whether the block is in use |
| Pmm.Manager.SetBlock | kernel/dev/mem/phys_mem_alloc.c:138 | that block in use, all other bits as before |
| Pmm.Manager.ClearBlock | kernel/dev/mem/phys_mem_alloc.c:147 | that block free, all other bits as before |
| Pmm.Manager.Alloc | kernel/dev/mem/phys_mem_alloc.c:129-142 | the higher-half address of the lowest run of free blocks, whose bits alone change; none, and no change, exactly if there is none |
| Pmm.Manager.SetBlocks | kernel/dev/mem/phys_mem_alloc.c:137-138 | those blocks in use, all other bits as before |
| Pmm.Manager.Free | kernel/dev/mem/phys_mem_alloc.c:144-148 | the blocks from a physical address on free, all other bits as before |
| Pmm.Manager.LogUsage | kernel/dev/mem/phys_mem_alloc.c:150-157 | the number of blocks in use |
| Pmm.Manager.FindEnd | kernel/dev/mem/phys_mem_alloc.c:43-51 | the highest end of a usable, reclaimable or kernel entry (kinds 1, 0x1000, 0x1001); 0 if there is none |
| Pmm.Manager.HostBitmap | kernel/dev/mem/phys_mem_alloc.c:57-72 | the bitmap is cut out of the first entry of kind 1 that can hold it, and nothing else of the map changes; failure exactly if there is none |
| Pmm.Manager.MarkAllUsed | kernel/dev/mem/phys_mem_alloc.c:76 | every block in use |
| Pmm.Manager.FreeUsable | kernel/dev/mem/phys_mem_alloc.c:77-83 | a block is free exactly if it lies in a usable entry |
| Pmm.Manager.Setup | kernel/dev/mem/phys_mem_alloc.c:42-127 | higherBase is the highest end of an entry of kind 1, 0x1000 or 0x1001; succeeds exactly if some entry of kind 1 can host the bitmap; then a block is free exactly if it is not block 0 and in an entry of kind 1 without the bitmap |
| PageTables.WalkIsTranslate | kernel/dev/mem/vmm.c:83-109 | on tables that form a tree the walk of section 4.5 of the Intel SDM, volume 3A, is the translation through the tree |
| PageTables.WithTableKeepsTree | kernel/dev/mem/vmm.c:88-107 | linking a zeroed free block as a table keeps the tree: no table is shared, none is a free block |
| PageTables.WithTableKeepsTranslations | kernel/dev/mem/vmm.c:71-107 | a fresh table adds no translation and changes none |
| PageTables.WithLeafKeepsTree | kernel/dev/mem/vmm.c:109 | writing a leaf keeps the tree |
| PageTables.WithLeafTranslations | kernel/dev/mem/vmm.c:109 | writing a leaf changes the translation of no other page |
| PageTables.PrefixPresent | kernel/dev/mem/vmm.c:88-107 | above every table there are all the tables that lead to it |
| Mapping.LookAtLeaf | kernel/dev/mem/vmm.c:83-109 | a page whose tables exist translates to its leaf with the rights that all four levels grant |
| Mapping.EnsureExtends | kernel/dev/mem/vmm.c:88-107 | making sure of a table fails exactly if it is missing and no block is free, and else changes no link and no translation |
| Mapping.EnsureAllExtends | kernel/dev/mem/vmm.c:88-107 | all three tables can be had exactly if there are blocks for the missing ones |
| Mapping.LeafWord | kernel/dev/mem/vmm.c:109 | the leaf is a 64-bit word with the present bit and the rights of the flags |
| Mapping.MapSucceeds | kernel/dev/mem/vmm.c:77-113 | a call succeeds exactly if there are free blocks for the missing tables |
| Mapping.MapLooks | kernel/dev/mem/vmm.c:77-113 | after it the page has the leaf asked for and every other page translates as before |
| Mapping.MapsOnePage | kernel/dev/mem/vmm.c:77-113 | succeeds exactly if there are blocks for the missing tables; then the page translates to the frame and flags, every other page as before, and the tables are a tree |
| Mapping.MapsTables | kernel/dev/mem/vmm.c:77-113 | takes one block for each new table, three at most, none if all are there; old links stay, new ones have the flags |
| MappingRuns.NewRootIsTree | kernel/dev/mem/vmm.c:71-75 | an empty top-level table is a tree that maps nothing and takes one block |
| MappingRuns.RunTables | kernel/dev/mem/vmm.c:77-113 | over every run: a tree, one table for each path prefix asked for, one block for each table |
| MappingRuns.RunSucceeds | kernel/dev/mem/vmm.c:77-113 | a run succeeds exactly if there are free blocks for all tables it needs beyond those there |
| MappingRuns.BlocksOfRun | kernel/dev/mem/vmm.c:71-113 | from fresh tables: one block plus one for each distinct prefix of the pages mapped, and success exactly if there are so many |
| MappingRuns.RunTranslates | kernel/dev/mem/vmm.c:77-113 | over every run each page translates as its last request says, and pages not asked for as before |
| MappingRuns.MapRights | kernel/dev/mem/vmm.c:77-113 | the rights a call gives its page, from its flags and the state before the call |
| MappingRuns.MakerIsFirst | kernel/dev/mem/vmm.c:88-107 | the maker of a table is the first request that needs it |
| MappingRuns.RunMakers | kernel/dev/mem/vmm.c:88-107 | over every run old tables keep their links and every new one has the flags of its maker |
| MappingRuns.RunRights | kernel/dev/mem/vmm.c:77-113 | over every run a page has the rights of its last request as far as three masks allow: the flags of the first request that needed each of its tables, or the links that were there |
| MappingRuns.RightsIff | kernel/dev/mem/vmm.c:88-107 | a call gives its page the rights it asks for exactly if, before the call, every table that is there on the way to the page grants them |
| MappingRuns.RunRightsIff | kernel/dev/mem/vmm.c:77-113 | over every run from fresh tables a page has the rights of its last request exactly if the first requests that needed its three tables grant them |
| MappingRuns.RunRightsBySlot | kernel/dev/mem/vmm.c:77-113 | so it has if requests in one top-level slot agree in flags |
| MappingRuns.RightsLost | kernel/dev/mem/vmm.c:77-113 | after a kernel page, another page of the same tables asked for with user access has none |
| MappingRuns.RemapKeepsLinks | kernel/dev/mem/vmm.c:77-113 | remapping takes no block and never widens what the old links grant |
| Ownership.MapPageAdds | kernel/dev/mem/vmm.c:71-113 | a call takes only free blocks, marks exactly these, and writes to no RAM but tables |
| Ownership.FreshAdds | kernel/dev/mem/vmm.c:71-113 | so does every run in fresh tables, the top-level one included |
| Ownership.ActKeeps | kernel/dev/mem/phys_mem_alloc.c:129-148 | allocating, freeing, mapping, and writing to allocated blocks each keep every block with one owner |
| Ownership.ActLooks | kernel/dev/mem/vmm.c:77-113 | and none but mapping a page changes what it translates to |
| Ownership.MixedRuns | kernel/dev/mem/phys_mem_alloc.c:129-148 | over every run that mixes these: the tables are a tree, no live allocation covers a table, and pages translate as the last request to map them says |
| Ownership.RunSpares | kernel/dev/mem/phys_mem_alloc.c:129-148 | over every such run, RAM in blocks that were in use at the start is never written |
| Ownership.FreshOwned | kernel/dev/mem/vmm.c:71-113 | tables made from fresh ones start such a run |
| Windows.IndexOf | kernel/dev/mem/vmm.c:78-81 | shifts by 39, 30, 21 and 12 with a 9-bit mask give the four indices of the page |
| Windows.PathsDiffer | kernel/dev/mem/vmm.c:78-81 | two pages have the same indices exactly if their numbers agree in the 36 translated bits |
| Windows.TargetIsIntended | kernel/dev/mem/vmm.c:52-62 | the last request for a page is what the windows intend, and there is none exactly if they intend nothing |
| Windows.SetupBySlot | kernel/dev/mem/vmm.c:52-62 | the three windows use separate top-level slots, each with one set of flags |
| Windows.SetupSteps | kernel/dev/mem/vmm.c:52-62 | the three loops one after the other carry out all requests, or fail if one does |
| Windows.SetupTranslates | kernel/dev/mem/vmm.c:47-62 | every page of a window translates to its offset with exactly the window's rights, and no other page is mapped |
| Addresses.IdentityWindow | kernel/dev/mem/vmm.c:56-58 | virtual addresses below 2^47: the identity with user access inside the window, nothing above it |
| Addresses.HigherHalfWindow | kernel/dev/mem/vmm.c:52-54 | addresses from 0xFFFF800000000000 on: physical memory inside the window, nothing above it up to the kernel window |
| Addresses.KernelWindow | kernel/dev/mem/vmm.c:60-62 | addresses from 0xFFFFFFFF80000000 on: physical memory inside the window, nothing above it |
| Addresses.BlockIsMapped | kernel/dev/mem/vmm.c:52-54 | the address under which the allocator hands out a block of the window leads to that block |
| SetupTables.NewPrefix | kernel/dev/mem/vmm.c:88-107 | a further page of a range needs a new table at a level exactly if it is the first of its group of pages |
| SetupTables.RangeTables | kernel/dev/mem/vmm.c:52-62 | a range of pages needs one table for each aligned group of 512, 512^2 and 512^3 pages it touches |
| SetupTables.WindowTables | kernel/dev/mem/vmm.c:52-62 | the three windows share no table, so their tables add up |
| SetupTables.KernelSetupBlocks | kernel/dev/mem/vmm.c:47-62 | with 4, 4 and 2 GiB the start-up mapping needs and takes exactly 5134 blocks |
| Vmm.TestsPresent | kernel/dev/mem/vmm.c:88 | the test of bit 0 tells whether the entry is present |
| Vmm.MaskTakesTable | kernel/dev/mem/vmm.c:89 | the mask takes the table's address from an entry that points to it |
| Vmm.OrFlags | kernel/dev/mem/vmm.c:92 | or-ing flags into a page-aligned address adds them |
| Vmm.PhysOfBlock | kernel/dev/mem/vmm.c:73-91 | a block's physical and higher-half address lead to the same table |
| Vmm.Mapper.CreatePageDirectory | kernel/dev/mem/vmm.c:71-75 | the lowest free block, zeroed; all other memory as before; none exactly if no block is free |
| Vmm.Mapper.ReadEntry | kernel/dev/mem/vmm.c:88 | the entry at an index of a table, by either form of its address |
| Vmm.Mapper.EnsureTable | kernel/dev/mem/vmm.c:88-93 | the table an entry leads to, made and linked if there is none: memory, bitmap and tables as specified |
| Vmm.Mapper.MakeTable | kernel/dev/mem/vmm.c:91-92 | a new zeroed table from the lowest free block, linked with the flags: memory, bitmap and tables as specified |
| Vmm.Mapper.Indices | kernel/dev/mem/vmm.c:78-81 | the four indices of the page |
| Vmm.Mapper.EnsureTables | kernel/dev/mem/vmm.c:88-107 | the three tables on the way to a page |
| Vmm.Mapper.WriteLeaf | kernel/dev/mem/vmm.c:109 | one entry of the last table, nothing else |
| Vmm.Mapper.MapPage | kernel/dev/mem/vmm.c:77-113 | memory, bitmap and tables after mapping the page as specified, or failure exactly if blocks run out |
| Vmm.Mapper.MapRange | kernel/dev/mem/vmm.c:52-62 | all pages of a range mapped, or failure exactly if blocks run out |
| Vmm.Mapper.Setup | kernel/dev/mem/vmm.c:47-69 | fresh tables with the three windows, or failure exactly if blocks run out |
| Boot.Boot | kernel/boot/boot.c:102-106 | both setups one after the other: the three windows, with every table in usable memory and none in block 0 or the bitmap |
| Boot.OwnedIsAvailable | kernel/dev/mem/phys_mem_alloc.c:57-148 | whatever tables or allocations own after setup is usable memory, not block 0, and not the bitmap's |
| Boot.RunsAfterBoot | kernel/boot/boot.c:102-106 | over every mixed run after boot that stays so, and no word of any other memory is changed |
| Initrd.StrCmp | kernel/dev/initrd/initrd.c:41-53 | true exactly if one string is a prefix of the other |
| Initrd.Oct2Bin | kernel/dev/initrd/initrd.c:55-66 | the octal value of the bytes |
| Initrd.OctalRoundTrip | kernel/dev/initrd/initrd.c:55-66 | reading a printed size gives the size back |
| Initrd.OctalNeverOverflows | kernel/dev/initrd/initrd.c:59-64 | while a printed size is read no intermediate value exceeds it, so an int that holds the size holds them all |
| Initrd.HeaderReads | kernel/dev/initrd/initrd.c:90-92 | a header passes the magic test and gives its size |
| Initrd.HasMagic | kernel/dev/initrd/initrd.c:90 | a header passes the test of the loop |
| Initrd.ReadSize | kernel/dev/initrd/initrd.c:92 | the size printed in a header |
| Initrd.FindFile | kernel/dev/initrd/initrd.c:85-112 | the data of the first entry comparable with the name, or for a directory what comes one header further |
| Tar.SizeFieldIsDigits | kernel/dev/initrd/initrd.c:59-64 | the characters '0' to '7' of a size field are the digits that are read back |
| Tar.HeaderInArchive | kernel/dev/initrd/initrd.c:89-97 | a header written field by field stands where the search reads: name, size, typeflag, magic number |
| Tar.MemberInMemory | kernel/dev/initrd/initrd.c:106-110 | header and data of a member stand right after the padded members before it |
| Tar.ArchiveIsArchive | kernel/dev/initrd/initrd.c:90-110 | an archive written member by member is one that the search walks |
| Tar.FoundInArchive | kernel/dev/initrd/initrd.c:97-107 | 512 bytes after the header, or for typeflag '5' 1024 bytes after |
| Tar.FindInArchive | kernel/dev/initrd/initrd.c:85-112 | on any written archive the search finds the data of the first member comparable with the name, or for a directory what stands one header further |
| Initrd.HeadersApart | kernel/dev/initrd/initrd.c:109 | headers are at least a block apart, and exactly one block exactly after an empty entry |
| Initrd.FindsEntryIff | kernel/dev/initrd/initrd.c:85-112 | exactly when the search returns the data of a given entry |
| Initrd.ExactNameNotFound | kernel/dev/initrd/initrd.c:85-112 | in an archive of the empty files a and ab, the search for ab returns the data of a |
| GlyphTable.LookupFindsItem | kernel/libk/ssfn.h:386-395 | a record is found exactly if the code point's item is a glyph, and it is that glyph's record |
| GlyphTable.SkipsInNumbers | kernel/libk/ssfn.h:387-389 | the byte 0xFF skips 65536 code points, two bytes from 0xC0 on up to 16128, a byte from 0x80 on up to 64 |
| GlyphTable.RecordInNumbers | kernel/libk/ssfn.h:390-393 | a record has six bytes and five or six for each fragment, and stands for one code point |
| GlyphTable.NoneBeyond | kernel/libk/ssfn.h:386 | no record beyond code point 0x10FFFF |
| GlyphTable.FirstByte | kernel/libk/ssfn.h:387-394 | the masks tell the four kinds of items apart and give counts and fragment sizes |
| GlyphTable.LongCount | kernel/libk/ssfn.h:388 | the 14-bit count of a two-byte skip |
| GlyphTable.NextItem | kernel/libk/ssfn.h:387-394 | how many bytes and code points the next item takes |
| GlyphTable.FindRecord | kernel/libk/ssfn.h:386-395 | the address of the code point's record, none exactly if it has none |
| GlyphTable.FindConsoleRecord | kernel/libk/ssfn.h:1487-1492 | the same, by the console's scan |

Functions without a row define what the rows speak about: bit operators on unbounded naturals in
`Bits`, RFC 1951 in `Deflate`, coded forms in `RoundTrip`, `DynamicCodes` and `Streams`, runs in
`Blocks` and `MappingRuns`, the walk in `PageTables`, addresses in `Memory` and `Windows`.

## Left out

- Decoder.ZlibDecode: the stream must not end early, and four more bytes must follow it in memory, because the original has no end-of-input test and reads ahead; on a longer code the stream must hold 15 bits for a missing code to be reported.
- Decoder.Decoder.Room: where the original would write past its buffer, or test bytes it has not written (a growth with fewer than eight bytes of output, or to a declared size that is too small), the model stops with the status Unsafe and says nothing about what follows.
- Decoder.Decoder.CopyMatch: length zero and distance zero, which only reserved symbols produce, are handled by WriteMatch; a copy from distance zero reads unwritten memory and is Unsafe.
- Decoder.Decoder.ParseFixed: the original's tests of the two table builds cannot fail for the fixed codes, so there is no branch for them.
- Decoder.Decoder.ReceiveCodeLengthLengths: the 19 code-length lengths are a sequence, not a byte array on the stack; likewise the two halves of the combined length array are passed on as sequences.
- Decoder.Decoder.Expand: a failed `realloc` (a null pointer) and the freeing of the old buffer are not modelled; a declared size of zero is a buffer too small.
- Deflate.DecodeSymbol: within 15 bits of the end of the stream a missing code is reported as a truncated stream, not as an invalid one.
- Pmm.Manager.Alloc: the original has no return statement for the case that no run is free; the model returns None.
- Pmm.Manager.Setup: the memory map must be Manageable, that is, the ends of the entries that count are addresses, there is at least one block, and the bitmap has a bit for each (exactly when, says BitmapCovers). The bitmap is an array of its own at the address bitmapBase instead of part of the RAM array of `Vmm`; that its blocks are never allocated is AllocationsAreSafe, and that RAM at these blocks is never written is Boot.RunsAfterBoot. A map with no host for the bitmap gives false.
- Vmm.Mapper.MapPage: flags must have the present bit, be below 512 and not have bit 7, and the physical address must be page-aligned. What memory looks like after a mapping failed for lack of blocks is not described.
- Vmm.Mapper.MapRange: the three loops of the original differ in base, size and flags, and are one method with these as parameters.
- Vmm.Mapper.Setup: at most 2^35 blocks of RAM, so that higher-half addresses of blocks stay apart from physical ones; loading CR3 is not modelled.
- Ownership.MixedRuns: a mapping that finds no block for a table is not part of a run, because the original has no defined result for it.
- Initrd.FindFile: the name must match some entry, since the original has no defined result otherwise; sizes that overflow an int once padded are excluded.
- Tar.FindInArchive: names that fill all 100 bytes of their field, which the search reads on into the next, are left to Initrd.FindFile.
- Initrd.Oct2Bin: an unbounded integer instead of an int; OctalNeverOverflows shows that reading a printed size stays below it.
- GlyphTable.FindRecord: the table must cover all code points; decoding UTF-8 before the scan is not modelled.
- The gzip wrapper and file header of `ssfn_load`.
- Rasterising, blending, kerning and drawing of glyphs, the framebuffer and the console.
- `invlpg`, CR3, the TLB, and all inline assembly.
- Logging, including the listing of the memory map at the end of `pmm_setup`.
- `initrd_init`, ACPI tables, interrupts, PCI, EHCI, serial ports and descriptor tables.
