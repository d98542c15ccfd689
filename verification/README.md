# Lhasa in Dafny

This project models the hard parts of Lhasa, a decoder for LHA/LZH archives, and proves properties of the
model: the decoders of the compressed formats, the path and header algorithms, and the state machines that
feed them. `dafny verify dfyconfig.toml` checks everything.

## What is modelled

**-lh1-** (`Lh1*.dfy`). The adaptive Huffman tree is a value (`Lh1Tree.Tree`): 627 nodes in order of
frequency, sibling pairs, the leaf index, groups of equal frequency with their leaders, and the free list of
group ids. `Climbing(t, x)` is the invariant of a climb that is about to process node x: the root is already
one ahead of its children and x one behind; `Climbing(t, 0)` is the invariant at rest. `Lh1Groups` and
`Lh1Climb` prove that every step keeps it, `Lh1Rebuild`, `Lh1Labels` and `Lh1Model` that the rebuild
re-establishes it, `Lh1Paths` that codewords stay short, `Lh1Tally` that every run follows a plain count of the
codes, `Lh1Codec` and `Lh1Decoder` that what a specification encoder writes is what is read. `Lh1CodeTree.CodeTree`, `Lh1Offsets.OffsetTable` and
`Lh1Decoder.Decoder` are the decoder's own tables, changed in place, proved to follow the value.

**-lh4- to -lh7-, -lhx- and LHARK's -lk7-** (`LhNew*.dfy`, with the variants as a parameter). Block heads with
their three tables, commands, and whole streams of blocks are read from a list of bits; a compressor's choice of
tables, runs, gaps and spellings is a value (`Tables`, `Run`, `Token`, `Block`), and whatever it writes is read
back. `LhNewOutput` says what a block and its codes mean in numbers. `LhNewDecoder.Decoder` is the decoder with its
trees and ring buffer.

**-pm2-** (`Pm2*.dfy`). Commands, the trees, the schedule of rebuilds in the middle of the output, and whole
streams with any trees at the rebuilds. `Pm2Decoder.Decoder` is the decoder.

**Shared parts.** Canonical Huffman tables (`TreeDecode`, `CanonicalCodes`, `Codings`, `TreeTable`), the class
and extra-bits schemes (`DistanceCodes`), the bit reader (`Bits`, `BitReader`), ring buffers against
unbounded history (`History`), the move-to-front list of PMarc (`PmaHistory`), and CRC-16 (`Crc16`).

**Headers and streams.** Path collapsing (`CollapsePath`), the extended-header chain (`ExtHeaders`,
`FileHeader`), the self-extractor scan and the lead-in buffer (`InputStream`), the basic reader
(`BasicReader`) with archives as they are written (`ArchiveWriter`, `ArchiveListing`), the generic decoder (`LhaDecoder`), the MacBinary passthrough (`MacBinary`, `MacBinaryHeaders`), the decoding and
checking of a file through both (`FileDecoding`), and the archive reader with its directory stack and deferred
links (`LhaReader`, `LhaReaderRuns`, `LhaReaderObject`).

Code that the original changes in place is a class or a method on an array here, proved equal to a function
on values; what is proved about whole runs is proved about those functions.

## Decisions

- Input callbacks return any non-empty part of what was asked for, or nothing at the end of the data
  (`Callback`, `DoRead`). All results hold for every such choice, except where a source that fills its
  reads is asked for by name (`fills`).
- A request to the bit reader is for at most 25 bits: for more, the register of the original cannot take
  another byte (lib/bit_stream_reader.c:76).
- The loop that doubles the progress block size (lib/lha_decoder.c:188) does not end when the size it leads to
  exceeds 32 bits: the size then becomes zero. The codecs' block sizes are powers of two, and for these
  `LhaDecoder.ScalingEnds` proves that it ends exactly otherwise; `Monitor` is for streams where it ends.
- The progress monitor's documented limit of 128 K blocks (lib/lha_decoder.c:178-186) is not always met by the
  code: `LhaDecoder.BlockGoalCanBeMissed` gives a length for which it is missed by one, and
  `LhaDecoder.BlockGoalIsMet` proves that it is missed exactly if the number of whole 128 KiB in the stream is
  the codec's block size doubled some number of times and there are bytes left over. The code is modelled as it is.
- The comment on the copy table of -pm2- gives 256 as the end of the class that starts at 129
  (lib/pm2_decoder.c:130); the code's range includes 256, so that this count has two spellings
  (`Pm2Model.CountForms`). LHARK's longest count has two as well (`DistanceCodes.LharkCountForms`).
- The self-extractor scan tests its limit only between fillings of the buffer, so a header that begins in the
  first few bytes beyond 256 KiB may or may not be found, depending on how the source cuts up its data.
  `InputStream.Stream.SkipSfx` states what holds in every case: a header that begins below the limit is always found.
- A name and the ".." behind it cancel anywhere in a path but at its very start before a '/', where taking them away
  would make the path absolute; `CollapsePath.ParentCancelsName` states both directions.
- An unterminated ".." at the end of a path survives collapsing (`CollapsePath.UnterminatedParentSurvives`), and
  nothing else does: `CollapsePath.CollapseRemovesParents` proves that the result is free of ".." exactly if the
  path does not end in an unterminated one. Paths of directories usually end in '/', for which
  `CollapsePath.TerminatedIsParentFree` holds, but they need not: the path block's decoder only
  sees to it that the last byte is 0xff (lib/ext_header.c:166-205), so that with a NUL byte inside, as in `a`, 0xff,
  `.`, `.`, 0x00, 0xff, the string that is collapsed is "a/..".
- A -pm2- tree may announce up to 31 codes, of which the format knows 29, or be a single code of none at all.
  Such trees are modelled; reading a code beyond the 29 gives `Pm2Model.Command.Beyond`, of which nothing is
  claimed, because the original then looks behind the end of its table of counts.
- Distances of -lh4- to -lk7- streams beyond the ring buffer are taken modulo its size, which divides 2^32, as the
  original's 32-bit index does. A class with more than 25 extra bits, which the larger offset tables can
  hold, is more than the bit reader can serve at once; reading one is `LhNewCommands.Turn.Stuck`, of which nothing
  is claimed. `LhNewCommands.FormatsFit` proves that no class of a distance within the ring is like that.
- A header is extracted at most once, and the directory policy does not change during a run. Extraction
  succeeds or fails as the operating system decides (`made`).
- Whether the contents of a header are acceptable (checksums, names, the CRC over the header) is an arbitrary
  function of the header in `BasicReader`; the bytes a header takes, its extended headers and its
  compressed length are modelled in full.
- An extended header of type 0x42 replaces the compressed length after the level 1 chain has been accounted for,
  as in the original.

## Model

| member | source | states |
|---|---|---|
| `BitReader.BitStreamReader.PeekBits` | lib/bit_stream_reader.c:59-97 | for up to 25 bits and any chunking, peeking yields the value of the next n bits of the stream without moving, and fails exactly when fewer remain |
| `BitReader.BitStreamReader.ReadBits` | lib/bit_stream_reader.c:102-115 | returns and removes the next n bits, most significant first; fails exactly when fewer remain, and then no bit is lost |
| `BitReader.BitStreamReader.Refill` | lib/bit_stream_reader.c:66-93 | a round of the refill loop leaves the list of bits to come unchanged and makes progress unless the input is at its end |
| `History.RingBuffer.OutputByte` | lib/lh1_decoder.c:658-666 | storing a byte in the ring keeps every slot equal to the byte that far back in spaces followed by all output |
| `History.RingBuffer.CopyFromHistory` | lib/lh_new_decoder.c:521-540 | every byte copied is the byte offset + 1 back in the unbounded output at its time, also when the copy overlaps itself or spans the whole ring; an offset beyond the ring counts modulo its size, through the wrap-around of the 32-bit index |
| `History.CopyIsPeriodic` | lib/lh1_decoder.c:700-711 | a copy repeats what is offset + 1 back throughout, its own output included |
| `History.CopyRepeats` | lib/lh1_decoder.c:700-711 | a copy adds exactly its count of bytes, each equal to the one its period before it, spaces preceding everything |
| `Lh1Model.InitialTreeOk` | lib/lh1_decoder.c:180-246 | the initial tree satisfies the whole invariant with every code counted once |
| `Lh1Model.HeapIsUnique` | lib/lh1_decoder.c:198-245 | the frequencies of the initial tree are fixed by its heap layout alone |
| `Lh1CodeTree.CodeTree.constructor` | lib/lh1_decoder.c:147-246 | filling the tables in place produces that initial tree, groups numbered from the right |
| `Lh1Climb.MakeLeaderKeepsClimbing` | lib/lh1_decoder.c:342-387 | exchanging a node with its group's leader keeps shape, order, sums and groups, with the lag moved to the leader's position |
| `Lh1CodeTree.CodeTree.MakeGroupLeader` | lib/lh1_decoder.c:342-387 | the in-place exchange and re-linking of children and leaf index is that swap |
| `Lh1Groups.BumpKeepsGrouped` | lib/lh1_decoder.c:392-431 | after one more hit two nodes share a group exactly if they share a frequency, leaders are leftmost, and ids in use and free partition all ids |
| `Lh1Groups.SharedGroupLeavesRoom` | lib/lh1_decoder.c:147-155 | whenever the code allocates a group id, one is free |
| `Lh1Groups.UsedCount` | lib/lh1_decoder.c:147-165 | exactly as many ids are in use as the counter says |
| `Lh1CodeTree.CodeTree.IncrementNodeFreq` | lib/lh1_decoder.c:392-431 | the in-place update of frequency, group and leader is that bump, all four branches |
| `Lh1Climb.StepKeepsClimbing` | lib/lh1_decoder.c:569-582 | one turn of the climb keeps the weakened invariant for the parent, which lies further left |
| `Lh1Climb.ClimbFreq` | lib/lh1_decoder.c:552-583 | a whole climb counts one hit for the code it started from and none for any other |
| `Lh1Climb.CountRootStartsClimb` | lib/lh1_decoder.c:559-565 | counting the root first turns the invariant at rest into the invariant of a climb from the code's leaf |
| `Lh1Rebuild.GatherGivesAllLeaves` | lib/lh1_decoder.c:446-463 | collecting the leaves to the front finds every code exactly once, halved and in order |
| `Lh1Rebuild.RoundKeeps` | lib/lh1_decoder.c:474-521 | a round of the merge never lacks a leaf or a slot, keeps the order and places each branch right after the leaves it must follow |
| `Lh1Rebuild.MergeAllKeeps` | lib/lh1_decoder.c:465-521 | the whole merge yields all branches as sums of adjacent pairs and all leaves where the index says |
| `Lh1Model.RebuildKeepsTree` | lib/lh1_decoder.c:436-547 | a rebuild re-establishes the whole tree invariant and every code keeps its leaf with frequency (f+1)/2 |
| `Lh1Model.RebuiltRoot` | lib/lh1_decoder.c:436-547 | a rebuild brings the root's frequency down to about half |
| `Lh1CodeTree.CodeTree.ReconstructTree` | lib/lh1_decoder.c:436-547 | the rebuild inside the one node table, overwriting nothing it still needs, has exactly the effect of the rebuild on values |
| `Lh1Model.IncrementKeepsTree` | lib/lh1_decoder.c:552-583 | after every decoded code the invariant holds and the root stays within 32768; the counts are those before, halved first exactly if the root had reached 32768, plus one for the code, and otherwise the root grows by one |
| `Lh1CodeTree.CodeTree.IncrementForCode` | lib/lh1_decoder.c:552-583 | the in-place update, with its test for a rebuild, is that function of the tree |
| `Lh1Tally.RunTallies` | lib/lh1_decoder.c:436-583 | over any run of codes the frequencies are those of a plain tally: one more for each code, all halved before that whenever their sum has reached 32768 |
| `Lh1Tally.StreamTallies` | lib/lh1_decoder.c:180-583 | the same for a whole stream, which starts with every code counted once |
| `Lh1Tally.EarlyRunCounts` | lib/lh1_decoder.c:552-583 | for the first 32768 - 314 codes of a stream the count of a code is one more than its occurrences |
| `Lh1Paths.RootCountsAllCodes` | lib/lh1_decoder.c:436-583 | in every tree at rest the root's frequency is the sum of the frequencies of all codes |
| `Lh1Paths.ThreeGenerations` | lib/lh1_decoder.c:552-583 | a node weighs at least as much as its child and grandchild on a path together |
| `Lh1Paths.CodewordsAreShort` | lib/lh1_decoder.c:36 | a tree within the frequency limit has no path longer than 21 |
| `Lh1Codec.ReachableCodewordsAreShort` | lib/lh1_decoder.c:587-620 | after any sequence of codes from the initial tree every codeword has at most 21 bits |
| `Lh1Codec.InitialCodewords` | lib/lh1_decoder.c:180-246 | at the start of a stream the first 116 codes have nine bits and the others eight, with values in ascending order |
| `Lh1Codec.ReadUndoesCodeword` | lib/lh1_decoder.c:587-620 | the path up from a code's leaf, read from the root, leads back to that code and takes nothing beyond |
| `Lh1Codec.ReadTakesCodeword` | lib/lh1_decoder.c:587-620 | conversely, a code that is read was spelled by exactly the bits taken |
| `Lh1Codec.DecodeUndoesEncode` | lib/lh1_decoder.c:552-620 | reading code after code returns the sequence that was encoded, across any number of rebuilds |
| `Lh1Offsets.ReadUndoesEncodeOffset` | lib/lh1_decoder.c:624-656 | every offset below 4096 is read back from its codeword and six plain bits, also at the end of the stream |
| `Lh1Offsets.OffsetBits` | lib/lh1_decoder.c:253-308 | how many bits each offset takes |
| `Lh1Offsets.LookupIsUnique` | lib/lh1_decoder.c:253-308 | the ranges of the lookup table partition the 256 bytes among the 64 codes |
| `Lh1Offsets.OffsetTable.constructor` | lib/lh1_decoder.c:269-308 | the nested loops fill the lookup and length tables with that partition |
| `Lh1Decoder.DecodeAllUndoesEncodeAll` | lib/lh1_decoder.c:587-713 | any sequence of literals and copies, encoded, is decoded to its expansion over unbounded history |
| `Lh1Decoder.CodesOutput` | lib/lh1_decoder.c:668-713 | a code below 256 outputs itself, and any other code c repeats the output with the period read, c - 253 bytes |
| `Lh1Decoder.Decoder.Read` | lib/lh1_decoder.c:668-713 | one call parses one command from the bits, updates the tree for its code and outputs what the command means |
| `TreeDecode.HistoryKeepsReadable` | lib/tree_decode.c:61-203 | after any history of initialising, single-code and building operations, with any lengths and stale entries, every entry is a leaf below the bound or points forward to a pair inside the table |
| `TreeDecode.FollowIsBounded` | lib/tree_decode.c:228-251 | reading from such a table ends, stays inside it, yields a code below the bound and takes only bits of the input |
| `CanonicalCodes.CanonicalCodesAreRead` | lib/tree_decode.c:83-251 | for lengths with Kraft sum 1 that fit, building over any contents allocates exactly 2m-1 entries and symbol i is read from its canonical codeword, as in section 3.2.2 of RFC 1951, taking exactly its length |
| `CanonicalCodes.SlotsSuffice` | lib/tree_decode.c:83-160 | at every length there are at least as many open positions as codes, and at the last none is left over |
| `Codings.AnyWordIsRead` | lib/tree_decode.c:72-203 | the word of a symbol is read as that symbol, for tables of lengths and for a single code alike |
| `TreeTable.TreeBuildData.ExpandQueue` | lib/tree_decode.c:83-107 | the in-place loop turns every waiting entry into a branch with a fresh pair, or does nothing if they do not fit |
| `TreeTable.TreeBuildData.AddCodesWithLength` | lib/tree_decode.c:131-160 | the loop places the codes of one length in order and tells whether longer ones remain |
| `TreeTable.BuildTreeInPlace` | lib/tree_decode.c:166-203 | the level by level construction in the array equals the one on values |
| `TreeTable.ReadFromTree` | lib/tree_decode.c:228-251 | reads the code that the bits spell in the table, or fails exactly when they end before a leaf |
| `DistanceCodes.UniqueForm` | lib/lh_new_decoder.c:442-505 | in the standard and the LHARK scheme, and that of -pm2-, every number has exactly one class and extra bits |
| `DistanceCodes.Contiguous` | lib/lh_new_decoder.c:442-505 | each class begins where the one before it ends |
| `DistanceCodes.ClassBound` | lib/lh_new_decoder.c:464-505 | the classes below n are just those that the numbers below the n-th base need |
| `DistanceCodes.LharkCountForms` | lib/lh_new_decoder.c:543-559 | LHARK copy counts have one spelling each, except that the longest has exactly two |
| `DistanceCodes.LharkCountExists` | lib/lh_new_decoder.c:543-559 | every count from 3 to 514 has a spelling |
| `LhNewTables.LengthIsRead` | lib/lh_new_decoder.c:134-161 | a code length of any size is read back from its three bits and unary extension |
| `LhNewTables.LengthsAreRead` | lib/lh_new_decoder.c:166-231 | a list of lengths is read back, with any gap after the third |
| `LhNewTables.TableIsRead` | lib/lh_new_decoder.c:166-231 | a whole table, or a single code, is read and built over whatever the tree held |
| `LhNewTables.RunIsRead` | lib/lh_new_decoder.c:237-332 | a code length or a run of unused codes, coded with the temporary table, adds just those lengths |
| `LhNewBlocks.RunsAreRead` | lib/lh_new_decoder.c:300-332 | any spelling of the code lengths in runs is read back as those lengths |
| `LhNewBlocks.OffsetsAreRead` | lib/lh_new_decoder.c:346-394 | the offset table is read back as it was written |
| `LhNewBlocks.TablesAreRead` | lib/lh_new_decoder.c:398-431 | the three tables of a block head are read as written, the second by means of the first, over trees left by any earlier block |
| `LhNewCommands.SpellingIsUnique` | lib/lh_new_decoder.c:442-505 | a distance is spelled in exactly one way |
| `LhNewCommands.CopyHasSpelling` | lib/lh_new_decoder.c:442-559 | in -lh5-, -lh6-, -lh7-, -lhx- and -lk7- every copy from within the ring, of every count, has a spelling with codes that the code table and the offset table can hold, outside LHARK with the code that is 253 more than the count |
| `LhNewCommands.FormatsFit` | lib/lh_new_decoder.c:346-394 | in each of these formats the classes of distances within the ring fit the offset table, and their extra bits the bit reader |
| `LhNewCommands.PlainCounts` | lib/lh_new_decoder.c:596-602 | outside LHARK a code stands for a count exactly if it is 253 more |
| `LhNewOutput.TokenOutput` | lib/lh_new_decoder.c:436-602 | a literal adds itself to the output; a copy adds as many bytes as its code and extra bits say, in numbers, and repeats the output from as far back as its class and extra bits say, modulo the ring |
| `LhNewOutput.PlainMatchOutput` | lib/lh_new_decoder.c:596-602 | outside LHARK a copy with code c lengthens the output by exactly c - 253 bytes |
| `LhNewOutput.FormatNumbers` | lib/lh5_decoder.c:30-43 | ring size, bits of a class number and number of codes of each format |
| `LhNewOutput.SingleBlock` | lib/lh_new_decoder.c:166-431 | the bits of a block whose tables have a single code each, field by field |
| `LhNewOutput.LengthBits` | lib/lh_new_decoder.c:134-161 | how many bits a code length takes |
| `LhNewCommands.TokenIsRead` | lib/lh_new_decoder.c:436-602 | a literal or copy coded with a block's tables is read back, taking exactly its bits |
| `LhNewCommands.DecodeUndoesEncode` | lib/lh_new_decoder.c:398-606 | any commands, in any number of blocks with tables of their own, even empty ones, are read back in order, and reading goes on behind them |
| `LhNewCommands.ClassOfRing` | lib/lh_new_decoder.c:464-505 | the classes up to the number of history bits are exactly those whose distances are smaller than the ring |
| `LhNewCommands.ExecuteInRing` | lib/lh_new_decoder.c:521-540 | a copy from within the ring goes back by its distance in the unbounded output |
| `LhNewDecoder.ReadLengthValue` | lib/lh_new_decoder.c:134-161 | the loop reads what the description of a length says, or fails exactly at the end of the stream |
| `LhNewDecoder.ReadTableInto` | lib/lh_new_decoder.c:166-394 | reading the temporary or offset table in place, and leaving it alone on failure |
| `LhNewDecoder.ReadCodeTableInto` | lib/lh_new_decoder.c:274-344 | reading the code table in place, skips and the limit on the number of codes included |
| `LhNewDecoder.ReadOffsetCode` | lib/lh_new_decoder.c:442-505 | both branches of the distance reader compute the distance of class and extra bits, inside the ring or beyond it, or fail exactly at the end of the stream |
| `LhNewDecoder.DecodeCopyCount` | lib/lh_new_decoder.c:543-559 | the method reads the extra bits of a copy code and returns the count they stand for, or fails exactly at the end of the stream |
| `LhNewDecoder.Decoder.StartNewBlock` | lib/lh_new_decoder.c:398-431 | reads a block head from the bits into counter and trees |
| `LhNewDecoder.Decoder.Read` | lib/lh_new_decoder.c:562-606 | one call takes the next command of the stream, through any empty blocks, and outputs what it means over unbounded history, with distances modulo the ring |
| `LhNewDecoder.ReadCommands` | lib/lh_new_decoder.c:562-606 | call after call carries out the commands that the stream yields |
| `LhNewDecoder.DecodeBlocks` | lib/lh_new_decoder.c:98-606 | a new decoder on a stream of any blocks, whatever follows them, outputs the expansion of all their commands in turn |
| `LhNewDecoder.Decoder.constructor` | lib/lh_new_decoder.c:98-129 | a new decoder is ready to read its first block, with readable trees and a ring of spaces |
| `PmaHistory.HistoryLinkedList.constructor` | lib/pma_common.c:67-100 | the four linked ranges represent a permutation of all bytes in the documented order |
| `PmaHistory.InitialOrderIs` | lib/pma_common.c:67-100 | which of two bytes comes first initially, by the five ranges of bytes |
| `PmaHistory.HistoryLinkedList.FindInHistoryList` | lib/pma_common.c:104-128 | the walk returns element `count` of the order, whichever direction it takes |
| `PmaHistory.RehookedIsLinked` | lib/pma_common.c:133-161 | re-hooking a node represents the order with that byte moved to the front, also for the second and the last one |
| `PmaHistory.HistoryLinkedList.UpdateHistoryList` | lib/pma_common.c:133-161 | the update moves the byte to the front and keeps all others in order |
| `PmaHistory.OrderIsRecency` | lib/pma_common.c:133-161 | of two bytes the one output last comes first; bytes never output keep their initial order |
| `PmaHistory.DecodeUndoesEncode` | lib/pma_common.c:104-161 | move-to-front decoding undoes move-to-front encoding |
| `Pm2Model.HistoryForms` | lib/pm2_decoder.c:111-120 | every place in the list has exactly one class and extra bits, the class being that of its range, and the classes reach no further |
| `Pm2Model.CountForms` | lib/pm2_decoder.c:125-132 | which code and extra bits stand for which count, by the ranges of the counts, in both directions; only the longest has two spellings |
| `Pm2Model.DistanceStaysInRing` | lib/pm2_decoder.c:414-465 | the eight offset classes are just those whose distances lie within the ring of 8192 bytes |
| `Pm2Model.ReadCommand` | lib/pm2_decoder.c:379-539 | from any trees that reading can leave behind, any bits give a valid place in the list, a copy within ring and output buffer, or, exactly if the tree spells one, a code the format does not know |
| `Pm2Model.ReadOffsetTree` | lib/pm2_decoder.c:241-291 | whatever lengths are read, the offset tree stays readable with classes below eight |
| `Pm2Model.ReadCodeTree` | lib/pm2_decoder.c:170-236 | whatever is read, for any of the 32 announced numbers of codes, the code tree stays readable inside its table |
| `Pm2Model.OutputKeepsState` | lib/pm2_decoder.c:349-374 | rebuilds come after 1, 2, 4 and 8 KiB of output and then every 4, as a function of the output length alone |
| `Pm2Model.CopyOutIsCopy` | lib/pm2_decoder.c:470-502 | a copy repeats unbounded history even where rebuilds fall into it |
| `Pm2Model.StreamStaysOk` | lib/pm2_decoder.c:296-539 | after any number of commands of any stream the trees are readable, distances lie in the ring and the schedule is kept |
| `Pm2Codec.CodeTreeIsRead` | lib/pm2_decoder.c:170-236 | a code tree is read as written, from lengths relative to a minimum or as a single code |
| `Pm2Codec.OffsetsAreRead` | lib/pm2_decoder.c:241-291 | an offset tree is read as written, with its single-class form, or not at all when none is needed |
| `Pm2Codec.PlanIsRead` | lib/pm2_decoder.c:296-345 | what is written for a rebuild is just what that rebuild reads, at each of the five stages |
| `Pm2Codec.PlanLength` | lib/pm2_decoder.c:170-345 | how many bits each of the five rebuilds takes, and when an offset tree is among them |
| `Pm2Streams.RebuildBits` | lib/pm2_decoder.c:296-374 | the rebuilds come with the bytes that make the output 1, 2 and 4 KiB long and every 4 KiB after, each with its number of bits, and no other byte takes any |
| `Pm2Streams.TokenIsRead` | lib/pm2_decoder.c:379-502 | a command written with the codings of the current trees is read back, taking exactly its bits |
| `Pm2Streams.CopyOutput` | lib/pm2_decoder.c:379-502 | in numbers: a copy told by the code of its count's range and the class of its distance repeats that many bytes from that far back, and the longest one the last byte |
| `Pm2Streams.DecodeUndoesEncode` | lib/pm2_decoder.c:296-539 | any commands, with any trees at the rebuilds, are carried out as written, through all rebuilds in their output |
| `Pm2Streams.StreamIsRead` | lib/pm2_decoder.c:507-539 | the same for a whole stream from its unused first bit and first trees on |
| `Pm2Decoder.Decoder.RebuildTree` | lib/pm2_decoder.c:296-345 | the in-place rebuild reads the trees that are due and sets stage and countdown |
| `Pm2Decoder.Decoder.OutputByte` | lib/pm2_decoder.c:349-374 | ring, list, countdown and rebuild together follow the description of output |
| `Pm2Decoder.Decoder.HistoryGetOffset` | lib/pm2_decoder.c:414-465 | the three cases of a copy's distance |
| `Pm2Decoder.Decoder.CopyFromHistory` | lib/pm2_decoder.c:470-502 | count and distance are read, then every byte is taken from the ring while rebuilds happen |
| `Pm2Decoder.Decoder.Read` | lib/pm2_decoder.c:507-539 | one call builds the first trees if need be, parses one command and carries it out |
| `CollapsePath.CollapseInPlace` | lib/lha_file_header.c:854-922 | the two-pointer loop over a NUL-terminated buffer leaves the collapsed path |
| `CollapsePath.AfterKeepsMeaning` | lib/lha_file_header.c:872-918 | at every character, what is kept, what is being copied and what is still to be read amount to the whole path |
| `CollapsePath.CollapseIsClean` | lib/lha_file_header.c:854-922 | the result's terminated components are the fold of the original ones over a stack, none empty, "." or ".."; the tail and a leading '/' are kept |
| `CollapsePath.CollapseIsIdempotent` | lib/lha_file_header.c:854-922 | collapsing twice is collapsing once |
| `CollapsePath.CollapseShrinks` | lib/lha_file_header.c:854-922 | a path never grows |
| `CollapsePath.JoinedOfSplit` | lib/lha_file_header.c:854-922 | splitting a path into components and tail loses nothing |
| `CollapsePath.UnterminatedParentSurvives` | lib/lha_file_header.c:885-915 | after any name, "/.." at the end is left as it is, while "/../" takes the name away |
| `CollapsePath.ParentCancelsName` | lib/lha_file_header.c:885-915 | taking a name and the ".." behind it out of a path does not change the result, exactly unless they stand at the start before a '/' |
| `CollapsePath.DotIsNothing` | lib/lha_file_header.c:885-915 | the same for a "." component |
| `CollapsePath.CollapseRemovesParents` | lib/lha_file_header.c:854-922 | no component of the result, the tail included, is ".." exactly if the path does not end in an unterminated ".." |
| `CollapsePath.TerminatedIsParentFree` | lib/lha_file_header.c:854-922 | a path that ends in '/' is left without any ".." |
| `ExtHeaders.ReadChainIsWalk` | lib/lha_file_header.c:467-506 | when the level 1 chain has been read, walking it finds the same blocks up to the end of the header, and remaining compressed length plus all block lengths is the stored field |
| `ExtHeaders.ReadChainLosesNothing` | lib/lha_file_header.c:441-506 | header and rest of the stream together are what was there before |
| `ExtHeaders.ReadChainTakesEncoding` | lib/lha_file_header.c:441-506 | every chain that can be laid out is read, and nothing beyond it |
| `ExtHeaders.WalkUndoesEncode` | lib/lha_file_header.c:387-437 | walking a chain finds blocks with just the contents it was made from, for 16-bit and 32-bit lengths, whatever surrounds it |
| `ExtHeaders.EncodeUndoesWalk` | lib/lha_file_header.c:387-437 | conversely, wherever a walk succeeds there lies the chain made from the contents of the blocks it found, up to its zero terminator |
| `ExtHeaders.BlocksAreDisjoint` | lib/lha_file_header.c:387-437 | no two blocks overlap and a whole length field lies between them |
| `ExtHeaders.ClearedKeepsWalk` | lib/ext_header.c:87-108 | zeroing the CRC in place does not change which blocks are found |
| `FileHeader.Header.ExtHeaderForNum` | lib/ext_header.c:442-453 | the table search finds the entry with that number, or there is none |
| `ExtHeaders.KnownTypes` | lib/ext_header.c:110-453 | which types of extended headers are known, with the least data each needs |
| `FileHeader.Header.ExtHeaderDecode` | lib/ext_header.c:455-473 | a block is decoded exactly if its type is known and its data long enough; only a CRC is cleared |
| `FileHeader.Header.CommonDecoder` | lib/ext_header.c:87-108 | the CRC is remembered and its two bytes, and no others, become zero |
| `FileHeader.Header.FileSizeDecoder` | lib/ext_header.c:239-264 | the 64-bit sizes replace both lengths |
| `FileHeader.Header.DecodeExtendedHeaders` | lib/lha_file_header.c:387-437 | decoding while walking meets the blocks of the chain as it was before, succeeds exactly if the chain is well formed, and ends on its terminator |
| `FileHeader.Header.ReadL1ExtendedHeaders` | lib/lha_file_header.c:467-506 | the loop reads exactly the chain described, with all its failures |
| `FileHeader.Header.ExtendRawData` | lib/lha_file_header.c:346-382 | the header grows by exactly the next bytes of the stream, or fails without growing |
| `FileHeader.Header.DecodeLevel1Chain` | lib/lha_file_header.c:700-718 | once read, a level 1 chain is always decoded, all of it, with the lengths accounted for |
| `InputStream.SkipMeansDecoy` | lib/lha_input_stream.c:165-181 | the scan's counter is set exactly when a self-extractor's mark has been seen with no header-like string since |
| `InputStream.ScanBuffer` | lib/lha_input_stream.c:165-181 | scanning the buffer passes over exactly the positions that are not headers to be taken |
| `InputStream.Stream.SkipSfx` | lib/lha_input_stream.c:143-192 | whatever chunks the source returns, the first header to be taken is found if it begins below 256 KiB, none before it is, and no byte from there on is lost |
| `InputStream.Stream.Read` | lib/lha_input_stream.c:194-243 | a successful read yields the next bytes of the archive, the lead-in buffer first |
| `InputStream.Stream.Skip` | lib/lha_input_stream.c:245-251 | skipping with an empty lead-in buffer drops exactly the next bytes |
| `BasicReader.BaseLength` | lib/lha_file_header.c:600-816 | every header that is accepted takes at least as many bytes as the lead-in buffer holds |
| `BasicReader.ReadBase` | lib/lha_file_header.c:600-816 | each level reads exactly the bytes its length field prescribes and leaves the lead-in buffer empty |
| `BasicReader.HeaderRead` | lib/lha_file_header.c:924-1077 | the header at the current place is read in full with its lengths, or refused; `ArchiveWriter.HeaderIsRead` says which lengths these are |
| `BasicReader.Reader.NextFile` | lib/lha_basic_reader.c:69-100 | the next header is the next one of the archive, whatever was read of the file before it |
| `BasicReader.Reader.ReadCompressed` | lib/lha_basic_reader.c:102-129 | yields the next compressed bytes, never beyond the file, and does not affect what follows it |
| `BasicReader.ListAll` | lib/lha_basic_reader.c:69-129 | on a source that fills its reads, reading any amounts in between, the headers are exactly those of the archive behind the self-extractor; `ArchiveListing.ListWritten` says which files these are |
| `ArchiveWriter.HeaderIsRead` | lib/lha_file_header.c:600-1077 | a header of any level, laid out with its lengths at bytes 7 and 11 and its chain, is read back from the front of any stream, and nothing behind it is touched |
| `ArchiveWriter.FileLengths` | lib/ext_header.c:239-264 | the lengths of a file are those written in its header, unless its chain has 64-bit lengths, the last of which count |
| `ArchiveWriter.ArchiveIsListed` | lib/lha_basic_reader.c:69-100 | headers of any levels, each followed by as many bytes as its compressed length says, are listed in full and in order, and the listing goes on behind them |
| `ArchiveListing.WrittenMatches` | lib/lha_input_stream.c:90-122 | the scan takes a written header for one exactly by its method |
| `ArchiveListing.ArchiveIsFound` | lib/lha_input_stream.c:143-192 | a written archive with nothing before it is found at its first byte |
| `ArchiveListing.ListWritten` | lib/lha_basic_reader.c:69-129 | from a stream with any self-extractor in front, whatever the chunks and the amounts read in between, the files listed are those the archive was written from |
| `LhaDecoder.Decoder.Read` | lib/lha_decoder.c:199-275 | returns the next bytes of the codec's output, as many as asked for, left in the stream and available; CRC, position and announced blocks follow |
| `LhaDecoder.Decoder.ReadSequence` | lib/lha_decoder.c:199-275 | for any buffer sizes the concatenated results are the prefix of the codec's output cut at the stream length, with matching CRC and position |
| `LhaDecoder.Decoder.CheckProgressCallback` | lib/lha_decoder.c:152-169 | the announced blocks are 0, 1, 2, ... each once up to the block reached |
| `LhaDecoder.Decoder.Monitor` | lib/lha_decoder.c:171-197 | where the doubling ends, block size and total are those of the stream and every block reached is announced; a second call announces nothing twice |
| `LhaDecoder.ScalingEnds` | lib/lha_decoder.c:187-190 | for a block size that is a power of two, the doubling in 32 bits ends exactly if the size it leads to fits 32 bits |
| `LhaDecoder.BlockGoalIsMet` | lib/lha_decoder.c:178-193 | the doubling gives at most 128 K blocks unless the number of whole 128 KiB is the codec's block size doubled some number of times and bytes are left over; then there are just the blocks of these bytes more |
| `LhaDecoder.BlockGoalCanBeMissed` | lib/lha_decoder.c:178-193 | a stream length for which the doubling stops one block above the documented limit |
| `LhaDecoder.BlockCountIsBounded` | lib/lha_decoder.c:178-193 | how far the limit can be missed at most |
| `MacBinary.PassesStreamOrFork` | lib/macbinary.c:306-426 | the passthrough delivers the inner stream unchanged, or exactly the chosen fork behind the 128-byte header, cut at the inner end |
| `MacBinaryHeaders.WrittenIsRecognised` | lib/macbinary.c:150-304 | a header written from name, fork lengths and time is recognised exactly if the name, the rounded length and the time, within 14 hours, agree with the archive's |
| `MacBinaryHeaders.RoundedLengthIs` | lib/macbinary.c:212-304 | the rounded length is the least multiple of 128 with room for the header and both forks |
| `MacBinaryHeaders.ForkComesOut` | lib/macbinary.c:306-426 | behind a header that agrees the data fork of the written length comes out, or the resource fork if it is empty; behind any other the whole stream |
| `MacBinary.ReadsTakeFront` | lib/macbinary.c:386-426 | any number of reads delivers that content piece by piece from the front |
| `MacBinary.EndRunsInnerToEnd` | lib/macbinary.c:376-426 | when the outer stream has ended the inner decoder has been run to its own end |
| `MacBinary.MacBinaryDecoder.Read` | lib/macbinary.c:386-426 | the method follows the passthrough on values |
| `MacBinary.MacBinaryDecoder.DecodeToEnd` | lib/macbinary.c:376-384 | afterwards the inner decoder has delivered everything |
| `FileDecoding.FrontEnd.Read` | lib/lha_decoder.c:199-275 | the front end over the passthrough hands out what the passthrough returns, in order, with position and CRC, and stops short only at the length or behind an empty chunk |
| `FileDecoding.FrontEnd.EndReached` | lib/macbinary.c:376-426 | where the front end has stopped, it has handed out the whole content and the inner decoder has been run to its own end |
| `FileDecoding.DecodeOuter` | lib/lha_reader.c:379-396 | reading the front end until nothing comes yields the whole content |
| `FileDecoding.DecodeFile` | lib/lha_reader.c:135-404 | with or without the passthrough, decoding succeeds exactly if the codec's output has the length of the header and, cut there, its CRC; what comes out then is the inner stream, or the fork behind its MacBinary header |
| `LhaReaderRuns.RunKeepsValid` | lib/lha_reader.c:245-349 | after any sequence of calls every list of the reader is in order: entries in archive order, each saved directory or link returned or still waiting |
| `LhaReaderRuns.CompleteRun` | lib/lha_reader.c:292-349 | when a run is over, all headers came back once and in order; each directory extracted with success came back exactly once unless the policy is the plain one, and so did each link extracted with success that is absolute or has a ".." component, and nothing else; links last and longest path first |
| `LhaReaderRuns.NoLinkThroughAnother` | lib/lha_reader.c:743-779 | at any moment of any run, no deferred link has come back before another one that lies under its path |
| `LhaReaderRuns.DirectoriesEnclose` | lib/lha_reader.c:245-349 | under the end-of-directory policy a directory comes back after its own entry with only its contents in between, what follows lies outside, and stacked directories enclose one another |
| `LhaReaderRuns.DirectoriesComeLast` | lib/lha_reader.c:275-276 | under the end-of-file policy no archive entry follows a directory that has come back, and in the end they have come back in the reverse order of their extraction |
| `LhaReaderRuns.SavedAreExtracted` | lib/lha_reader.c:791-878 | at any moment of any run, what is pushed and deferred is what the calls extracted with success: directories unless the policy is the plain one, and dangerous links |
| `LhaReaderRuns.RunsEnd` | lib/lha_reader.c:292-349 | asking once more than there are entries and saved headers ends the run |
| `LhaReader.NextFileKeepsValid` | lib/lha_reader.c:292-349 | each step to the next file keeps that order |
| `LhaReader.DeferLinkKeepsValid` | lib/lha_reader.c:743-779 | a deferred link is inserted before all that are not longer, keeping the list longest first |
| `LhaReaderRuns.IsDangerousSymlink` | lib/lha_reader.c:666-705 | the scan finds exactly the targets that are absolute or have ".." as a component |
| `LhaReaderObject.Reader.NextFile` | lib/lha_reader.c:292-349 | the object's fields follow the run, so all that is proved of runs holds of it |
| `LhaReaderObject.Reader.Extract` | lib/lha_reader.c:791-878 | only an entry fresh from the archive changes a list, by its kind and policy |
| `LhaReaderObject.Reader.ExtractPlaceholderSymlink` | lib/lha_reader.c:743-779 | the rover stops at the first link that is not longer |
| `Crc16.CrcBuf` | lib/crc16.c:58-72 | the table-driven loop computes the bit-at-a-time reflected CRC with polynomial 0xA001 of every message |
| `Crc16.TableIsShifted` | lib/crc16.c:23-56 | each of the 256 entries is eight shift steps of its index |
| `Crc16.CrcOfPieces` | lib/crc16.c:58-72 | the CRC does not depend on how the message is split |
| `Crc16.SingleByteErrorsAreDetected` | lib/crc16.c:58-72 | messages of equal length that differ in exactly one byte have different CRCs |
| `Crc16.BurstsAreDetected` | lib/crc16.c:58-72 | so do messages that differ within two adjacent bytes |

## Left out

- Operating-system calls (`lib/lha_arch_*.c`): creating files, directories and links, permissions and timestamps; their outcomes are parameters.
- The command line, listing, prompting and the glob filter (`src/`).
- Field-by-field header decoding: names, OS types, permissions, timestamps, all-caps fixing, the checks on header contents; the last data of each extended-header type is kept as bytes.
- `-pm1-`, `-lz5-`, `-lzs-` and the stored formats: fixed tables, or smaller copies of the ring-buffer argument.
- Memory allocation failures and the release of headers; lists linked through headers are sequences here, so sharing of list links between headers is not modelled.
- The read-based fallback of the stream's skip, whose progress depends on the user's callback.
- LhNewDecoder.Decoder.Read: says nothing about the output of a copy whose class has more than 25 extra bits, because the bit reader's register cannot deliver as many.
- LhNewDecoder.ReadOffsetCode: the same.
- Pm2Decoder.Decoder.Read: says nothing about a code beyond the 29 of the format, because the original then reads behind the end of a table.
- BasicReader.HeaderRead: the acceptance of a header's contents is a parameter, because names and checksums would add only easy members.
- LhaDecoder.Decoder.Monitor: covers only streams for which the original's doubling loop ends without wrapping around, as `ScalingEnds` characterises them; the endless loop itself is not modelled.
- Nothing was executed; the results are about the model.
