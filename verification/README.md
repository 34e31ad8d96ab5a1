# A verified model of the boot loader's disk, file system and text layers

The loader reads files before any operating system runs. Its file system drivers keep cursors, one-block caches and
half-decoded structures in static variables, and each of them is meant to be indistinguishable from a direct reading of
an unchanging disk. This project models the drivers with that state and proves that they are. It also models the layers
around them: the track buffer, the block lists that name a file by its sectors, the preprocessor of the configuration
file, and the memory map.

The state is modelled as the source keeps it: a driver with static variables is a class with those fields, a loop is a
loop, a buffer is an array. What a method must deliver is given by a function on values that knows nothing of caches,
and theorems about these functions say what they mean. At the end of each way stands a theorem that needs none of them:
it starts from what was written (transactions, files, runs, items, tokens, lines), says which words and bytes that takes
up, and states what the driver delivers.

| file | what it models |
|---|---|
| `ReiserJournal.dfy` | the ReiserFS journal: finding the valid transactions, the table of cached ones, translated reads |
| `ReiserLog.dfy` | a journal as it is written, and what is read through it |
| `ReiserTree.dfy` | the ReiserFS tree: search and iteration over a path whose levels share one cache slot |
| `ReiserItems.dfy` | the items a tree was written for, and what is visited of them |
| `Lznt1.dfy` | LZNT1: tokens, their 16-bit codes, encoding, decoding ([MS-XCA], section 2.5) |
| `NtfsDecompress.dfy` | the two LZNT1 decoders: one pulls bytes cluster by cluster, one reads a flat buffer |
| `Lznt1Chunks.dfy` | chunks as [MS-XCA] writes them, in terms of distances and lengths, and what both decoders deliver |
| `NtfsRuns.dfy` | NTFS run lists and reads of files that are not compressed |
| `NtfsRunLists.dfy` | run lists as they are written, and what is read through them |
| `NtfsUnits.dfy` | the table of runs a compression unit is read from |
| `FatFile.dfy` | FAT/exFAT: the cluster cursor, the window into the table, files without a chain |
| `FatTables.dfy` | tables of 12, 16 and 32 bits as they are written for files, and what is read of these |
| `LongNames.dfy` | FAT long names: assembly from directory entries, 8.3 names, UTF-8 output |
| `LongNameExamples.dfy` | directory entries, byte by byte, and the names found |
| `Ext2Map.dfy` | ext2: the block map with its two buffers, and reads |
| `Ext2Layout.dfy` | where division finds the words and bytes of a file |
| `Ext4Extents.dfy` | ext4: the extent tree |
| `Ext4Files.dfy` | the extents a tree was written for, and which blocks are found |
| `TrackBuffer.dfy` | the track buffer in front of the BIOS, partition-relative reads |
| `Numbers.dfy` | printing and parsing numbers |
| `BlocklistCommand.dfy` | the whole way: reading a file, printing its block list, opening and reading that |
| `Blocklists.dfy` | collecting the sectors of a file into a block list and printing it |
| `BlockFile.dfy` | opening a block list as a file, reading it and seeking in it |
| `DeviceNotation.dfy` | device names; a printed block list opens as the file it was printed for |
| `NotationExamples.dfy` | numbers, device names and block lists, character by character |
| `Conditionals.dfy`, `Preprocessor.dfy` | the conditional lines of the configuration file |
| `ConditionalExamples.dfy` | conditionals read line by line, and a file |
| `MemoryMap.dfy` | the end of available memory above an address |
| `Common.dfy`, `Arith.dfy`, `Bits.dfy`, `Strings.dfy` | shared types, division, shifts and masks, text read from a position on |

## Main results

- **Journal** (`ReiserLog.ReadLogged`, `JournalInit`, `LookupIsReplay`). On a disk that holds the transactions of a
  log, a block is read as it was logged last. The driver accepts exactly the longest run of valid transactions, which
  fits the journal because no block can be accepted twice; whatever part of it fits the table, a read goes where the
  uncached walk goes. That is what replaying gives if and only if the first and the last occurrence of the block within
  its last transaction hold the same content: the driver looks for the first, replay writes the last.
- **Tree** (`ReiserItems.VisitStored`, `SearchStat`, `NextKey`, `Visit`). The search succeeds exactly if the item
  exists, and stepping visits exactly the items whose keys, as numbers, are not below its own, although all deep levels
  share one cache slot.
- **LZNT1** (`Lznt1Chunks.ReadUnit`, `DecompressWritten`, `DecodersAgree`, `DecodeAndSkip`). Both decoders deliver what
  bytes and back references stand for, overlapping ones included, however the clusters lie on the disk, and never write
  past 4114 bytes. They agree on a chunk if and only if it is compressed or stores 4096 bytes. Decoding and skipping a
  chunk come to the same place if and only if its body holds whole tokens.
- **FAT** (`FatTables.ReadWritten`, `ReadChain`, `ChainIsRight`, `WindowEntry`). On a table of 12, 16 or 32 bits written
  for any files, a read from any position delivers the clusters of the file, without touching a byte behind the window.
  The driver does not mask the reserved bits of FAT32 entries and does not count the last two clusters of exFAT: what
  it delivers is right nevertheless, but it may take a file for finished, or for corrupt, exactly at an entry with such
  bits or for such a cluster.
- **ext2, ext4** (`Ext2Layout.ReadWritten`, `Ext4Files.BlockMapStored`, `BlockMap` of each). After any sequence of calls
  the buffered lookup finds the words that division of the position finds, and reads the bytes of that block; for the
  sparse file, exactly where block 0, which is read for missing indirect blocks, has zeros. The extent search finds
  every block that an extent has, and answers an uncovered block exactly just behind or in front of the extent it ends
  at.
- **Block lists** (`BlocklistCommand.ReadAgain`, `PrintedFileOpens`, `Read`). A file is read through the track buffer,
  the list of its sectors is printed, parsed to the same drive and partition, opened and read: the bytes are the same.
- **Preprocessor** (`Preprocess`, `PreprocessKept`). Repeated rewriting takes one pass per level of nesting, unless the
  memory behind the text looks like a conditional, and leaves the lines all of whose conditionals hold, up to blank
  lines.
- **Long names** (`Lookup`, `NameReassembled`, `RotatedBits`, `Utf8RoundTrip`). A name written as the format prescribes
  is reassembled from any state. A search finds exactly the first file that has the name wanted, where a long name
  consists of parts that stand in a row right before the file's entry; a rest from the search before may count, too.
- **Run lists, track buffer, memory map** (`NtfsRunLists.ReadWritten`, `RawRead`, `AvailAt`). Runs written in any widths
  are read as the sectors they name. Every byte read through the track buffer is that of the sector reported for it.

Where the code and the natural claim part, the code is kept, the exact condition is proved and an input that fails is
given: `LookupIsReplay` (`TwiceDiffers`), `DecodersAgree` (`DecodersDiffer`), `DecodingEnds` (`DecodingMayOverrun`),
`ChainIsRight`, `ReadChain` and `ChainReadsContiguous` (`CutShort`, `LastClusters`), `Lookup` (`NameOfTwoDirectories`),
`BlockFiles.File.Read` (`EndlessRead`), `TableIsOk` (`EmptyRunsRecorded`), `MissingIndirectBlock`
(`MissingIndirectBlockExample`), `AnswerForUncoveredBlock` (`OneBlockTooMany`, `AnswersBeforeLeaf`), `EncodedIsUtf8`
(`SurrogateExample`), and the track tag that `RawRead` leaves wrong behind a range that runs off the end of the disk
(`WrongBytes`, `WrongBytesExample`).

## Model

| member | source | states |
|---|---|---|
| `ReiserJournal.DistinctPositionsFit` | loader/filesys/fsys_reiserfs.c:530-589 | pigeonhole: distinct block positions below n are at most n |
| `ReiserJournal.AcceptedPositionsDiffer` | loader/filesys/fsys_reiserfs.c:532-544 | no descriptor block is accepted for two transactions of one scan, since ids differ and the disk does not change |
| `ReiserJournal.RunFits` | loader/filesys/fsys_reiserfs.c:530-589 | a run of accepted transactions is no longer than the journal has blocks, so the scan ends |
| `ReiserJournal.LongestRunIsUnique` | loader/filesys/fsys_reiserfs.c:530-589 | "the valid transactions" are well defined |
| `ReiserJournal.CountOfIdsIsCount` | loader/filesys/fsys_reiserfs.c:595-596 | the count computed from transaction ids is the length of the run modulo 2^16, across id wrap-around |
| `ReiserJournal.NextDescIsOneStep` | loader/filesys/fsys_reiserfs.c:492-588 | the reader's step over a transaction lands where the scan's step landed, wrap-around included |
| `ReiserJournal.ReplayBlocksAt` | loader/filesys/fsys_reiserfs.c:482-493 | after replaying one transaction a block holds its last copy in it, or what it held before |
| `ReiserJournal.LookupIsReplay` | loader/filesys/fsys_reiserfs.c:436-493 | the translated block equals the replayed one if and only if the first and last occurrence in the last transaction that logs it agree |
| `ReiserJournal.TwiceDiffers` | loader/filesys/fsys_reiserfs.c:440-493 | a journal whose one transaction logs a block twice: the read gives the contents logged first, replay those logged last |
| `ReiserJournal.LookupIsReplayWhenLoggedOnce` | loader/filesys/fsys_reiserfs.c:436-493 | so it is the replayed block in every journal that logs a block once per transaction, as ReiserFS writes them |
| `ReiserJournal.EntryInTable` | loader/filesys/fsys_reiserfs.c:564-585 | the cached entry of a transaction stands where the reader will look, with all its block numbers |
| `ReiserJournal.Journal.AddEntry` | loader/filesys/fsys_reiserfs.c:568-585 | a cached entry is the length and all block numbers, from descriptor and commit block |
| `ReiserJournal.Journal.CacheEntry` | loader/filesys/fsys_reiserfs.c:552-587 | the table stays a prefix of the log, closed by a marker for which there is always room |
| `ReiserJournal.Journal.FollowLog` | loader/filesys/fsys_reiserfs.c:520-588 | finds exactly the longest run of valid transactions and caches what fits |
| `ReiserJournal.Journal.JournalInit` | loader/filesys/fsys_reiserfs.c:506-598 | the number of transactions is that of the longest run, exactly for journals below 65536 blocks, modulo 2^16 otherwise |
| `ReiserJournal.Journal.ScanTable` | loader/filesys/fsys_reiserfs.c:440-452 | finds the first occurrence of a block in a cached entry, and the next entry |
| `ReiserJournal.Journal.ScanDisk` | loader/filesys/fsys_reiserfs.c:458-478 | the same for a transaction that is read again, across descriptor and commit block |
| `ReiserJournal.Journal.Step` | loader/filesys/fsys_reiserfs.c:436-493 | one transaction overrides what the earlier ones said about a block |
| `ReiserJournal.Journal.Locate` | loader/filesys/fsys_reiserfs.c:429-493 | the walk over cached and uncached transactions finds the block the uncached log gives |
| `ReiserJournal.Journal.BlockRead` | loader/filesys/fsys_reiserfs.c:429-495 | a read delivers the replayed content of the block |
| `ReiserLog.FoundIsReplayed` | loader/filesys/fsys_reiserfs.c:436-493 | if no transaction has a block twice, its first occurrence in the last transaction that has it is what replaying leaves |
| `ReiserLog.LoggedIsSeen` | loader/filesys/fsys_reiserfs.c:524-588 | a transaction whose words stand at their places is accepted, with its block numbers from both halves and its contents, across the end of the journal |
| `ReiserLog.WrittenIsSeen` | loader/filesys/fsys_reiserfs.c:115-123 | the header words are read as last id, first offset and mount id, and the transactions written are the longest run |
| `ReiserLog.TranslateIsFound` | loader/filesys/fsys_reiserfs.c:428-493 | the walk finds what the last transaction has for the block |
| `ReiserLog.ReadLogged` | loader/filesys/fsys_reiserfs.c:428-598 | mounting a disk that holds a log and reading a block delivers what was logged last for it, or the block itself |
| `ReiserLog.ReadExample` | loader/filesys/fsys_reiserfs.c:428-598 | a journal of 16 blocks whose one transaction goes over its end |
| `ReiserTree.OrderedIsSorted` | loader/filesys/fsys_reiserfs.c:757-761 | the items of an ordered tree ascend strictly, so "the next key in tree order" is meaningful |
| `ReiserTree.SuffixIsUnique` | loader/filesys/fsys_reiserfs.c:757-761 | the items from a key on are determined by that key |
| `ReiserTree.OtherChildrenMiss` | loader/filesys/fsys_reiserfs.c:872-884 | no child but the one chosen contains the key |
| `ReiserTree.SearchDescends` | loader/filesys/fsys_reiserfs.c:872-890 | descending to the chosen child keeps and loses no occurrence of the key |
| `ReiserTree.AfterFrame` | loader/filesys/fsys_reiserfs.c:776-824 | changing the path below a level does not change what follows that level |
| `ReiserTree.Descend` | loader/filesys/fsys_reiserfs.c:889-890 | setting a path entry and going to child i keeps the order of everything from that child on |
| `ReiserTree.PendingStep` | loader/filesys/fsys_reiserfs.c:809-824 | each step down the leftmost path keeps the items still to come |
| `ReiserTree.AfterExhausted` | loader/filesys/fsys_reiserfs.c:782-796 | levels whose next_key_nr is 0 have nothing left |
| `ReiserTree.Cursor.ReadTreeNode` | loader/filesys/fsys_reiserfs.c:725-755 | the node ends up in its own or the shared slot, other slots are kept, and the path records it |
| `ReiserTree.Cursor.Enter` | loader/filesys/fsys_reiserfs.c:889-892 | one step of the search keeps every cache slot true to the path |
| `ReiserTree.Cursor.FindChild` | loader/filesys/fsys_reiserfs.c:872-884 | the first separator greater than the stat key |
| `ReiserTree.Cursor.FindLeaf` | loader/filesys/fsys_reiserfs.c:864-893 | the leaf contains the key exactly if the tree does, and its items start what remains of the tree |
| `ReiserTree.Cursor.SearchStat` | loader/filesys/fsys_reiserfs.c:853-916 | succeeds exactly if the tree has the stat item, and then stands on it |
| `ReiserTree.Cursor.Reload` | loader/filesys/fsys_reiserfs.c:798-807 | a node the shared slot has lost is read again, the path unchanged |
| `ReiserTree.Cursor.DescendLeftmost` | loader/filesys/fsys_reiserfs.c:809-824 | the new leaf starts the items that were pending |
| `ReiserTree.Cursor.NextLeaf` | loader/filesys/fsys_reiserfs.c:776-827 | goes to the next leaf, or leaves everything as it was at the end of the tree |
| `ReiserTree.Cursor.NextKey` | loader/filesys/fsys_reiserfs.c:760-840 | what remains loses exactly its first item |
| `ReiserTree.Cursor.Visit` | loader/filesys/fsys_reiserfs.c:757-916 | search and repeated steps deliver exactly the suffix of the in-order sequence that starts at the stat item |
| `ReiserItems.LessIsNumeric` | loader/filesys/fsys_reiserfs.c:872-884 | keys are compared as numbers: directory, object, then offset and type |
| `ReiserItems.StoredIsComplete` | loader/filesys/fsys_reiserfs.c:757-761 | the items of a stored tree, leaf by leaf, are its in-order sequence |
| `ReiserItems.DividedIsOrdered` | loader/filesys/fsys_reiserfs.c:872-884 | a tree whose separators divide its items by number is one the search can be used on |
| `ReiserItems.VisitStored` | loader/filesys/fsys_reiserfs.c:757-916 | search and steps visit exactly the items of the tree whose key number is not below that of the stat item, in order |
| `Lznt1.DispFieldIsLeast` | loader/filesys/fsys_ntfs.c:503-507 | the displacement field always reaches the first byte, and no narrower field of four bits or more does |
| `Lznt1.CopyFits` | loader/filesys/fsys_ntfs.c:476-516 | a copy that starts within 4096 bytes ends within 4114 |
| `Lznt1.CodeIsSplit` | loader/filesys/fsys_ntfs.c:509-510 | a displacement and length that fit are recovered from their code |
| `Lznt1.SplitIsCode` | loader/filesys/fsys_ntfs.c:509-510 | and every 16-bit code is the code of the pair it splits into |
| `Lznt1.CopyRefersBack` | loader/filesys/fsys_ntfs.c:512-516 | every copied byte equals the one delta + 1 before it, itself copied or not; nothing before changes |
| `Lznt1.EncodeIsEncoded` | loader/filesys/fsys_ntfs.c:474-524 | the encoder's bytes are an encoding wherever they stand |
| `Lznt1.DecodePrefix` | loader/filesys/fsys_ntfs.c:474-524 | decoding goes over any encoding as its tokens say and goes on behind it, whatever the unused flag bits are |
| `Lznt1.DecodeEncoded` | loader/filesys/fsys_ntfs.c:474-524 | decoding undoes encoding and takes exactly the encoding's bytes |
| `Lznt1.DecodeFrame` | loader/filesys/fsys_ntfs.c:474-524 | decoding looks at one byte behind those it is given, and at no other |
| `Lznt1.DecodeEnd` | loader/filesys/fsys_ntfs.c:474-524 | decoding that comes to an end does so behind its bytes if and only if these are valid tokens, or full groups of them and a lone flag byte, and then they stand for the output; otherwise one byte later |
| `NtfsDecompress.FieldWidths` | loader/filesys/fsys_ntfs.c:503-507 | the shifting loop keeps lmask = 2^dshift - 1 and ends at the width of the length field |
| `NtfsDecompress.CopyBack` | loader/filesys/fsys_ntfs1.c:692-696 | the byte loop in the destination is the overlapping copy |
| `NtfsDecompress.ApplyCode` | loader/filesys/fsys_ntfs1.c:677-696 | a code is refused, undefined or applied exactly as the token semantics says |
| `NtfsDecompress.FlatToken` | loader/filesys/fsys_ntfs1.c:673-698 | one token of the flat decoder is one token of the semantics |
| `NtfsDecompress.FlatBody` | loader/filesys/fsys_ntfs1.c:656-703 | the flat loop computes the semantics, with cnt = last - src + 1 |
| `NtfsDecompress.DecompressBlock` | loader/filesys/fsys_ntfs1.c:635-704 | result and output of the flat decoder for every chunk |
| `NtfsDecompress.DecodersAgree` | loader/filesys/fsys_ntfs1.c:642-646 | on every input the decoders agree on a chunk if and only if it is compressed, or it stores 4096 bytes that are all there |
| `NtfsDecompress.FlatResultFrame` | loader/filesys/fsys_ntfs1.c:635-704 | what stands behind the flat buffer does not matter if there is a byte behind the chunk |
| `NtfsDecompress.DecodersDiffer` | loader/filesys/fsys_ntfs1.c:642-646 | a chunk of one stored byte, which one decoder refuses and the other expands to 4096 bytes |
| `NtfsDecompress.ChunkDecodes` | loader/filesys/fsys_ntfs1.c:631-704 | both decode a well-formed chunk to what its tokens stand for; decoding, skipping and the size in the header end at the same byte |
| `NtfsDecompress.DecodingEnds` | loader/filesys/fsys_ntfs.c:473-525 | decoding a chunk ends where its header says if and only if its body holds whole tokens; otherwise one byte behind |
| `NtfsDecompress.DecodingMayOverrun` | loader/filesys/fsys_ntfs.c:489-495 | a chunk whose last code starts in its last byte is decoded one byte further than it is skipped |
| `NtfsDecompress.ClustersLength` | loader/filesys/fsys_ntfs.c:428-445 | the runs of a unit yield as many bytes as their clusters hold |
| `NtfsDecompress.CursorDetermined` | loader/filesys/fsys_ntfs.c:537-554 | what is left of the stream determines run, cluster and offset |
| `NtfsDecompress.DecodeAndSkip` | loader/filesys/fsys_ntfs.c:458-555 | a stream that decodes a chunk and one that skips it stand at the same run, cluster and offset if and only if the chunk is stored or holds whole tokens, or is the last thing in the unit |
| `NtfsDecompress.Stream.NextVcn` | loader/filesys/fsys_ntfs.c:428-445 | loads the clusters in VCN order at the LCNs of the runs |
| `NtfsDecompress.Stream.Getch` | loader/filesys/fsys_ntfs.c:447-455 | the next byte of the unit, across clusters; 0 behind the last |
| `NtfsDecompress.Stream.GetToken` | loader/filesys/fsys_ntfs.c:489-521 | one token of the streaming decoder is one token of the semantics |
| `NtfsDecompress.Stream.GetBody` | loader/filesys/fsys_ntfs.c:473-525 | the streaming loop computes the semantics and stops at the byte it ends at |
| `NtfsDecompress.Stream.PassChunk` | loader/filesys/fsys_ntfs.c:537-554 | copying or skipping moves exactly the bytes of the chunk |
| `NtfsDecompress.Stream.DecompBlock` | loader/filesys/fsys_ntfs.c:458-555 | result, output and cursor of the streaming decoder for every chunk, decoded or skipped |
| `Lznt1Chunks.LengthsIsPower` | loader/filesys/fsys_ntfs.c:503-507 | the length field halves its range with every doubling of the output beyond 16 bytes |
| `Lznt1Chunks.CodeIsRead` | loader/filesys/fsys_ntfs.c:509-510 | distance and length come back from (distance - 1) times the number of lengths plus length - 3 |
| `Lznt1Chunks.WrittenIsEncode` | loader/filesys/fsys_ntfs.c:474-524 | groups of eight pieces behind a byte of flags, lowest bit first, set for back references |
| `Lznt1Chunks.TextIsExpand` | loader/filesys/fsys_ntfs.c:474-524 | what pieces stand for is what their tokens expand to |
| `Lznt1Chunks.ChunkIsRead` | loader/filesys/fsys_ntfs.c:458-555 | both decoders make of a written chunk what its pieces stand for |
| `Lznt1Chunks.DecompressWritten` | loader/filesys/fsys_ntfs1.c:635-704 | the flat decoder delivers what a written chunk stands for |
| `Lznt1Chunks.UnitIsClusters` | loader/filesys/fsys_ntfs.c:425-455 | the stream of a unit is the contents of its clusters, run by run |
| `Lznt1Chunks.ReadUnit` | loader/filesys/fsys_ntfs.c:425-555 | the streaming decoder delivers what all chunks of a unit stand for, across clusters and runs |
| `Lznt1Chunks.Example` | loader/filesys/fsys_ntfs.c:458-555 | "ababab" in a chunk of seven bytes |
| `NtfsRuns.WideSigned` | loader/filesys/fsys_ntfs.c:370-374 | from four bytes on the sign of a field does not show in a word |
| `NtfsRuns.SignBit` | loader/filesys/fsys_ntfs.c:373-374 | below, the bit looked at is the sign of the field |
| `NtfsRuns.ReadRunData` | loader/filesys/fsys_ntfs.c:360-378 | for every width the value is that of the little-endian, if asked two's complement, field modulo 2^32 |
| `NtfsRuns.Context.ReadRunList` | loader/filesys/fsys_ntfs.c:380-423 | a run advances the prefix sums of lengths and deltas and is blank exactly if its delta is 0 |
| `NtfsRuns.Context.TakeRun` | loader/filesys/fsys_ntfs.c:723-728 | taking a run does not change where the sectors still to be read are |
| `NtfsRuns.Context.ReadPiece` | loader/filesys/fsys_ntfs.c:691-718 | sectors of the current run come from its clusters, or are zero if it is blank |
| `NtfsRuns.Context.Advance` | loader/filesys/fsys_ntfs.c:719-721 | cluster and offset move by the sectors read, and reach the run's end exactly at its last one |
| `NtfsRuns.Context.Seek` | loader/filesys/fsys_ntfs.c:819-832 | positions on any sector, failing exactly behind the last run |
| `NtfsRuns.Context.ReadBlock` | loader/filesys/fsys_ntfs.c:677-736 | delivers exactly the sectors asked for of the flattened run list; fails only on a failed read or behind the list; on a disk that reads each of its sectors, only if one asked for is behind the list or off the disk |
| `NtfsRunLists.LittleOfBytes` | loader/filesys/fsys_ntfs.c:360-378 | a number written lowest byte first is read as it was |
| `NtfsRunLists.SignedOfBytes` | loader/filesys/fsys_ntfs.c:360-378 | and so is one in two's complement |
| `NtfsRunLists.RunIsWritten` | loader/filesys/fsys_ntfs.c:386-421 | a header of two widths, the length, then the delta |
| `NtfsRunLists.TakeAll` | loader/filesys/fsys_ntfs.c:380-423 | reading a written list run by run gives the prefix sums of its lengths and deltas |
| `NtfsRunLists.WhereIsWritten` | loader/filesys/fsys_ntfs.c:380-423 | a sector of the file is where the flattened list has it |
| `NtfsRunLists.ReadWritten` | loader/filesys/fsys_ntfs.c:677-736 | a read delivers the sectors of the flattened list, zeros for runs without clusters |
| `NtfsRunLists.Example` | loader/filesys/fsys_ntfs.c:380-423 | a list of three runs, one of them without clusters, one backward |
| `NtfsUnits.TableAgrees` | loader/filesys/fsys_ntfs.c:587-595 | an entry recorded for a unit gives the places of its clusters as the run list does |
| `NtfsUnits.TableIsOk` | loader/filesys/fsys_ntfs.c:587-595 | the streaming decoder can work with the table if and only if no recorded run is empty |
| `NtfsUnits.TableFits` | loader/filesys/fsys_ntfs.c:587-595 | and then it has at most 15 entries |
| `NtfsUnits.EmptyRunsRecorded` | loader/filesys/fsys_ntfs.c:587-595 | empty runs are recorded without limit, so that 16 of them in a row exceed the table |
| `NtfsUnits.Record` | loader/filesys/fsys_ntfs.c:587-599 | the loop records exactly the runs up to the first blank one or the end of the unit |
| `NtfsUnits.TableIsFile` | loader/filesys/fsys_ntfs.c:587-595 | what is recorded are the places of the file |
| `FatFile.FileLength` | loader/filesys/fsys_fat.c:483-556 | n clusters of a chain are n cluster sizes of bytes |
| `FatFile.ChainInData` | loader/filesys/fsys_fat.c:522-531 | every cluster the chain reaches is one of the data area |
| `FatFile.WindowEntry` | loader/filesys/fsys_fat.c:497-520 | an entry picked from the window by nibble address is the table's entry, whatever bytes stand behind the window |
| `FatFile.SelectLow` | loader/filesys/fsys_fat.c:513-520 | shift and mask leave the 12 or 16 bits of the entry |
| `FatFile.StepIsRight` | loader/filesys/fsys_fat.c:512-528 | a step leads where the format says if and only if the entry has no reserved bits that matter and does not lead to a cluster that is not counted; otherwise the chain seems to end, or to be corrupt |
| `FatFile.Fat32Mask` | loader/filesys/fsys_fat.c:512-522 | on FAT32 that is: its top nibble is zero, or it marks the end |
| `FatFile.ExfatCount` | loader/filesys/fsys_fat.c:377-528 | on exFAT that is: it does not lead to one of the last two clusters of the volume |
| `FatFile.ClustersAreRight` | loader/filesys/fsys_fat.c:496-531 | the clusters a chain does reach are those of the format's chain |
| `FatFile.StopIsRight` | loader/filesys/fsys_fat.c:522-528 | where a chain stops, at its end or as corrupt, the format's chain does the same if and only if the entry there is understood |
| `FatFile.ChainIsRight` | loader/filesys/fsys_fat.c:496-531 | the chain is the format's up to a position if and only if all entries before it are understood |
| `FatFile.DeliveryIsRight` | loader/filesys/fsys_fat.c:483-557 | what a read delivers is part of the format's file; a read that is cut short ends where that file does if and only if the last entry is understood |
| `FatFile.FailureIsRight` | loader/filesys/fsys_fat.c:524-528 | a read that fails has met a corrupt chain if and only if the last entry is understood |
| `FatFile.CutShort` | loader/filesys/fsys_fat.c:512-523 | a file of two clusters of which the driver sees one |
| `FatFile.LastClusters` | loader/filesys/fsys_fat.c:377-528 | an exFAT volume of four clusters on which a proper file is taken for corrupt |
| `FatFile.FileGrows` | loader/filesys/fsys_fat.c:534-555 | a piece read from a cluster extends the slice of the file |
| `FatFile.ContiguousFile` | loader/filesys/fsys_fat.c:454-482 | on consecutive clusters the chain walk and the contiguous reading name the same bytes |
| `FatFile.ChainReadsContiguous` | loader/filesys/fsys_fat.c:454-557 | a file the format places in consecutive clusters: reading along its chain delivers a piece of what the contiguous reading does, and all of it if and only if the entries before the last cluster read are understood |
| `FatFile.ExfatReadsContiguous` | loader/filesys/fsys_fat.c:377-557 | on exFAT: if and only if that cluster is the first of the file or not one of the last two of the volume |
| `FatFile.Reader.Step` | loader/filesys/fsys_fat.c:496-531 | one step follows the table, through the window or after moving it |
| `FatFile.Reader.Advance` | loader/filesys/fsys_fat.c:494-532 | the cursor stays a true position of the chain |
| `FatFile.Reader.ReadCluster` | loader/filesys/fsys_fat.c:491-556 | one round delivers what one cluster has of the range |
| `FatFile.Reader.ReadChain` | loader/filesys/fsys_fat.c:483-557 | after any reads and seeks, the slice of the concatenated chain up to its end, or a failure at a corrupt cluster before the range's end; either is right by the format if and only if the last entry is understood where the read stops |
| `FatFile.Reader.ReadContiguous` | loader/filesys/fsys_fat.c:454-482 | the slice of a file without a chain, cut at its size, up to the last cluster of the volume |
| `FatTables.EntryIsWritten` | loader/filesys/fsys_fat.c:497-520 | entries of 12, 16 and 32 bits are found among the bytes they were written to |
| `FatTables.StepFollowsTable` | loader/filesys/fsys_fat.c:497-531 | a step leads where the entry of the cluster says |
| `FatTables.EntryForLinks` | loader/filesys/fsys_fat.c:497-531 | the entries of a list of files link each file |
| `FatTables.ChainIsWritten` | loader/filesys/fsys_fat.c:483-557 | the chain of a file is the file, up to the first cluster that is not counted |
| `FatTables.ReadWritten` | loader/filesys/fsys_fat.c:425-557 | reading a file from any position delivers the bytes of its clusters; it fails exactly if it needs one behind a cluster that is not counted |
| `FatTables.DataSplits` | loader/filesys/fsys_fat.c:454-482 | the data area is its clusters in order |
| `FatTables.ReadInOnePiece` | loader/filesys/fsys_fat.c:454-482 | a file without a chain is read as its consecutive clusters |
| `FatTables.ReadExample` | loader/filesys/fsys_fat.c:425-557 | a volume with entries of 12 bits and a file in clusters 2 and 4 |
| `LongNames.FoundIsJoined` | loader/filesys/fsys_fat.c:754-766 | a reported long name is the parts before it put together, all of them, in a row, with the checksum of the short name |
| `LongNames.ChainedLong` | loader/filesys/fsys_fat.c:711-749 | an entry of a long name, fitting or not, keeps the buffer true to the parts in a row |
| `LongNames.ChainedShort` | loader/filesys/fsys_fat.c:754-792 | a short name, which overwrites the start of the buffer, destroys no part still needed |
| `LongNames.ExactShort` | loader/filesys/fsys_fat.c:711-792 | a file is found by a long name exactly if the parts in front of its entry end with all of one, of its checksum; parts are left over exactly if they end with some of one, but not its first part |
| `LongNames.NameReassembled` | loader/filesys/fsys_fat.c:711-766 | a name in 13-unit parts, last part first, is reassembled from any state, multiples of 13 included |
| `LongNames.ProperIsNamed` | loader/filesys/fsys_fat.c:711-766 | a name that stands in front of an entry as the format prescribes is a name of the file, whatever else is in front of it |
| `LongNames.Names.LongEntry` | loader/filesys/fsys_fat.c:711-749 | the effect of a long-name entry on slot, checksum and buffer |
| `LongNames.Names.ShortEntry` | loader/filesys/fsys_fat.c:754-792 | the effect of a short-name entry, and which name the file is found by |
| `LongNames.Names.Sum` | loader/filesys/fsys_fat.c:758-760 | the rotating checksum of the short name |
| `LongNames.RotatedBits` | loader/filesys/fsys_fat.c:758-759 | every bit of the sum moves down by one, the lowest to the top |
| `LongNameExamples.SumExample` | loader/filesys/fsys_fat.c:758-760 | the sum of "LONGFI~1TXT" is 0xD4 |
| `LongNames.Names.WriteShort` | loader/filesys/fsys_fat.c:774-792 | base, dot and extension as left in the buffer |
| `LongNames.ShortTextIsName` | loader/filesys/fsys_fat.c:774-792 | what is left is the 8.3 name, without a dot if there is no extension |
| `LongNameExamples.ShortNames` | loader/filesys/fsys_fat.c:774-792 | both case flags, and a name without an extension |
| `LongNames.Names.NextName` | loader/filesys/fsys_fat.c:640-795 | going to the next file: it is found by a long name if and only if that is complete, in a row and its own, else by its short name |
| `LongNames.Names.TryShort` | loader/filesys/fsys_fat.c:808-816 | a file whose name does not match is tried by its short name, and the parts read so far are given up |
| `LongNames.Names.TryNext` | loader/filesys/fsys_fat.c:640-817 | a file is found exactly if its long or its short name is wanted |
| `LongNames.Names.Lookup` | loader/filesys/fsys_fat.c:594-817 | from the state any search leaves behind, the first file that has a wanted name, long or short, is found; what it leaves over for the next search |
| `LongNameExamples.LookupExample` | loader/filesys/fsys_fat.c:594-817 | a directory with a long name in two parts, and its file found by that |
| `LongNames.NameOfTwoDirectories` | loader/filesys/fsys_fat.c:592-766 | a name that is found in one directory although its second part stands in the one searched before |
| `LongNames.EncodedIsUtf8` | loader/filesys/fsys_fat.c:117-137 | a unit's bytes are those of sections 3 and 4 of RFC 3629 if and only if it is no surrogate (space aside) |
| `LongNames.SurrogateExample` | loader/filesys/fsys_fat.c:131-136 | a surrogate, whose three bytes UTF-8 does not allow |
| `LongNames.UnicodeToUtf8` | loader/filesys/fsys_fat.c:108-141 | writes the encoding of the units up to the first NUL, at most three bytes each, and a NUL |
| `LongNames.Utf8RoundTrip` | loader/filesys/fsys_fat.c:117-137 | the output decodes to the name, so the quoting of spaces is unambiguous |
| `LongNameExamples.QuotedSpace` | loader/filesys/fsys_fat.c:117-124 | a backslash stands in front of a space |
| `LongNameExamples.LongUnits` | loader/filesys/fsys_fat.c:125-137 | units of two and of three bytes |
| `Ext2Map.LeavesAt` | loader/filesys/fsys_ext2fs.c:576-619 | leaf l below an indirect block is found by splitting l into shifted and masked digits |
| `Ext2Map.MissingLeaves` | loader/filesys/fsys_ext2fs.c:541-619 | below a missing block the sparse file has nothing but holes |
| `Ext2Map.LookupIsBlockList` | loader/filesys/fsys_ext2fs.c:541-619 | the 12 + N + N^2 + N^3 lookup finds the l-th block of the file's flat list, be missing indirect blocks holes or block 0 |
| `Ext2Map.MissingIndirectBlock` | loader/filesys/fsys_ext2fs.c:541-619 | for every block, on every level: the driver, which reads block 0 for a missing indirect block, finds the block of the sparse file if and only if the words it meets there lead to a zero |
| `Ext2Map.MissingIndirectBlockExample` | loader/filesys/fsys_ext2fs.c:541-619 | volumes on which it does not, with the single, the double and the triple indirect block missing |
| `Ext2Map.Mapper.SetInode` | loader/filesys/fsys_ext2fs.c:935-936 | a new inode invalidates both buffers |
| `Ext2Map.Mapper.BorrowBuffer` | loader/filesys/fsys_ext2fs.c:1147 | the directory scan borrows the second buffer and says so |
| `Ext2Map.Mapper.Load1` | loader/filesys/fsys_ext2fs.c:554-560 | the first buffer holds the indirect block its tag names |
| `Ext2Map.Mapper.MapDouble` | loader/filesys/fsys_ext2fs.c:566-587 | the double indirect lookup, reusing either buffer; a pointer 0xffffffff with an empty buffer is taken for a hit and read from whatever the buffer contains |
| `Ext2Map.Mapper.MapTriple` | loader/filesys/fsys_ext2fs.c:589-619 | the triple indirect lookup, both lower levels through the second buffer |
| `Ext2Map.Mapper.BlockMap` | loader/filesys/fsys_ext2fs.c:517-620 | after any calls the answer is that of the lookup without buffers, but for that one pointer, and the block of the flat list; it is the block of the sparse file if and only if the words met in block 0 lead to a zero |
| `Ext2Map.PieceHasBytes` | loader/filesys/fsys_ext2fs.c:769-807 | bytes of one data block are the bytes of the file at the position shift and mask give |
| `Ext2Map.Mapper.ReadPiece` | loader/filesys/fsys_ext2fs.c:769-807 | one round delivers what one block has of the range, zeros for block 0 |
| `Ext2Map.Mapper.Read` | loader/filesys/fsys_ext2fs.c:739-813 | a read delivers the bytes of the file's blocks, those of the sparse file where block 0 leads to zeros, and stops short only at a block number that is negative as an int; but for one, it fails only if it needs a block that cannot be read |
| `Ext2Layout.LookupIsDivision` | loader/filesys/fsys_ext2fs.c:517-620 | the words 0 to 11, 12, 13 and 14 of the inode, and quotients and remainders by the words of a block |
| `Ext2Layout.BytesMakeWord` | loader/filesys/fsys_ext2fs.c:769-812 | four bytes, lowest first, make a word of a block |
| `Ext2Layout.ByteIsDivision` | loader/filesys/fsys_ext2fs.c:739-813 | a byte of the file is that byte of the block found by division |
| `Ext2Layout.ReadWritten` | loader/filesys/fsys_ext2fs.c:739-813 | so is every byte that a read delivers |
| `Ext4Extents.BinarySearch` | loader/filesys/fsys_ext2fs.c:626-662 | the last entry whose key is not above the block, or the first entry |
| `Ext4Extents.PickLeadsToExtent` | loader/filesys/fsys_ext2fs.c:701-720 | the index entry picked leads to the extent that covers the block |
| `Ext4Extents.PickIsExtent` | loader/filesys/fsys_ext2fs.c:722-734 | in the leaf the pick is the covering extent |
| `Ext4Extents.CoveringIsReached` | loader/filesys/fsys_ext2fs.c:701-734 | an extent of the tree that covers the block is the one the picks lead to |
| `Ext4Extents.CoveredBlockFound` | loader/filesys/fsys_ext2fs.c:701-734 | a covered block is found if and only if no number on its way is too long and no node lacks its magic number |
| `Ext4Extents.AnswerForUncoveredBlock` | loader/filesys/fsys_ext2fs.c:722-734 | a block no extent of the tree covers is answered if and only if it is the one just behind the extent its picks lead to, or lies in front of that extent |
| `Ext4Extents.OneBlockTooMany` | loader/filesys/fsys_ext2fs.c:729-734 | a leaf with a gap of six blocks, of which the first is answered and the others are refused |
| `Ext4Extents.AnswersBeforeLeaf` | loader/filesys/fsys_ext2fs.c:729-734 | a leaf that starts with a gap, all of whose blocks are answered |
| `Ext4Extents.SearchLeaf` | loader/filesys/fsys_ext2fs.c:722-734 | a leaf answers from the extent picked, the only one that can cover the block |
| `Ext4Extents.BlockMap` | loader/filesys/fsys_ext2fs.c:668-736 | the result for every block, from the extent its picks lead to: the only one that can cover it; a block that is not covered is answered exactly just behind or in front of that extent |
| `Ext4Files.HasIsAll` | loader/filesys/fsys_ext2fs.c:668-736 | the extents of a stored tree are those of its leaves |
| `Ext4Files.DividedIsOrdered` | loader/filesys/fsys_ext2fs.c:668-736 | a tree each of whose subtrees has the extents from its key up to the next is one the search can be used on |
| `Ext4Files.BlockMapStored` | loader/filesys/fsys_ext2fs.c:668-736 | every block that an extent has is found at its place behind the start of the extent |
| `TrackBuffer.PiecesSplit` | loader/preldr/dskaccess.c:210-227 | the sectors of a range are those of its parts |
| `TrackBuffer.PiecesAreSources` | loader/preldr/dskaccess.c:211-226 | the bytes named by the events of a range are the bytes of the range |
| `TrackBuffer.Continue` | loader/preldr/dskaccess.c:204-234 | appending what one virtual track delivered keeps data, events and position in step |
| `TrackBuffer.BehindTheEnd` | loader/preldr/dskaccess.c:118-122 | the geometry error is raised only for a range that reaches behind the disk |
| `TrackBuffer.Reader.LoadTrack` | loader/preldr/dskaccess.c:142-179 | a whole track, or its rest when more tracks follow, puts the bytes in the buffer |
| `TrackBuffer.Reader.LoadNeeded` | loader/preldr/dskaccess.c:165-176 | the fallback loads just the sectors needed |
| `TrackBuffer.Reader.Report` | loader/preldr/dskaccess.c:206-227 | the events are the sectors the bytes come from |
| `TrackBuffer.Reader.ReadTrack` | loader/preldr/dskaccess.c:95-235 | one round delivers what one virtual track has of the range, from the buffer or the BIOS |
| `TrackBuffer.Reader.RawRead` | loader/preldr/dskaccess.c:79-238 | success means the disk's bytes, every sector reported in order and a true tag; a false tag needs a range that starts inside the last track and leaves the disk, and such a range does put the rest of that track under the tag of the whole; what the buffer holds under the tag is delivered; a range on a reliable disk that ends with a track is always read |
| `TrackBuffer.WrongBytes` | loader/preldr/dskaccess.c:118-235 | after such a range, a read from the start of the last track succeeds with the bytes of other sectors |
| `TrackBuffer.WrongBytesExample` | loader/preldr/dskaccess.c:118-235 | a disk on which these are not the bytes asked for |
| `TrackBuffer.Reader.DevRead` | loader/preldr/dskaccess.c:340-376 | reads within a partition and reports its sectors, whatever their size, refuses exactly the ranges that leave it, and keeps a right tag right as long as the partition lies on its disk |
| `Numbers.ReversedDigitsAreDigits` | loader/shared/convtoascii.c:28-47 | the digits written backwards and reversed are the number |
| `Numbers.ReverseInPlace` | loader/shared/convtoascii.c:36-47 | the swapping loop reverses the text in place |
| `Numbers.WriteDigits` | loader/shared/convtoascii.c:28-33 | the division loop writes the digits, last one first |
| `Numbers.ConvertToAscii` | loader/shared/convtoascii.c:10-50 | decimal, hexadecimal and signed output of a 32-bit number |
| `Numbers.TakeDigit` | loader/shared/safeparsemaxint.c:34-56 | a digit is taken if and only if the number stays within MAXINT |
| `Numbers.ValueGrows` | loader/shared/safeparsemaxint.c:49 | a prefix of the digits that is too large makes the number too large |
| `Numbers.SafeParseMaxint` | loader/shared/safeparsemaxint.c:10-69 | accepts exactly the numbers up to MAXINT, whole, and says where they end |
| `Numbers.ValueOfDigits` | loader/shared/convtoascii.c:28-47 | printed digits have the value printed |
| `Numbers.ParsePrinted` | loader/shared/safeparsemaxint.c:10-69 | a printed number parses back to itself, up to the first character behind it |
| `NotationExamples.DigitTable` | loader/shared/convtoascii.c:20-50 | the sixteen digits, in lower case, and in either case when parsed |
| `NotationExamples.Conversions` | loader/shared/convtoascii.c:20-50 | 0xDEADBEEF, 2^32 - 7 as a signed number, and 2^32 - 1 |
| `NotationExamples.LargestNumber` | loader/shared/safeparsemaxint.c:10-68 | 2^31 - 1 is the largest number taken |
| `Blocklists.PrintAppend` | loader/loader/commands.c:1808-1828 | appending an entry to the text appends it to the list |
| `Blocklists.AgreeExtended` | loader/loader/commands.c:1800-1805 | a sector that continues the run extends what is named by it |
| `Blocklists.AgreePart` | loader/loader/commands.c:1825-1831 | a read inside a sector becomes an entry for those bytes |
| `Blocklists.AgreeRun` | loader/loader/commands.c:1808-1821 | printing part of the pending run names the same sectors |
| `Blocklists.Printer.Flush` | loader/loader/commands.c:1806-1823 | the pending run is printed, its last sector apart if it was not read to the end |
| `Blocklists.Printer.Record` | loader/loader/commands.c:1790-1838 | after any events, printed entries and pending run name exactly the sectors read, in order |
| `Blocklists.Printer.RecordAll` | loader/loader/commands.c:1790-1838 | and so after all that one read reports |
| `Blocklists.Printer.Finish` | loader/loader/commands.c:1883-1887 | the text lists entries that expand to exactly the sectors read, none of which ends between two whole sectors that follow each other |
| `BlocklistCommand.PiecesRecordable` | loader/preldr/dskaccess.c:206-227 | the events of a read are pieces of single sectors, as the printer takes them |
| `BlocklistCommand.ReadRecorded` | loader/loader/commands.c:1876-1881 | a read through devread with the hook set records the sectors of the range, in order |
| `BlocklistCommand.ReadRequests` | loader/loader/commands.c:1876-1881 | reading a file piece by piece records its sectors, whose bytes are those read |
| `BlocklistCommand.SourceByte` | loader/loader/commands.c:1790-1829 | byte m of what was read is byte m % 512 of the sector number m / 512 recorded |
| `BlocklistCommand.ByteReadBack` | loader/loader/commands.c:1790-1887 | it is the byte that the printed list addresses there |
| `BlocklistCommand.PrintedOpens` | loader/loader/commands.c:1841-1887 | the text printed opens on the same drive and partition, unless it has more than 4093 entries |
| `BlocklistCommand.ReadAgain` | loader/loader/commands.c:1790-1887 | a file that is read, listed and read again by its list has the same bytes |
| `BlockFiles.ParseItem` | loader/preldr/func.c:478-509 | one item of a list: an extent, the last extent, a size limit, or an error |
| `BlockFiles.ParseList` | loader/preldr/func.c:471-532 | what a name opens to, for every text |
| `BlockFiles.ListIsProper` | loader/preldr/func.c:476-532 | a list that opens has no empty extent, at most 4093 of them, and no more bytes than they hold |
| `BlockFiles.SizeGrows` | loader/preldr/func.c:511 | the size kept in an int is that of the extents modulo 2^32 |
| `BlockFiles.PrintedListParses` | loader/preldr/func.c:476-532 | a printed list of runs parses to its extents and their size if and only if they fit the table |
| `BlockFiles.ListOpens` | loader/preldr/func.c:518 | so a printed list opens if and only if it has at most 4093 entries |
| `BlockFiles.AddressOfExpand` | loader/preldr/func.c:609-658 | byte o of sector k of the file is that byte of the k-th sector listed |
| `BlockFiles.BlocklistOpens` | loader/preldr/func.c:471-532 | the list printed for the sectors read opens, with their size |
| `BlockFiles.BlocklistNames` | loader/loader/commands.c:1790-1880 | every byte of the opened file is the byte of the sector that was read at its place |
| `BlockFiles.AddressSkips` | loader/preldr/func.c:623-640 | stepping over extents does not change where a position is |
| `BlockFiles.File.NextSector` | loader/preldr/func.c:629-637 | the cursor steps to the next sector, over extents, without leaving the list |
| `BlockFiles.File.RunUp` | loader/preldr/func.c:615-644 | the cursor reaches the sector of the file position, even when its own position lies ahead within it |
| `BlockFiles.SmallAdvances` | loader/preldr/func.c:646-657 | all rounds of a read go forward if no extent has 2^31 bytes or more |
| `BlockFiles.EndlessRead` | loader/preldr/func.c:476-658 | a list that opens as a file of 512 bytes, the first round of whose reading takes none |
| `BlockFiles.File.ReadPiece` | loader/preldr/func.c:646-662 | one round delivers bytes of one extent, as many as an int says it has left |
| `BlockFiles.File.Read` | loader/preldr/func.c:584-669 | after any reads and seeks, the bytes the extents name from the position on, as many as asked for and left; but for failures it is stuck if and only if a round comes that does not go forward; on a reliable disk a read fails only for a byte off its end |
| `BlockFiles.File.Seek` | loader/preldr/func.c:684-691 | moves within the file, or refuses |
| `DeviceNotation.Devices.SanePartition` | loader/setdev.c:32-51 | which drives and partitions are sane |
| `DeviceNotation.Devices.ParseDrive` | loader/setdev.c:91-150 | the drive part of a name |
| `DeviceNotation.Devices.ParsePartition` | loader/setdev.c:160-197 | the partition part of a name |
| `DeviceNotation.Devices.SetDevice` | loader/setdev.c:55-225 | what every text means as a device: drive and partition, a name to complete, or which error |
| `DeviceNotation.ParsedIsSane` | loader/setdev.c:210-214 | whatever the text, a device that is parsed is sane and its name stands in parentheses |
| `DeviceNotation.DriveReads` | loader/loader/commands.c:1861-1867 | a printed drive is parsed as that drive |
| `DeviceNotation.PartReads` | loader/loader/commands.c:1869-1875 | a printed partition, PC, BSD, both or none, is parsed as that partition |
| `DeviceNotation.DeviceRoundTrip` | loader/setdev.c:55-225 | a printed sane device name is parsed as the device it was printed for |
| `DeviceNotation.PrintedFileOpens` | loader/loader/commands.c:1841-1887 | the whole text printed for a file opens on its drive and partition as the list of its sectors |
| `NotationExamples.NamedDrive` | loader/setdev.c:91-150 | fd, hd and ld add 0, 128 and 192 to the number |
| `NotationExamples.SavedDrive` | loader/setdev.c:80-150 | without a number it is the saved drive |
| `NotationExamples.PartitionLimit` | loader/setdev.c:167-178 | a PC partition above 254, or on a diskette, is refused |
| `NotationExamples.SavedPartition` | loader/setdev.c:199-208 | a comma without a partition names the saved one |
| `NotationExamples.SaneBytes` | loader/setdev.c:32-51 | which drives and partitions are sane, on the bytes of their numbers |
| `NotationExamples.Names` | loader/loader/commands.c:1841-1870 | (hd0,0), (hd1,2,c), (hd0,a), (fd1) and (cd) |
| `NotationExamples.ListText` | loader/loader/commands.c:1790-1887 | a list of a run and a part of a sector |
| `NotationExamples.BehindList` | loader/preldr/func.c:478-509 | a list ends at the end of the text, a slash or a space |
| `NotationExamples.OmittedStart` | loader/preldr/func.c:478-509 | an extent without a start starts at sector 0 |
| `NotationExamples.LimitedList` | loader/preldr/func.c:476-532 | a size behind the last extent limits the file, and is refused if the extents do not have it |
| `Conditionals.ShellFacts` | loader/loader/pp.c:97-163 | what a skipped region leaves keeps its nesting and means nothing |
| `Conditionals.PassFacts` | loader/loader/pp.c:64-181 | a pass keeps a text well nested, resolves exactly one level and keeps the meaning up to blank lines |
| `Conditionals.KeptLines` | loader/loader/pp.c:97-106 | inside a branch that is kept everything is copied |
| `Conditionals.DroppedLines` | loader/loader/pp.c:119-150 | inside a branch that is dropped only the shells of inner conditionals are copied |
| `Conditionals.PassIsPassLines` | loader/loader/pp.c:75-180 | the run over lines with count, skip and flag does what a pass does to the structure |
| `Preprocessor.EnterCond` | loader/loader/pp.c:78-98 | an outermost !ifeq line is read with any spacing and decides which branch is kept |
| `Preprocessor.SwitchBranch` | loader/loader/pp.c:108-118 | the !else of an outermost conditional switches branches |
| `Preprocessor.EndIfLine` | loader/loader/pp.c:135-162 | the three cases of !endif |
| `Preprocessor.Classify` | loader/loader/pp.c:78-135 | what a line is can be told from its first characters |
| `Preprocessor.OneLine` | loader/loader/pp.c:75-180 | one round of the loop does to the text what the run over lines does |
| `Preprocessor.SubstIf` | loader/loader/pp.c:64-181 | one pass over the text is the run over its lines; the length reported is the number of characters written |
| `Preprocessor.FirstIf` | loader/loader/pp.c:213 | the first !if of a text starts a line, and there is one unless all lines are plain |
| `Preprocessor.TestIf` | loader/loader/pp.c:213 | the search finds an !if in the text exactly if a conditional is left, and else goes on behind it |
| `Preprocessor.PassWellFormed` | loader/loader/pp.c:210-213 | what a pass leaves is fit for the next one |
| `Preprocessor.OnePass` | loader/loader/pp.c:211-213 | after a pass the loop goes on exactly if a conditional is left, or the memory behind the text looks like one |
| `Preprocessor.FlatDoc` | loader/loader/pp.c:213 | a text without conditionals is its meaning |
| `Preprocessor.Preprocess` | loader/loader/pp.c:210-213 | the loop leaves the text the conditionals stand for, up to blank lines; it takes one pass for every level of nesting, and more exactly if the memory behind the text looks like a conditional then |
| `ConditionalExamples.MeaningIsKept` | loader/loader/pp.c:64-206 | what a file stands for are the lines all of whose open conditionals hold |
| `ConditionalExamples.PreprocessKept` | loader/loader/pp.c:210-213 | preprocessing leaves these lines, up to blank ones |
| `ConditionalExamples.Example` | loader/loader/pp.c:64-213 | a file of ten lines with a conditional inside another |
| `MemoryMap.TopIsUnique` | loader/preldr/common.c:86-117 | the top depends on nothing but which addresses are available |
| `MemoryMap.SameRegions` | loader/preldr/common.c:94-110 | order and repetition of regions do not matter |
| `MemoryMap.AboveShrinks` | loader/preldr/common.c:104-108 | each raise of the top leaves fewer regions ending above it |
| `MemoryMap.Mmap.Pass` | loader/preldr/common.c:94-110 | a pass raises the top past available addresses only, and not at all exactly if it is final |
| `MemoryMap.Mmap.AvailAt` | loader/preldr/common.c:86-117 | everything up to the top is available and the top is not; the size is their difference in 32 bits |
| `MemoryMap.AvailableMemory` | loader/preldr/common.c:94-110 | available are the addresses of regions of type 1, from base up to base plus length |
| `MemoryMap.Example` | loader/preldr/common.c:86-117 | a machine of 512 MB with a hole below 1 MB |

## Left out

Deviations inside the modelled operations:

- ReiserJournal.Journal.BlockRead: reads in words rather than bytes, and reads of the disk succeed. The mask with
  count - 1 is modelled as the remainder by count; the mount code initialises the journal only for powers of two.
- ReiserJournal.Journal.JournalInit: for journals of 65536 blocks or more the 16-bit count is the run's length modulo
  2^16, and reads then see only that many transactions.
- ReiserItems.VisitStored: nodes are taken as decoded; the bytes of keys and item heads are not modelled.
- Ext4Files.BlockMapStored: the same goes for the nodes of the extent tree.
- ReiserTree.Cursor.SearchStat: blocks are read successfully; a read that fails half-way leaves a slot that no longer
  holds the block the path names, which is not modelled.
- FatFile.Reader.ReadChain: reads of the disk succeed. The source updates `cached_fat` before a read of the table has
  succeeded, so a failed read leaves a wrong tag (fsys_fat.c:505-510). Sector arithmetic is not cut to 32 bits.
- FatFile.StepIsRight: volumes have fewer than 2^29 clusters, 2^28 on FAT32. On a larger exFAT volume the position of an
  entry does not fit 32 bits.
- FatFile: the root directory of FAT12 and FAT16 is not modelled as a special case. The mount code marks it with -1,
  the read tests for MAXINT (fsys_fat.c:256 and 435), so the branch is not the one taken.
- LongNames.Names.Lookup: how a name is compared with the path is a parameter, directory entries are taken as decoded
  from their 32 bytes, and exFAT entries are left out.
- Ext2Map.Mapper.BlockMap: block reads fail exactly for blocks outside the volume, and a volume has fewer than 2^31
  blocks.
- Ext2Map.Mapper.Read: the bytes of a file with extents, which the same loop reads, are not modelled.
- TrackBuffer.Reader.RawRead: without the remapping of EZD disks and without loop drives 0xC0 to 0xC7.
- NtfsRuns.Context.ReadBlock: attribute lists, the one-block cache of unaligned reads and sector numbers beyond 32 bits
  are left out.
- NtfsDecompress.Stream.DecompBlock: units stored without compression are left out; their addresses are computed after
  the target VCN has advanced (fsys_ntfs.c:645-648). A displacement before the start of the output is reported as
  undefined, where the source reads whatever precedes the buffer.
- BlockFiles.File.Read: lists whose size wraps to a negative number, and files compressed by gzip, are left out. What
  the source does once a round does not go forward is not followed.
- NtfsDecompress.DecodersAgree: bytes behind the buffer of the flat decoder are 0, where the source reads whatever
  stands there; NtfsDecompress.FlatResultFrame says when that does not matter, which leaves truncated compressed chunks.
- DeviceNotation.Devices.SetDevice: without network drives and without the letter that completion adds to the name;
  an error pending from before the call is not modelled.
- Blocklists.Printer.Record: sectors before the start of the partition are not reported.
- Preprocessor.Preprocess: for texts whose first line is plain, whose lines end in CR LF and which contain `!if` only at
  the start of conditional lines. Variables have a value; names and values are shorter than the 24 characters the
  buffers of the source hold (pp.c:69-70).
- MemoryMap.Mmap.AvailAt: the descriptors' own size fields are not modelled; a region whose end exceeds 64 bits is
  empty, as in the source.

Not modelled at all:

- XFS, JFS, HPFS, ISO 9660, minix, FFS, UFS2 and VSTa: the same ideas again, or drivers in which the natural property
  does not hold (XFS skips an extent behind a hole, JFS and HPFS lose their place when they change pages).
- Path parsing, symbolic links, directory search and completion: text handling around the drivers.
- Writing to disk, inside the track buffer and elsewhere: the cached track is invalidated with a different track size
  than it is loaded with.
- `!include`, variables, menus, the configuration editor, and the start of kernels.
- BIOS calls, ports, terminals and graphics.
