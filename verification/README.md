# A verified model of the simple FAT file system

`libfs/fs.c` keeps files as linked lists of data blocks threaded through one table, the FAT. This project
models that file system in Dafny and proves what its calls do to the bytes of files, over single calls and
over whole runs.

| file | contents |
|---|---|
| `Types.dfy`, `Names.dfy` | C integer widths, on-disk records, NUL-terminated names and `streq` |
| `Blocks.dfy` | contents of a chain of blocks, overwriting a byte range, the head / whole blocks / tail split, for every block size |
| `Chains.dfy` | chains in the table, the free list, first-fit extension |
| `Volume.dfy` | a mounted volume as a value, its invariant `WellFormed`, and the relation `Next` that says what each call does |
| `Invariant.dfy` | every call keeps the invariant |
| `Flat.dfy`, `Refinement.dfy` | a file system without blocks (a map from names to byte sequences), and the proof that every call on a volume is a call on it |
| `Runs.dfy`, `Accounting.dfy`, `Histories.dfy` | safety, refinement, attachment of descriptors, conservation of blocks, round trips and appends over runs |
| `Outcomes.dfy` | every call has exactly one outcome, except the delete that hangs |
| `Descriptors.dfy`, `Transfers.dfy`, `Deletion.dfy`, `LongDeletes.dfy` | when calls fail, and where they meet or miss the interface documented in `libfs/fs.h` |
| `Witnesses.dfy` | a concrete volume on which each deviation happens |
| `Codec.dfy`, `Mounting.dfy` | the on-disk form of table and root directory, unmount followed by mount |
| `Superblocks.dfy` | block 0 and its checks; whole sessions of mount, calls, unmount and mount from the bytes on disk |
| `Calls.dfy`, `Images.dfy` | the calls and the image once more in plain terms: entries, bytes and numbers, without the definitions that specification and code share |
| `FileSystem.dfy` | class `FileSystem`: the calls themselves, with loops over the mutable table, root directory, descriptor table and disk, each proved to do what `Next` says |

The block size is a parameter (`Volume.B`, `FileSystem.B`); only mount and unmount fix it to 4096. Errors are
modelled as the source reports them: a NULL name or buffer, a bad descriptor, an unmounted disk, a full
directory, a full descriptor table and a full disk are inputs, not preconditions. The ghost field `chains`
lists the blocks of each file; the table determines it (`Chains.ChainUnique`).

## Where the code differs from its documentation

The model follows the code. Each deviation has its exact condition, and a well-formed volume and call on which it
happens.

* `fs_delete` zeroes a table entry before following it. It reclaims a file's blocks exactly when the file has at most
  one (`Deletion.DeleteReclaimsIff`, `Deletion.SourceIsCorrectedIff`; witness `Witnesses.LongDeleteLosesBlock`). The
  first delete of a longer file spends the mark of entry 0, which no call restores (`LongDeletes.RunMark`); every later
  delete of a longer file never returns (`LongDeletes.SecondLongDeleteHangs`; witness `Witnesses.SecondDeleteHangs`),
  and the volume can be mounted again exactly when there was none (`LongDeletes.RemountAfterRunIff`,
  `Superblocks.SessionRemounts`).
* `fs_write` records a wrong size exactly as `Transfers.WriteSizeIff` says: it adds the byte count even where it
  overwrites, and nothing when it runs out of blocks (witnesses `Witnesses.OverwriteGrowsSize`,
  `Witnesses.ShortWriteStays`).
* A transfer that runs out of blocks does not move the offset, and offsets wrap at 65536. The offset advances by the
  bytes transferred exactly as `Transfers.ReadOffsetIff` and `Transfers.WriteOffsetIff` say (witnesses
  `Witnesses.ShortReadStays`, `Witnesses.ShortWriteStays`).
* `fs_read` stops at the last block of the file, not at the recorded size (`Transfers.ReadStopsAtSizeIff`; witness
  `Witnesses.ReadPassesSize`), and a request for 0 bytes in the middle of a block that is not the last stores a whole
  block and returns -1 (`Transfers.ReadFailsIff`; witness `Witnesses.EmptyReadFails`).
* `fs_lseek` stores its argument modulo 65536 (`Descriptors.LseekSetsIff`; witness `Witnesses.SeekWraps`), so the
  documented way to append reaches the end of the file exactly for sizes below 65536 (`Descriptors.StatSeekIff`,
  `Transfers.StatSeekWrite`).
* `load_fat` and `fs_umount` step through the table in strides of 4096 entries while a block holds 2048. The table
  survives exactly when it fits one block (`Mounting.FatRoundTripIff`); a larger one may also be loaded past the end of
  its buffer (`Mounting.LoadDefinedIff`).
* `fs_umount` does not refuse when files are open: its return value is the documented one exactly when nothing is
  mounted or no descriptor is open (`FileSystem.Umount`).

## Model

| member | source | states |
|---|---|---|
| Names.Streq | libfs/fs.c:82-92 | streq returns 0 exactly when the stored name is the given string, so it agrees with strcmp |
| Blocks.NumTargetBounds | libfs/fs.c:402-411 | the target is the least number of blocks that covers the transfer |
| Blocks.Tiling | libfs/fs.c:990-1021 | for every offset, count > 0 and block size, head, whole blocks and tail are in order, adjacent and cover exactly the request, with 0 <= tail < B |
| Blocks.SplitHolds | libfs/fs.c:1167-1183 | the amounts the stages compute form such a split |
| Blocks.ContentsUpdate | libfs/fs.c:1040 | rewriting one block of a chain splices it into the flat contents |
| Blocks.WriteStep | libfs/fs.c:977-1003 | read-modify-write of a block extends the written range and touches nothing else |
| Chains.ChainAcyclic | libfs/fs.c:444-446 | a terminated chain never meets itself, so the unbounded walks end |
| Chains.ChainUnique | libfs/fs.c:444-446 | table and first index determine the chain |
| Chains.FreeFacts | libfs/fs.c:454-456 | the free list is exactly the allocatable entries, ascending |
| Chains.ExtendFree | libfs/fs.c:451-471 | extending a chain by the first n free blocks leaves exactly the other free blocks |
| Chains.GrowNext | libfs/fs.c:454-463 | linking the least free entry behind the tail extends the chain by the next free block |
| Chains.GrowEnd | libfs/fs.c:467-470 | allocation stops for want of a free entry only when all of them have been appended |
| FileSystems.FileSystem.FindMatchingFilename | libfs/fs.c:357-365 | finds the least entry with the name |
| FileSystems.FileSystem.FindEmptyRootEntry | libfs/fs.c:342-350 | finds the least entry not in use |
| FileSystems.FileSystem.AddFileToFdArray | libfs/fs.c:370-398 | takes the least free slot and counts it, or changes nothing when all 32 are taken |
| FileSystems.FileSystem.FindDataBlock | libfs/fs.c:480-498 | returns the n-th block of the abstract chain, or FAT_EOC beyond its end |
| FileSystems.FileSystem.AllocateFirstBlock | libfs/fs.c:425-439 | an empty file gets the least free block, or nothing changes when there is none |
| FileSystems.FileSystem.FindTail | libfs/fs.c:444-446 | the walk ends at the last block with the length of the chain |
| FileSystems.FileSystem.ExtendChain | libfs/fs.c:451-471 | appends exactly the next free blocks up to the target, or all of them |
| FileSystems.FileSystem.AllocateBlocksInFat | libfs/fs.c:414-475 | first-fit extension: old chain plus the smallest free indices, every other entry unchanged, failure exactly when they do not suffice |
| FileSystems.FileSystem.Create | libfs/fs.c:670-712 | does what CreateNext says and keeps the invariant |
| FileSystems.FileSystem.FreeBlocks | libfs/fs.c:745-754 | the freeing loop as written, with its effect on the table |
| FileSystems.FileSystem.Delete | libfs/fs.c:714-762 | does what DeleteNext says and keeps the invariant, wherever its loop ends |
| FileSystems.FileSystem.Open | libfs/fs.c:786-813 | does what OpenNext says and keeps the invariant |
| FileSystems.FileSystem.Close | libfs/fs.c:815-844 | does what CloseNext says and keeps the invariant |
| FileSystems.FileSystem.Stat | libfs/fs.c:846-865 | the recorded size as a C int: itself up to 2147483647, less 4294967296 beyond |
| FileSystems.FileSystem.Lseek | libfs/fs.c:867-893 | does what LseekNext says: refuses beyond the recorded size, stores the offset modulo 65536 |
| FileSystems.FileSystem.WriteHead | libfs/fs.c:948-1015 | the partial first block, or nothing when it is missing |
| FileSystems.FileSystem.WriteFullBlocks | libfs/fs.c:1022-1052 | whole blocks up to the end of the request or of the chain |
| FileSystems.FileSystem.WriteTail | libfs/fs.c:1056-1106 | the partial last block, or nothing when it is missing |
| FileSystems.FileSystem.WriteStages | libfs/fs.c:948-1106 | stores exactly the bytes the chain reaches and changes no other byte |
| FileSystems.FileSystem.Write | libfs/fs.c:895-1111 | does what WriteNext says and keeps the invariant |
| FileSystems.FileSystem.ReadHead | libfs/fs.c:1147-1179 | the part of the first block the request covers |
| FileSystems.FileSystem.ReadFullBlocks | libfs/fs.c:1186-1213 | the bytes of the whole blocks, in order |
| FileSystems.FileSystem.ReadRest | libfs/fs.c:1181-1247 | the remainder check never fails for count > 0, and fails for count 0 exactly when a block was read |
| FileSystems.FileSystem.Read | libfs/fs.c:1113-1253 | does what ReadNext says and keeps the invariant |
| FileSystems.FileSystem.FreeFatEntries | libfs/fs.c:641-646 | the printed count is the number of zero entries: the length of the free list, plus one once entry 0 has lost its mark |
| FileSystems.FileSystem.Mount | libfs/fs.c:500-543 | from the bytes of any disk whose table fits the load buffer: accepts exactly when block 0, entry 0 and the padding pass their checks, loads superblock, table and root, empties the descriptor table, keeps the counter and the disk |
| FileSystems.FileSystem.Umount | libfs/fs.c:545-621 | writes the image UnmountedDisk and never refuses; every block other than the table's and the root block, block 0 included, keeps its bytes; the result is the documented one exactly when unmounted or nothing is open |
| FileSystems.LeaveAndReturn | libfs/fs.c:500-621 | unmount followed by mount succeeds exactly when entry 0 is intact, and then table, root and files are the same; block 0 and every block outside table and root keep their bytes |
| Volumes.FindName | libfs/fs.c:357-365 | least matching entry or none |
| Volumes.FindEmpty | libfs/fs.c:342-350 | least unused entry or none |
| Volumes.FindFd | libfs/fs.c:388-395 | least free slot or none |
| Invariant.CreateKeeps | libfs/fs.c:670-712 | create keeps chains, names and descriptors well-formed |
| Invariant.DeleteKeeps | libfs/fs.c:714-762 | delete as written keeps them too |
| Invariant.WrittenKeeps | libfs/fs.c:895-1111 | write keeps them on full and on short allocation |
| Invariant.NextKeepsWellFormed | libfs/fs.c:670-1253 | the invariant is inductive: chains in bounds, terminated, disjoint, off entry 0; names unique; descriptors on live files; counter exact |
| Refinement.AbsFull | libfs/fs.c:342-350 | the directory is full exactly when the flat model holds 128 files |
| Refinement.WriteRefines | libfs/fs.c:895-1111 | a block-wise write is an overwrite of a flat byte sequence |
| Refinement.ReadRefines | libfs/fs.c:1113-1253 | a block-wise read is a slice of a flat byte sequence |
| Refinement.DeleteRefines | libfs/fs.c:714-762 | delete removes the name, gives back one block at most and may spend the mark of entry 0 |
| Refinement.NextRefines | libfs/fs.c:670-1253 | every call is a call of the flat model with the same return value and the same bytes |
| Descriptors.OpenFailsIff | libfs/fs.h:99-118 | open fails exactly for NULL, a name not of 1 to 15 bytes, a missing file or 32 open descriptors, despite the loose guard; otherwise least free descriptor at offset 0 |
| Descriptors.DeleteFailsIff | libfs/fs.h:76-88 | delete refuses exactly NULL, a name not of 1 to 15 bytes, a missing file or an open one |
| Descriptors.CreateFailsIff | libfs/fs.h:60-74 | create fails exactly for NULL, a name not of 1 to 15 bytes, an existing file or a full directory; otherwise it adds one empty file |
| Descriptors.LseekSetsIff | libfs/fs.h:125-143 | a seek sets the offset to its argument exactly up to the recorded size and below 65536 |
| Descriptors.StatSeekIff | libfs/fs.h:134-138 | a seek to what stat returned reaches the recorded end exactly for sizes below 65536, and is refused exactly beyond 2147483647 |
| Transfers.WriteIsMaximal | libfs/fs.h:157-160 | write returns min(count, max(0, (L+F)*B - offset)): the longest prefix the disk has room for |
| Transfers.WriteCorrect | libfs/fs.c:948-1106 | buffer at the offset, every other byte of this file, of other files and of the metadata blocks unchanged |
| Transfers.WriteIsDetermined | libfs/fs.c:895-1111 | the specification of write has one outcome |
| Transfers.WriteSizeIff | libfs/fs.c:1109 | the recorded size grows just enough to cover the bytes stored exactly for appends that fit room and 32 bits, or, without room, when nothing is stored past the size |
| Transfers.WriteOffsetIff | libfs/fs.c:1108 | the offset advances by the bytes stored exactly when there was no room, or room for all and the new offset fits 16 bits |
| Transfers.ReadCorrect | libfs/fs.c:1138-1250 | read returns the covered bytes and changes only its own offset, which moves exactly when the file's blocks hold the whole request |
| Transfers.ReadOffsetIff | libfs/fs.h:180-181 | the offset advances by the bytes read exactly when there was nothing to read, or the whole request and the new offset fits 16 bits |
| Transfers.ReadFailsIff | libfs/fs.c:1215-1220 | read of an open file returns -1 exactly for an empty request inside a block that is not the last |
| Transfers.ReadStopsAtSizeIff | libfs/fs.h:178-181 | read returns the documented number of bytes exactly when recorded size and capacity agree on the request |
| Transfers.StatSeekWrite | libfs/fs.h:134-138 | a write after seeking to what stat returned starts at the recorded end exactly for sizes below 65536 |
| Transfers.WritesAreShared | libfs/fs.c:1108-1109 | flat form, one step: what one descriptor writes another on the same file reads, its offset unmoved |
| Histories.WritesAreSeenByOthers | libfs/fs.c:1108-1109 | over runs: after a write and calls that leave the file alone, a read through another descriptor inside the stored range returns the written bytes |
| Deletion.FreeingEndsIff | libfs/fs.c:747-751 | the freeing loop ends exactly for at most one block or an intact entry 0 |
| Deletion.DeleteReclaimsIff | libfs/fs.c:744-754 | all and only the file's entries become free exactly for at most one block |
| Deletion.DeleteLosesBlock | libfs/fs.c:747-753 | on a table with one chain of two blocks: the second block and the mark of entry 0 are lost |
| Witnesses.LongDeleteLosesBlock | libfs/fs.c:714-762 | a well-formed volume and a delete call that loses a block and spends the mark of entry 0 |
| Witnesses.SecondDeleteHangs | libfs/fs.c:747-751 | the next delete on that volume passes every check and never returns |
| Witnesses.EmptyReadFails | libfs/fs.c:1168-1220 | a read of 0 bytes that stores a block and returns -1 |
| Witnesses.ReadPassesSize | libfs/fs.h:178-181 | a read that returns 2 bytes of a file of size 1 |
| Witnesses.ShortReadStays | libfs/fs.c:1225-1228 | a read that returns 8192 bytes and leaves the offset at 0 |
| Witnesses.OverwriteGrowsSize | libfs/fs.c:1109 | an overwrite of the only byte that makes the size 2 |
| Witnesses.ShortWriteStays | libfs/fs.c:1065-1070 | a write that stores 12288 bytes and leaves size and offset at 0 |
| Witnesses.SeekWraps | libfs/fs.c:886-891 | a successful seek to 65536 that puts the offset at 0 |
| Deletion.DeleteLeaks | libfs/fs.c:747-753 | every later block is neither free nor in any file afterwards |
| Deletion.DeleteFrame | libfs/fs.c:742-759 | no other file is touched |
| Deletion.ReclaimChain | libfs/fs.c:744-754 | corrected order, not in the source: ends for every chain, reclaims exactly its blocks, free count rises by its length |
| Deletion.ReclaimedFrame | libfs/fs.c:742-759 | reclaiming one chain leaves every other chain as it was |
| Deletion.CorrectedKeeps | libfs/fs.c:742-759 | corrected order, not in the source: the delete keeps the invariant, entry 0 and every other file |
| Deletion.CorrectedAccounts | libfs/fs.c:742-759 | corrected order, not in the source: the delete loses no block |
| Deletion.SourceIsCorrectedIff | libfs/fs.c:742-759 | the source's delete is the corrected one exactly for files of at most one block |
| Deletion.ClearedFree | libfs/fs.c:641-646 | clearing a chain raises the free count by its length |
| LongDeletes.NextMark | libfs/fs.c:747-753 | entry 0 keeps its mark through a call exactly when the call is no accepted delete of a longer file |
| LongDeletes.RunMark | libfs/fs.c:747-753 | over runs the mark is there exactly while no such delete was accepted |
| LongDeletes.SecondLongDeleteHangs | libfs/fs.c:747-751 | after one such delete the next one runs forever and has no outcome |
| LongDeletes.RemountAfterRunIff | libfs/fs.c:286-289 | the image left by a run mounts again exactly when the run accepted no such delete |
| Outcomes.WriteHasOutcome | libfs/fs.c:895-1111 | from every well-formed state a write has an outcome |
| Outcomes.NextHasOutcomeIff | libfs/fs.c:670-1253 | from every well-formed state a call has an outcome exactly when it is not a delete that hangs |
| Outcomes.NextIsDetermined | libfs/fs.c:670-1253 | and at most one |
| Runs.RunKeepsInvariant | libfs/fs.c:670-1253 | every state of every run is well-formed |
| Runs.RunRefines | libfs/fs.c:670-1253 | every run is a run of the flat model with the same results and bytes |
| Runs.DescriptorStaysAttached | libfs/fs.c:734-740 | until it is closed, a descriptor stays on its root slot and name, which stay in use |
| Accounting.NextAccounts | libfs/fs.c:641-646 | one call conserves free blocks plus blocks in files, except what a delete loses |
| Accounting.RunConserves | libfs/fs.c:641-646 | over any run, free, used and lost blocks add up to the start |
| Accounting.AccountingIsComplete | libfs/fs.c:641-646 | free + used + 1 never exceeds the number of data blocks and equals it exactly when nothing is lost |
| Accounting.NothingLostOverRun | libfs/fs.c:742-759 | nothing is lost over a run exactly when no delete it accepted was of a file of two or more blocks |
| Accounting.FormattedIsWellFormed | README.md:10-42 | an empty volume satisfies the invariant, with every block but one free |
| Histories.RoundTrip | libfs/fs.c:867-1253 | after a complete write and calls that leave the file alone, seeking back succeeds exactly when the grown size is not below the offset, and reading then returns the written bytes |
| Histories.GrowthIsExact | libfs/fs.c:402-411 | a complete append leaves a file with exactly the blocks it needs |
| Histories.AppendsConcatenate | libfs/fs.c:1108-1109 | a file extended only by complete appends holds the concatenation of the buffers in ceil(size/B) blocks |
| Codec.Concat4Inverse | libfs/fs.c:586-589 | four bytes, least significant first, give the size back |
| Codec.Split4Inverse | libfs/fs.c:104-111 | a size read from four bytes has those bytes |
| Codec.DecodeEncodeRoot | libfs/fs.c:296-337 | parsing a serialised root directory gives the entries back |
| Codec.EncodeDecodeRoot | libfs/fs.c:568-603 | serialising a parsed root block gives the bytes back |
| Codec.SerializeRoot | libfs/fs.c:568-603 | the flat array is the encoding of the root directory |
| Codec.LoadRootDirectory | libfs/fs.c:296-337 | accepts a block exactly when bytes 22 to 31 of each of its 128 entries are zero and then yields its decoding |
| Codec.ParseEntry | libfs/fs.c:307-330 | one entry, field by field from its 32 bytes, refused exactly when one of the last ten is not zero |
| Codec.FatBlockWord | libfs/fs.c:564-566 | the words of a written FAT block are the table entries of its stride |
| Mounting.LoadDefinedIff | libfs/fs.c:257-268 | the load stays inside its buffer exactly for one-block tables and for tables below 32768 entries whose last block is at least half full |
| Mounting.LoadFat | libfs/fs.c:244-284 | the table as loaded, block by block, through a buffer of the source's size |
| Mounting.EntryAfterRemount | libfs/fs.c:273-282 | an entry survives unmount and mount exactly in the first half of its stride |
| Mounting.FatRoundTripIff | libfs/fs.c:564-566 | the load is defined and the table survives, whatever surrounds it in memory, exactly when it fits one block |
| Mounting.RemountIsIdentity | libfs/fs.c:500-621 | for such a table the image loads exactly when entry 0 is intact, and then table, root, chains and files are the same |
| Calls.CreateExactly | libfs/fs.c:670-712 | succeeds exactly for 1 to 15 bytes that no entry carries while one of 128 is unused; first unused entry becomes an empty file of that name, nothing else changes |
| Calls.OpenExactly | libfs/fs.c:786-813 | fails exactly for NULL, 0 or more than 15 bytes, a name no entry carries, or 32 taken slots; otherwise least free slot, offset 0, counter up by one |
| Calls.OpenLast | libfs/fs.c:370-398 | with slots 0 to 30 taken and 31 free, opening an existing file returns 31 |
| Calls.DeleteExactly | libfs/fs.c:714-762 | fails exactly for NULL, 0 or more than 15 bytes, a name no entry carries, or an entry in use by a descriptor; otherwise which table entries and which fields change, and to what |
| Calls.DeleteHangsIff | libfs/fs.c:747-751 | delete has no outcome exactly for an accepted file of two or more blocks while entry 0 is zero |
| Calls.CloseExactly | libfs/fs.c:815-844 | frees the slot and lowers the counter, or fails for any other number |
| Calls.StatExactly | libfs/fs.c:846-865 | the size up to 2147483647, the size less 4294967296 beyond; nothing changes |
| Calls.LseekExactly | libfs/fs.c:867-893 | refuses beyond the size, else stores the offset modulo 65536 and changes nothing else |
| Calls.WriteFailsIff | libfs/fs.c:895-923 | -1 exactly for a bad descriptor or a NULL buffer; a count of 0 changes nothing |
| Calls.WriteBooks | libfs/fs.c:895-1111 | return value, size, offset, first index and everything a write leaves alone, in numbers |
| Calls.WriteAllocates | libfs/fs.c:414-475 | the blocks a write adds: the smallest zero entries, ascending, no more than needed, and all that are needed while there are any |
| Calls.FileBytesAt | libfs/fs.c:1158-1165 | byte j of the k-th block of a file is byte j of disk block data_start_index + the k-th index of its chain |
| Calls.ReadExactly | libfs/fs.c:1113-1253 | return value, bytes and offset of every read |
| Calls.ChainInNumbers | libfs/fs.c:444-446 | the last block of a file is marked 65535 in the table, every other names its successor |
| Calls.RootIff | libfs/fs.h:14-23 | 128 entries, 16-byte terminated names, ten zero padding bytes, no two entries in use with one name |
| Calls.DescriptorsIff | libfs/fs.c:44-48 | 32 slots, open ones on entries in use, the counter is their number |
| Chains.FreeFromCount | libfs/fs.c:641-646 | the length of the free list is the number of zero entries |
| Histories.StatAfterWrite | libfs/fs.c:864 | over runs: after a complete write of n bytes to an empty file and calls that leave it alone, stat returns n |
| Histories.LeavesIff | libfs/fs.c:895-913 | the calls that leave a file alone, on volumes: all but closing the descriptor and writing through one on the same entry |
| Runs.RunGoesOn | libfs/fs.c:670-1253 | any call the specification allows extends any run |
| Codec.RootEntryAt | libfs/fs.c:307-330 | which bytes of the root block each field of entry i is read from |
| Codec.RootLoadsIff | libfs/fs.c:322-330 | the root block is accepted exactly when its 128 times ten padding bytes are zero |
| Images.UnmountFrame | libfs/fs.c:564-606 | unmount writes the blocks of the table and the root block, and no other |
| Images.UnmountEntry | libfs/fs.c:564-566 | word m of FAT block i is entry 4096 * i + m, least significant byte first, or the memory behind the table |
| Images.UnmountMark | libfs/fs.c:564-566 | block 1 begins with 0xFF 0xFF exactly when the mark of entry 0 is intact |
| Images.UnmountRoot | libfs/fs.c:568-606 | root entry i is stored in bytes 32 * i to 32 * i + 31 of the root block, field by field |
| Images.MountReads | libfs/fs.c:244-337 | every entry of table and root of the mounted volume, and the byte positions it is read from |
| Mounting.LoadDefinedInNumbers | libfs/fs.c:257-268 | for any superblock, when the load stays inside its buffer |
| Superblocks.LoadSuperblock | libfs/fs.c:140-236 | accepts block 0 exactly when its numbers and its 4079 padding bytes pass the checks, and yields its five numbers |
| Superblocks.SuperLoadsIff | libfs/fs.c:140-236 | these checks and numbers byte by byte |
| Superblocks.DiskLoadsIff | libfs/fs.c:500-543 | mount byte by byte: block 0, the first two bytes of block 1, the padding of the root block |
| Superblocks.RunKeepsBlockZero | libfs/fs.c:670-1253 | no run of calls changes block 0 or the superblock in memory |
| Superblocks.SessionRemounts | libfs/fs.c:500-621 | the disk left by any run and an unmount is accepted, from its bytes alone, exactly when the run accepted no delete of two or more blocks, and holds the same table, root and files |

## Left out

- The device (`libfs/disk.c`): an in-memory sequence of blocks, whose in-bounds reads and writes succeed.
- Failing block I/O and failing `malloc`.
- The signature of the superblock, which the source copies and never checks.
- `fs_ls`, `printblock` and the output of `fs_info`, of which only the free-entry count is kept.
- Redundant re-reads of blocks into local buffers inside the transfer loops.
- FileSystems.FileSystem.Delete: cannot be called where its loop would not end; Deletion.FreeingEndsIff says exactly where that is.
- FileSystems.FileSystem.Read: the caller's buffer is the returned sequence of bytes stored from its start on, not an array in place, because an empty request can store a whole block into it.
- Descriptors 32 to 127 pass the bound check and index past the table; `Admissible` excludes them, and counts beyond INT_MAX.
- A `File` pointer is the number of its root slot, and root entries are values in an array that the calls update; the source never redirects these pointers during a mount.
- FileSystems.FileSystem.Mount: once block 0 passes its checks, needs a table of at least one entry that fits the load buffer, since the source's behaviour is otherwise undefined, and a root block on the disk, since the source would parse block 0 in its place; the invariant follows when the image is well-formed and no descriptor was left open by an earlier mount, since the source does not reset its counter; and after a failed mount nothing but the result is promised.
- Mounting.LoadFat: does not cover tables loaded past the end of the buffer, whose behaviour is undefined; Mounting.LoadDefinedIff says exactly which those are.
- The words past the end of the table that fs_umount reads, and the uninitialised words of the load buffer, are arbitrary.
- Freeing and lifetimes of heap memory.
