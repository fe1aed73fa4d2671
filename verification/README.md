# A verified model of the arm-kernel

The model covers the parts of the kernel where a mistake would be costly: the inode filesystem with
its block allocator, the open-file tables, the ready queue and scheduler, the synchronous message
channels, and the number printer and parser of the user library.

`dafny verify dfyconfig.toml` checks everything.

## How it is built

Filesystem, bottom up:

* `Bytes`, `Formats` give the little-endian word view of 512-byte blocks and the on-disk records.
* `FreeChain`, `FormatList`, `FreeBlocks` hold the free list. Its meaning is one stack of addresses:
  the chunk in memory on top, the full chunks in free blocks below. Class `Store` is the superblock in
  memory over the disk; it keeps a ghost log of every disk image, so that "power cut between any two
  writes" is a statement about the entries of that log.
* `FileMap` is the global ownership account: one ghost map from block to holder (free at a depth, a
  slot of an inode, or nobody). A single quantifier over it gives all the no-sharing facts.
* `BlockTree`, `Inodes`, `Attach`, `Release`, `FileSys` are inodes and their blocks (class
  `FileSystem`). `DeepTree` and `DeepAlloc` are the double and triple indirect levels, `DeepLoss` and
  `LossRuns` what the code as written makes of them on the disk, `PowerCuts` what a power cut during unlink
  leaves.
* `FileIO`, `Directory`, `Paths`, `OpenTable`, `OpenFiles` are the byte loops, directories, path walks and
  the calls of class `OpenFiles`. `Wipe` formats. `Scenarios` combines the calls.

`OpenFiles.Valid` is the invariant of the whole filesystem side: allocator, account, sizes, in-core
copies, link counts, descriptors and directories. `Scenarios.WipeAll` establishes it, and open, close,
fwrite, fread, lseek, a change of the running process and (under the condition found below) unlink keep
it. `FileMap.Exclusive` says what it means for blocks, in every state so reachable. Part of the invariant
is that no block still on the free list has been written since the last format, as long as none was freed
(`FileMap.Untouched`). All disk requests but those that follow the words of index trees beyond block 138 go
through `Store.ReadBlock` and `Store.WriteBlock`, which require a block of the disk.

Processes: `RunQueue` and `Channel` describe queue, states and channel as values and prove the
properties of whole runs, `Liveness` that an exchange completes; class `Kernel` in `Machine` updates the
arrays in place and is proved to compute those values. `Exchange.Follow` runs two dual scripts on that
kernel under any interleaving, and `Exchange.FirstMeeting` starts it from power-on. `PingPong`
instantiates the scripts. The exchange invariant keeps some process EXECUTING, and that is exactly
what `rq_rotate` needs to terminate (`RotationEnds`). A run is *prompt* when the process whose turn it
is, once running, makes its call before the timer takes the processor away.

`Digits` is int2str, str2int and write_int. `Limits` has the shared table sizes and counting lemmas.

## What the code does that its documentation does not say

* The repository's README says a format adds all blocks to the free list. Block 1986 is left out
  (`FormatCovers`).
* The README gives a file size limit of about 1 GB. From file block 139 on (71168 bytes) a new index block
  is never entered in its parent, and the block allocated behind it is lost except by coincidence
  (`LostLeaf` and `LostMiddle` for the tree, `AllocateAndLookUp` for the disk the call leaves, each
  with the exact condition). The blocks after it are then stored through the leftover word: the address
  of block 140 overwrites a word of whatever block that word names, where the lookup then finds it
  (`AllocateBehind`, and `GrowBeyond` for any open file). In the run from a zeroed, wiped disk that is a
  word of block 0 (`LostInRun`). With the parent written back all
  three levels are right (`TreeGrows`, the repaired variant, labelled so).
* `freeDataBlocks` frees the indirect block and keeps reading it. That goes wrong exactly when freeing it
  spills the chunk in memory, which is at level 51 on entry with more than 12 leaves (`FreedOnce`, `DoubleFree`). For
  the first user file on a freshly wiped disk that means 32256 to 32767 or 65024 to 65535 bytes (`FirstFile`).
* `freeDataBlocks` misses the last, empty block of a file whose size is a multiple of 512 (`LeakCondition`).
* Removing a directory entry gives no block back. A block is lost exactly when the remaining entries just
  fill whole blocks (`RemoveEntry`), and `unlink` as a whole conserves blocks exactly when neither this
  nor the multiple of 512 applies (`Conservation`, `Unlink`).
* A directory whose last block is exactly full hides that block from every scan (`ScanComplete`). A file
  created as entry 16, 32, ... can therefore not be unlinked until another one follows it
  (`CreateWriteDelete`).
* The full block becomes visible again with the next entry. If it hid an entry of the name being created,
  there are then two, and the name leads to the older file (`NewPathResolves`). Input: a root with 15
  entries, as after a wipe and six more files, and two `open(x, O_CREAT)` of one new name (`CreateTwice`).
* `fwrite` ignores a failed allocation. It then has used up the free list and goes on to write through the
  addresses the record held before (`Grow`).
* `rq_rotate` recurs for ever exactly when the queue is not empty and no queued process can run
  (`RotationEnds`); on an empty queue it reads through a null pointer. When the running process ends itself,
  the one behind it in the queue loses its turn (`ExitPlace`). `kill` with SIGWAIT
  to a terminated process, or SIGKILL to pid 9, leaves the queue in disagreement with the states
  (`SignalKeeps`).
* `unlink` frees the blocks before it writes the inode. A power cut in between leaves a disk on which the file
  still claims blocks that are free, from the very first of them on (`PowerCut`, `EraseUnderCuts`).
* A receiver may leave word that it waits and be woken late; the stale word is harmless to dual scripts
  (`Channel.Inv` allows it).

## Model

| member | source | states |
|---|---|---|
| Bytes.WordsAfterStore | device/disk.py:32-37 | a write of the first words of a block leaves those words, followed by the words the block held behind them |
| Bytes.WordsRoundTrip | kernel/kernel.c:499-502 | a block read, patched and written as words reads back as exactly those words |
| Bytes.LittleEndian | kernel/kernel.c:499-502 | words are stored least significant byte first |
| Formats.SuperRoundTrip | kernel/fs.h:17-31 | loading a stored superblock gives back every field that was stored |
| Formats.InodesRoundTrip | kernel/fs.h:40-45 | loading a stored inode block gives back all eight records |
| Formats.DirRoundTrip | kernel/fs.h:47-51 | loading a stored directory block gives back all sixteen entries |
| Formats.SuperLayout | kernel/fs.h:17-31 | where each field of the superblock lies in its block |
| Formats.InodeLayout | kernel/fs.h:40-45 | where each field of each of the eight records lies in an inode block |
| Formats.DirLayout | kernel/fs.h:47-51 | where inode number and name of each of the sixteen entries lie in a directory block |
| FileMap.ContentAt | kernel/kernel.c:1004-1014 | byte p of a file is byte p % 512 of its block p / 512 |
| Directory.EntryPlace | kernel/kernel.c:800-826 | entry k of a directory is the 32 bytes at 32 (k % 16) of its block k / 16 |
| FreeBlocks.SuperSurjective | kernel/kernel.c:1126 | any block loaded as a superblock is that superblock's own image, so after a boot memory and block 1 agree |
| FreeChain.ChainFrame | kernel/kernel.c:327-365 | writing outside the chunk blocks changes neither the chain nor the addresses it accounts for |
| FreeChain.ChunksAreFree | kernel/kernel.c:334-347 | every chunk block is itself a free block |
| FreeChain.ChunksAreFull | kernel/kernel.c:359-361 | every chunk on disk is full: 63 addresses and its own block |
| FreeChain.ChainUnique | kernel/kernel.c:334-347 | a chain is determined by its first address |
| FreeChain.ChainAcyclic | kernel/kernel.c:334-349 | following word 0 from chunk to chunk never meets a block twice before the end mark 1 |
| FreeChain.BootsUnique | kernel/kernel.c:1126 | a disk image boots with one free list only |
| FreeChain.RefillStack | kernel/kernel.c:341-346 | taking over the next chunk leaves the same free stack minus the chunk's own block |
| FreeChain.SpillStack | kernel/kernel.c:359-361 | spilling the full chunk into a freed block puts that block on top of the same free stack |
| FormatList.DepthInverse | kernel/kernel.c:379-396 | each data block except 1986 has a place in the formatted list |
| FormatList.AtInverse | kernel/kernel.c:379-396 | no two places of the formatted list hold the same block, and none holds 1986 or a block outside the data region |
| FormatList.FormatCovers | kernel/kernel.c:379-396 | a format frees every data block exactly once, except 1986, which no list mentions |
| FormatList.FormatChain | kernel/kernel.c:381-391 | the chunk blocks 66, 67, ..., 95, 1 form a well-formed chain holding exactly the lower part of the formatted list |
| FreeBlocks.Store.DiskWr | device/disk.py:23-37 | overwrites the first bytes of one block only, or nothing when the address is beyond the disk; outside block 1 and the chunk blocks this leaves the free list as it was |
| FreeBlocks.Store.WriteBlock | device/disk.py:23-37 | the same for a block of the disk, which is never refused; apart from the words followed in index trees beyond block 138, the kernel writes in this way only |
| FreeBlocks.Store.WriteSuper | kernel/kernel.c:330 | stores the superblock; the disk image then boots with the free list in memory |
| FreeBlocks.Store.Boot | kernel/kernel.c:1126 | an image that boots with some free list gives that list in memory, and block 1 agrees with memory |
| FreeBlocks.Store.Balloc | kernel/kernel.c:327-350 | pops the free stack at every fill level; -1 exactly when the stack is empty; only block 1 changes; every disk image in between boots with the stack before or after the call |
| FreeBlocks.Store.Refill | kernel/kernel.c:335-347 | the refilling branch hands out the chunk block itself, which was on top of the stack |
| FreeBlocks.Store.Bfree | kernel/kernel.c:352-365 | pushes on the free stack at every fill level; what the spill writes where; every disk image in between boots with the stack before or after the call |
| FreeBlocks.Store.Spill | kernel/kernel.c:359-364 | the spilling branch pushes the block it spills into, and a power cut between its two writes loses nothing |
| FreeBlocks.Store.FormatChunks | kernel/kernel.c:381-391 | writes the thirty chunks, and nothing outside blocks 66 to 95 |
| FreeBlocks.Store.FormatFreeList | kernel/kernel.c:371-398 | afterwards the free stack is the formatted list and block 1 agrees with memory |
| FreeBlocks.SpilledImageBoots | kernel/kernel.c:359-362 | between the two writes of a spill the old superblock still describes the old free list |
| FileMap.Exclusive | kernel/kernel.c:431-502 | under the ownership account no block is free twice, free and in use, or in use by two slots of one or two inodes, and every address in use is a data block |
| FileMap.InodeFrame | kernel/kernel.c:431-447 | an inode keeps all its addresses while its indirect block and its entries in the account stay |
| FileMap.ViewFrame | kernel/kernel.c:431-447 | a file none of whose blocks changed has the same addresses and the same bytes |
| FileMap.OwnedStep | kernel/kernel.c:466-502 | changing one inode and blocks no other inode owns keeps the account and every other file |
| FileMap.OwnedAside | kernel/kernel.c:327-365 | changing only unowned blocks and the free list keeps the account and every file |
| FileMap.StackPop | kernel/kernel.c:327-350 | the block popped is a data block nobody else holds |
| FileMap.StillUntouched | kernel/kernel.c:327-696 | if no free block was written up to one disk image, and none of those still free up to the next, none was written at all: the step that keeps this part of the filesystem's invariant in every call that frees nothing |
| BlockTree.SingleWalk | kernel/kernel.c:443-447 | the single indirect lookup is leaf k of a one-level pointer tree |
| BlockTree.DoubleWalk | kernel/kernel.c:448-453 | the double indirect index arithmetic reaches leaf k of a two-level pointer tree |
| BlockTree.TripleWalk | kernel/kernel.c:454-460 | the triple indirect index arithmetic reaches leaf k of a three-level pointer tree |
| BlockTree.RawIsTree | kernel/kernel.c:431-464 | through one buffer that failed reads leave alone, the walk still answers with the pointer tree's address whenever all index words are blocks of the disk |
| BlockTree.LookupIsSlot | kernel/kernel.c:431-447 | below block 139 the lookup reads exactly the slot that the ownership account speaks of |
| Inodes.PatchInode | kernel/kernel.c:685-696 | storing one record changes that inode and no other |
| Attach.AttachDirect | kernel/kernel.c:474-477 | storing a fresh block in the next direct slot extends the file by it and keeps everybody's account |
| Attach.AttachIndirect | kernel/kernel.c:485-503 | storing a fresh block in the indirect block extends the file by it and keeps everybody's account |
| Attach.Relabel | kernel/kernel.c:685-696 | a new record with the same addresses in use keeps every block of every file |
| Attach.Shrink | kernel/kernel.c:578-585 | blocks given up without being freed are lost and nothing else changes |
| Attach.PoolStep | kernel/kernel.c:466-502 | one more block moves blocks from the free list to the file and loses none |
| Attach.GrownStep | kernel/kernel.c:582-585 | growing by one more block keeps all earlier blocks in place and takes the next free block from the top |
| FileSys.FileSystem.NotChunk | kernel/kernel.c:431-502 | a block in use is neither free nor a chunk block, so writing it cannot damage the free list |
| FileSys.FileSystem.Balloc | kernel/kernel.c:327-350 | the block handed out was free and belongs to nobody; no file changes |
| FileSys.FileSystem.ReadInode | kernel/kernel.c:670-683 | loads the record of that inode from its block and slot |
| FileSys.FileSystem.WriteInode | kernel/kernel.c:685-696 | stores that inode's record and changes no other record, no data block and not the free list |
| FileSys.FileSystem.GetDataBlockAddr | kernel/kernel.c:431-464 | follows the index words at all four levels whatever they are, a read beyond the disk keeping the old buffer; where all of them are blocks of the disk, the answer is the address at the file block's place in the pointer tree; -1 beyond the largest file |
| FileSys.FileSystem.AllocateDataBlockAddr | kernel/kernel.c:466-503 | gives an inode its next block below block 139: the top of the free stack, the next one for a new indirect block; -1 exactly when too few are free; no other file changes |
| FileSys.FileSystem.AllocateDataBlocks | kernel/kernel.c:578-588 | fails exactly when the free list is too short, and then keeps the size, uses the list up and leaves the old address in every direct slot it did not reach; otherwise every old block stays in place, each new one is a distinct, so far free block, and the file has size/512+1 blocks |
| FileSys.FileSystem.GrowRound | kernel/kernel.c:582-585 | the i-th round extends the file by block i, and fails exactly when the list the call began with has too few blocks for the first i |
| FileSys.FileSystem.FreeRound | kernel/kernel.c:593-606 | one round pushes the leaf read through the possibly overwritten pointers, and the indirect block after leaf 11 |
| FileSys.FileSystem.FreeDataBlocks | kernel/kernel.c:590-606 | pushes exactly the predicted addresses; the list then has no repetition if and only if the freed indirect block's pointers were not overwritten before being read (top chunk at 51 and more than 12 leaves); in that case the account and all other files are kept |
| FileSys.FileSystem.Erase | kernel/kernel.c:1085-1089 | an inode without in-core copy gives up its blocks and becomes unused; the filesystem stays valid, or the free list holds a block twice, by the level of the chunk in memory |
| PowerCuts.AtRest | kernel/kernel.c:1126 | with no file open, the disk alone is consistent: it boots, and records and free list have an account without sharing |
| PowerCuts.FirstBlockAside | kernel/kernel.c:352-365 | overwriting the first block of a file, as a spill does with the block being freed, keeps that account |
| PowerCuts.PowerCut | kernel/kernel.c:590-606 | a disk image left by a power cut during the release of a file is consistent if and only if the disk was and the image still boots with the old free list |
| PowerCuts.EraseUnderCuts | kernel/kernel.c:590-696 | of all the images the end of unlink goes through, those before the last are consistent exactly until the first freed block is on their free list; the last one is, if no file is open and no pointers were overwritten |
| Release.FreedSlots | kernel/kernel.c:590-606 | without overwritten pointers each address freed is that of one slot of the inode, in a fixed order |
| Release.FreedOnce | kernel/kernel.c:590-606 | old free list and freed addresses together have no repetition if and only if the pointers were not overwritten |
| Release.DoubleFree | kernel/kernel.c:603-605 | with the chunk in memory at level 51 and more than 12 leaves, the block at the bottom of that chunk is freed again |
| Release.FreedEverything | kernel/kernel.c:590-606 | all blocks of the inode, the indirect one included, are given back if and only if as many leaves are visited as the inode has |
| Release.LeakCondition | kernel/kernel.c:579-591 | the leaves visited are all leaves owned if and only if the inode is a directory or its size is not a multiple of 512; otherwise exactly one is leaked |
| Release.ReleaseAll | kernel/kernel.c:590-606 | giving back one inode's blocks leaves a consistent account and all other files as they were |
| Release.FreeingStep | kernel/kernel.c:352-365 | one bfree of the loop keeps what later rounds read, until the spill into the indirect block |
| Release.FreeingReads | kernel/kernel.c:593 | what the loop reads as its next address, indirect block freed or not |
| Release.NotFreedYet | kernel/kernel.c:352-365 | a block about to be spilled into is not on the free list |
| Release.CutStep | kernel/kernel.c:352-365 | every image a push makes boots with the blocks pushed before it or with one more, and has the inode records from before |
| DeepTree.NodeAdded | kernel/kernel.c:504-572 | hanging a fresh block into a pointer tree by storing it in its parent leaves every other node where it was |
| DeepTree.RepairedAppend | kernel/kernel.c:504-572 | with the parent written back, the descent to a new leaf keeps all older leaves and touches no leaf's data (repaired variant) |
| DeepTree.TreeGrows | kernel/kernel.c:504-572 | with the parent written back, a tree of any number of levels grows leaf by leaf to its full capacity: new leaf found, old leaves kept, all index blocks distinct (repaired variant) |
| DeepTree.LeafLookup | kernel/kernel.c:443-460 | the kernel's one-, two- and three-level lookup finds leaf k of such a tree |
| DeepTree.SameWhenComplete | kernel/kernel.c:504-572 | the code as written equals the repaired variant while no index block is missing |
| DeepTree.NoParentWritten | kernel/kernel.c:518-522 | when an index block is missing, the code as written stores no pointer to it: no block in use changes |
| DeepTree.LostLeaf | kernel/kernel.c:518-530 | as written, the first leaf of a new index block is found again if and only if its parent's leftover slot held the new block already, or a block whose first word was the leaf's address already |
| DeepTree.LostMiddle | kernel/kernel.c:533-560 | as written, with a middle index block missing, the first leaf below it is found again if and only if the walk through the two leftover slots happens to end at its address |
| DeepTree.DoubleLost | kernel/kernel.c:504-531 | the same for file blocks 139, 267, 395, ... in terms of the kernel's lookup, on every disk, tree or not |
| DeepAlloc.NextLevel | kernel/kernel.c:516-525 | one level down: the new index block gets its parent's contents with the new pointer, at its own address |
| DeepAlloc.StoreLeaf | kernel/kernel.c:526-530 | the leaf's address goes into one word of the block the last index word leads to, beyond the disk nowhere; the free list survives if that block is neither the superblock nor a chunk |
| DeepAlloc.StoreDouble | kernel/kernel.c:504-531 | the double indirect branch as written makes of the data blocks what the unrepaired append does, with the blocks on top of the free list; whatever the last index word is, the leaf's address goes where it leads |
| DeepAlloc.StoreTriple | kernel/kernel.c:532-572 | the same for the triple indirect branch; before its last store no first word below the data region changes but the inode's own |
| DeepAlloc.AllocateDeepAddr | kernel/kernel.c:466-576 | beyond block 138: fails exactly when too few blocks are free, else the disk is that of the unrepaired append, the inode has the new root, and the free list is the old one minus the blocks taken unless the last index word leads to the superblock or a chunk |
| DeepLoss.AllocateAndLookUp | kernel/kernel.c:431-531 | file blocks 139, 267, 395, ..., allocated by the code as written and then looked up on the disk it left: found if and only if the root's slot held the new index block already, or leads to a block whose first word was the block's address already |
| DeepLoss.AllocateBehind | kernel/kernel.c:431-531 | any other file block of the double indirect range: its address is stored in the block the root's leftover slot leads to, whoever owns it, and is found there again; beyond the disk it is stored nowhere and found only if the root held it already; the case that the slot leads to the root itself included |
| DeepLoss.LoseTwo | kernel/kernel.c:431-531 | an inode grown over blocks 139 and 140: block 139 is lost as above, block 140 overwrites word 1 of the block that the leftover slot leads to and is found there; the free list survives if that block is neither the superblock nor a chunk |
| LossRuns.GrowBeyond | kernel/kernel.c:466-588 | the same for any open file with blocks 0 to 138 in any valid state of the filesystem: what fwrite's allocations for blocks 139 and 140 do |
| LossRuns.LostInRun | kernel/kernel.c:369-1022 | one whole run: a disk of zeros is wiped, a file created and written 138 blocks, and growing it puts block 139 at 198, where it is not found, and the address of block 140, 195, into block 0 |
| FileIO.LeafWrite | kernel/kernel.c:1012-1018 | writing one block of a file changes that block of that file only |
| FileIO.LeafAt | kernel/kernel.c:646-650 | every block of a file lies at a real, owned address that the lookup finds |
| FileIO.GetDataBlock | kernel/kernel.c:646-650 | fills the buffer with the file block holding a byte and returns its address |
| FileIO.StoreBytes | kernel/kernel.c:1004-1018 | the buffered byte loop lays the data over the file from the position on, across block boundaries, and changes nothing else |
| FileIO.LoadBytes | kernel/kernel.c:1036-1046 | the buffered byte loop reads the file's bytes from the position on, across block boundaries |
| FileIO.LaidContent | kernel/kernel.c:992-1022 | growing a file and laying data over its blocks overwrites its contents from the position on |
| FileIO.OverwrittenIsSplice | kernel/kernel.c:992-1022 | a write starting within the file leaves head, data, tail and nothing else |
| FileIO.SplitWrites | kernel/kernel.c:992-1022 | any split of the data into consecutive writes gives the contents one write gives |
| Directory.FirstMatchAt | kernel/kernel.c:800-826 | the scan stops at the first entry of that name |
| Directory.ScanComplete | kernel/kernel.c:800-826 | in a directory without repeated names the scan finds every entry if and only if the entry count is 0 or no multiple of 16 |
| Directory.AppendVisible | kernel/kernel.c:890-907 | appended under a name the scan does not find, an entry is found and all other names resolve as before if and only if the directory was empty or its last block is exactly full neither before nor after |
| Directory.NameToIno | kernel/kernel.c:800-826 | the inode of the first entry of that name among those scanned, or -1 |
| Directory.AppendEntry | kernel/kernel.c:896-905 | storing an entry in slot count % 16 of block count / 16 appends it to the entry list |
| Directory.AddInodeToDirectory | kernel/kernel.c:890-907 | appends one entry, taking exactly the blocks a full last block calls for; no other file changes and no block is lost |
| Directory.RemoveShape | kernel/kernel.c:763-771 | overwriting the victim with the last entry and shrinking the size is the abstract removal |
| Directory.SwapLast | kernel/kernel.c:763-769 | the last entry is read and stored over the victim; nothing else changes |
| Directory.ShrinkDir | kernel/kernel.c:770-773 | 32 bytes off the size keep the blocks the smaller size reaches, as a prefix, and every other file |
| Directory.RemoveEntry | kernel/kernel.c:763-773 | takes out the chosen entry, the last one taking its place; no other file changes; the directory keeps its blocks if and only if the remaining entries do not just fill whole blocks, and otherwise a block belongs to nobody afterwards |
| Directory.GetLastDir | kernel/kernel.c:715-723 | the last entry of a non-empty directory |
| Paths.PathToIno | kernel/kernel.c:828-842 | the inode a token path leads to, -1 if a token is missing |
| Paths.GetFreeInode | kernel/kernel.c:698-713 | the lowest-numbered unused inode, becoming an empty regular file; none exactly when all are used |
| Paths.PathToIno2 | kernel/kernel.c:844-886 | creates a file exactly when all tokens but the last resolve and the last does not and an inode is free; otherwise nothing changes; -2 exactly when none is free |
| Paths.Walk | kernel/kernel.c:850-865 | the walk ends behind the last token without an inode exactly when creation is due, with the parent directory at hand |
| Paths.Create | kernel/kernel.c:865-883 | the new inode was unused, owns the block from the top of the free list, and is entered at the end of the parent |
| Paths.NewNameFound | kernel/kernel.c:890-907 | under the new name the parent finds nothing if its new entry count is a multiple of 16, else the new inode, or the older entry of that name if one was hidden in a full last block |
| Paths.OldNameKept | kernel/kernel.c:890-907 | a name that resolved in the parent resolves as before if and only if the scan still comes across it, which it does unless the new entry count is a multiple of 16 |
| Paths.OldPathsKept | kernel/kernel.c:844-886 | after a creation a path that resolved resolves as before if and only if the parent's scan still comes across the names looked up there, else not at all; no path changes unless the new entry count is a multiple of 16 |
| Paths.NewPathResolves | kernel/kernel.c:844-886 | where the created path leads: to the new inode if and only if the parent's new entry count is no multiple of 16 and it had no entry of that name hidden in a full last block; otherwise nowhere, or to the older file |
| OpenTable.FreeEntryExists | kernel/kernel.c:921-929 | while some process has a free descriptor the open file table has a free entry |
| OpenTable.FreeActiveExists | kernel/kernel.c:931-945 | while the open file table has a free entry the in-core inode table has one |
| OpenTable.LinkOpen | kernel/kernel.c:958-965 | opening keeps: link counts equal the entries pointing at the inode, live inodes are distinct, descriptors and used entries match one to one |
| OpenTable.LinkClose | kernel/kernel.c:975-987 | closing keeps the same |
| OpenTable.SeekKeeps | kernel/kernel.c:1053-1074 | moving a position keeps the same |
| OpenFiles.MirrorOpen | kernel/kernel.c:931-945 | after an open the in-core copies still mirror the records in force |
| OpenFiles.MirrorClose | kernel/kernel.c:975-980 | after a close the in-core copies still mirror the records in force; with the last link the copy is dropped |
| OpenFiles.OpenFiles.Dispatch | kernel/kernel.c:180-204 | changing the running process keeps the tables consistent |
| OpenFiles.OpenFiles.GetFD | kernel/kernel.c:911-919 | the lowest free descriptor of the running process, -1 exactly when it has none |
| OpenFiles.OpenFiles.GetOFT | kernel/kernel.c:921-929 | never fails while the caller has a free descriptor |
| OpenFiles.OpenFiles.GetAIT | kernel/kernel.c:931-945 | the existing copy of that inode if there is one, else a new one from disk; never fails while the caller has a free descriptor |
| OpenFiles.OpenFiles.Open | kernel/kernel.c:949-968 | without O_CREAT, or for a path that resolves: fails exactly when the process has no free descriptor or the path leads nowhere, changes no file, and otherwise opens the inode the path leads to; with O_CREAT and a path that does not resolve: fails exactly when also its parent does not or no inode is unused, and otherwise opens the lowest unused inode as an empty regular file entered last in the parent; the lowest free descriptor stands for it at offset 0 and only its link count rises |
| OpenFiles.OpenFiles.OwnDescriptors | kernel/kernel.h:61 | each process has 16 descriptors of its own; which of them are open, which is the lowest free one, and when none is free |
| OpenFiles.OpenFiles.Install | kernel/kernel.c:955-967 | descriptor, open-file entry and in-core copy are linked |
| OpenFiles.OpenFiles.Close | kernel/kernel.c:970-990 | frees descriptor and entry, drops one link, and with the last one writes the record back; no file changes; -1 exactly when not open |
| OpenFiles.OpenFiles.Grow | kernel/kernel.c:1000-1002 | fwrite's allocation extends the file if and only if the free list has the blocks needed; otherwise size and contents stay, every free block is gone, and a direct slot that got no block still holds its old address; in-core copy and record stay in step |
| OpenFiles.OpenFiles.Overlay | kernel/kernel.c:1000-1018 | allocation and byte loop together overwrite the contents, take exactly the blocks needed and lose none |
| OpenFiles.OpenFiles.Fwrite | kernel/kernel.c:992-1022 | the data overwrites the file from the position on, the position moves past it, every other file and the rest of the free list stay; -1 exactly when not open |
| OpenFiles.OpenFiles.Fread | kernel/kernel.c:1024-1051 | exactly the bytes from the position on, and the position moves past them; -1 exactly when not open or too few bytes are left |
| OpenFiles.OpenFiles.Lseek | kernel/kernel.c:1053-1074 | the position becomes base plus offset in 32-bit arithmetic; -1 for a closed descriptor or unknown base; nothing else changes |
| OpenFiles.OpenFiles.Tell | kernel/kernel.c:1097-1103 | the position as a C int, -1 exactly when not open |
| OpenFiles.OpenFiles.IsRemovable | kernel/kernel.c:725-745 | the inode number unless the entry is the working directory, is open, or is a directory with more than two entries |
| OpenFiles.OpenFiles.FindHit | kernel/kernel.c:747-795 | the first scanned entry of that name that may be removed |
| OpenFiles.OpenFiles.Remove | kernel/kernel.c:747-798 | takes exactly that entry out; -1 and no change exactly when there is none |
| OpenFiles.OpenFiles.Unlink | kernel/kernel.c:1076-1095 | removes the first entry of that name that is not the working directory, not open and no directory of more than two entries, and gives the file's blocks and inode back; -1 and no change exactly when the name starts with a dot or every scanned entry of that name is one of those; afterwards all is consistent if and only if no indirect block was overwritten while being freed, else the free list holds a block twice; when consistent, free blocks, directory blocks and file blocks together are conserved if and only if the file's last block is not empty and the remaining entries do not just fill whole blocks |
| OpenFiles.DeletedMeans | kernel/kernel.c:1076-1095 | what is left after unlink: as many addresses more on the free list as the file has blocks up to its size, and one for the indirect block; with the chunk at 51 and more than 12 blocks a block twice on it; else the inode unused, the directory's last entry in the victim's place, and all else as before |
| OpenFiles.OpenFiles.RemovalMeans | kernel/kernel.c:725-745 | an entry may be removed if and only if it is not the working directory, not open, and not a directory with more than two entries |
| OpenFiles.OpenFiles.ReleaseFile | kernel/kernel.c:1085-1089 | blocks and inode of a file that is not open go back |
| OpenFiles.Conservation | kernel/kernel.c:590-773 | free, directory and file blocks together are the same before and after if and only if the file is a directory or its size no multiple of 512, and one less than the entry count is no multiple of 16 |
| Scenarios.WriteParts | kernel/kernel.c:992-1022 | consecutive writes through one descriptor do exactly what one write of all the data does: contents, blocks taken, position |
| Scenarios.WriteThenRead | kernel/kernel.c:992-1074 | write in any pieces, seek back, read: exactly the data |
| Scenarios.CreateWriteDelete | kernel/kernel.c:949-1095 | create in the root, any writes, close, unlink, at any entry count: unlink finds the file if and only if the count with it is no multiple of 16; the free blocks are those of the beginning if and only if neither the size is a multiple of 512 nor the old count one of 16, unless the indirect block is overwritten while being freed, and then the free list holds a block twice |
| Scenarios.CreateTwice | kernel/kernel.c:844-907 | in a root with 15 entries (or 31, ...) opening one new name twice with O_CREAT makes two files of that name, and from then on the name leads to the first |
| Scenarios.InstallPrograms | kernel/kernel.c:281-323 | createObjFiles: the eight program files become inodes 1 to 8, entered in the root in order, each holding entry point and priority, for one block each |
| Scenarios.GetProgramEntry | kernel/kernel.c:38-52 | what exec reads of a file: its first four bytes and the next four, -1 exactly when the path leads nowhere or no descriptor is free; files and descriptors are as before |
| Scenarios.ReadProgram | kernel/kernel.c:38-52 | on the installed disk, every program's entry point and priority 1 are read back through an open of the existing file |
| Scenarios.WipeAll | kernel/kernel.c:369-429 | the whole of wipe: consistent tables, the eight program files, and every other data block but the root's and 1986 free |
| Scenarios.FirstFile | kernel/kernel.c:369-1095 | on a freshly wiped disk with its program files, create, write, close, unlink of one file corrupts the free list exactly when the file's last block has number 63 or 127, and otherwise restores it exactly when the size is no multiple of 512 |
| Wipe.FormattedAccount | kernel/kernel.c:369-422 | the state a format leaves has a consistent ownership account |
| Wipe.FormatInodeBlock | kernel/kernel.c:401-422 | one inode block: all records unused, the root alone a directory |
| Wipe.MakeRoot | kernel/kernel.c:407-414 | the root's block is the top of the formatted list and starts with the entry for the root itself |
| Wipe.Format | kernel/kernel.c:369-422 | a valid filesystem whose root holds the one entry "." of length 1 for itself, all other inodes unused; every data block but the root's and 1986 is free |
| RunQueue.TickRuns | kernel/kernel.c:140-152 | after a rotation the head can run, if any queued process can |
| RunQueue.TurnShift | kernel/kernel.c:140-152 | rotating by one place and recurring makes the whole rotation, and each recursion is closer to its end |
| RunQueue.RotationEnds | kernel/kernel.c:140-152 | on a queue that is not empty, rotating by one place until the head can run ends if and only if some queued process can run |
| RunQueue.StepKeeps | kernel/kernel.c:18-204 | scheduler, fork and every signal keep the queue: each process that is not TERMINATED exactly once and nothing else |
| RunQueue.RoomForFork | kernel/kernel.c:154-160 | while a process slot is free the queue has room, so fork never loses its child |
| RunQueue.ExitPlace | kernel/kernel.c:140-204 | when the head ends itself, a process further back comes two places closer or more, but the one behind the head loses its turn: it goes to the very end if the next one can run |
| RunQueue.BoundedWaiting | kernel/kernel.c:140-204 | a process that stays EXECUTING at index k > 0 is at the head after at least 1 and at most k scheduler calls, and at most 6 more for every process that ends itself meanwhile, whatever forks, signals and kills of processes not at the head come in between |
| RunQueue.HeadRunsAgain | kernel/kernel.c:140-204 | a process at the head that stays EXECUTING is at the head again within as many scheduler calls as the queue is long, and 6 more for each exit |
| Machine.Kernel.constructor | kernel/kernel.c:1109-1123 | boot: process 0 alone in the queue, running; every channel closed, with an empty buffer of full length |
| Machine.Kernel.RqRotate | kernel/kernel.c:140-152 | terminates, turns the queue cyclically, and ends with the first process strictly behind the old head that can run |
| Machine.Kernel.RqAdd | kernel/kernel.c:154-160 | appends a process, keeping the others; on a full queue nothing happens |
| Machine.Kernel.RqRm | kernel/kernel.c:162-178 | takes a process out, keeping the order of the others |
| Machine.Kernel.Fork | kernel/kernel.c:18-35 | the lowest free slot becomes a copy of the caller with return value 0, queued last; no other process is disturbed; -1 exactly when no slot is free |
| Machine.Kernel.Kill | kernel/kernel.c:75-104 | SIGKILL ends that process and takes it out of the queue, SIGWAIT makes it WAITING, SIGCONT makes a WAITING one EXECUTING, and no other state changes and the others keep their order; SIGKILL to pid 9 marks all but the first TERMINATED; the queue stays well-formed if and only if SIGWAIT does not go to a terminated process and pid 9 does not kill live ones; contexts stay; other pids outside the table are ignored |
| Machine.Kernel.KillAll | kernel/kernel.c:99-103 | SIGKILL to pid 9 marks every process but the first TERMINATED and leaves the queue as it is |
| Machine.SignalKeeps | kernel/kernel.c:75-104 | after a signal the queue holds exactly the processes that are not TERMINATED if and only if it was none of those two |
| Machine.Kernel.SvcFork | kernel/kernel.c:1218-1221 | the parent finds the child's number in register 0, or -1 when no slot is free, the child finds 0; all other registers of both are the caller's, and every other process keeps its own |
| Machine.Kernel.SvcRaise | kernel/kernel.c:1233-1237 | a process that signals itself changes its own state as that signal does, no other, and gives up the processor; every process keeps its registers |
| Machine.Kernel.Scheduler | kernel/kernel.c:180-204 | the queue turns to the first process strictly behind the old head that is EXECUTING, passing over none; that process runs; every process keeps its registers and state |
| Machine.Kernel.MqOpen | kernel/kernel.c:210-233 | the channel of that name if there is one, else the first free one, reset; -1 exactly when neither exists; no other channel changes |
| Machine.Kernel.MqSend | kernel/kernel.c:243-258 | succeeds exactly on an empty channel; then the channel holds the message, the waiting mark is gone and a marked waiting receiver is EXECUTING; the sender is WAITING in either case, unless it is that receiver; no other state, channel or context changes |
| Machine.Kernel.MqReceive | kernel/kernel.c:260-275 | succeeds exactly when a message of another process is there; then it is taken and its sender, if WAITING, is EXECUTING; otherwise the receiver is WAITING and the channel marked; no other state, channel or context changes |
| Machine.Kernel.SvcSend | kernel/kernel.c:1243-1248 | the caller finds 0 or -1 in register 0; after -1 it is WAITING and another process runs; no other register of any process changes |
| Machine.Kernel.SvcReceive | kernel/kernel.c:1249-1254 | the caller finds the length received or -1 in register 0; after -1 it is WAITING and another process runs; no other register of any process changes |
| Channel.IdleCall | kernel/kernel.c:243-275 | with nothing in flight exactly the next sender's call succeeds, and the invariant is kept |
| Channel.InFlightCall | kernel/kernel.c:243-275 | with a message in flight exactly its receiver's call succeeds, it gets that message, and the invariant is kept |
| Channel.StepInv | kernel/kernel.c:243-275 | every move of either process, the timer or another process keeps the channel invariant |
| Channel.ExitInv | kernel/kernel.c:1233-1237 | the channel invariant also survives a third process ending itself, and somebody is left who can run |
| Channel.SchedulerFinds | kernel/kernel.c:140-152 | in every reachable state some process can run, which is what makes the rotation terminate |
| Channel.ExactlyOnce | user/libc.c:77-115 | for any dual scripts and any interleaving: completed receives are the first messages in order, at most one is in flight, msg_qnum is the distance of the program counters, never both wait |
| Channel.SenderWaits | kernel/kernel.c:243-275 | where one process sends every message it is WAITING whenever a message is in flight, until that has been taken |
| Channel.OnlyReceiver | kernel/kernel.c:260-275 | each message is received in its turn, by its receiver and by nobody else |
| Channel.ProgressPossible | user/libc.c:77-115 | until the scripts are done exactly one of the two can make progress and it is always EXECUTING; no deadlock |
| Channel.NoPolling | README.md:2-4 | failed calls number at most two more than successful ones, so waiting costs no processor time |
| Channel.NextFacts | kernel/kernel.c:140-275 | until the scripts end, one process is next: it is EXECUTING, its call succeeds whenever it runs, and every call of the other fails |
| Liveness.MovePaid | kernel/kernel.c:140-275 | every move of an unfinished exchange keeps the account: a scheduler call is paid for by a completed call, by the end of a process, or by the next process coming nearer to the head |
| Liveness.PacedRun | kernel/kernel.c:140-275 | in a prompt run that leaves the scripts unfinished the scheduler is called at most as often as the first wait plus one queue length for each completed call and each exit |
| Liveness.Completes | user/libc.c:77-115 | if the process whose turn it is makes its call before the timer takes the processor away, an exchange of n messages is complete once the scheduler has been called 2 n + e times the number of process slots, e processes having ended themselves |
| Liveness.NoBound | kernel/kernel.c:140-204 | otherwise there is no bound: any number of timer interrupts may come before the first call |
| PingPong.Dual | user/ping.c:12-19 | whenever ping sends pong receives, and the other way round |
| PingPong.TextsExchanged | user/pong.c:12-19 | when both programs are through a round, the first 25 messages, from ping to pong, were ping's characters in order, and the next 25, from pong to ping, pong's; under any interleaving |
| PingPong.RoundCompletes | user/pong.c:12-19 | a round of ping and pong completes, with the texts exchanged, within 800 scheduler calls of any prompt run, and 8 more for each exit |
| Exchange.Advance | kernel/kernel.c:1243-1254 | one move carried out by the kernel's own operations is the move of the model |
| Exchange.Follow | kernel/kernel.c:1151-1254 | any interleaving of channel calls, timer, and forks, signals, kills and exits of other processes on the kernel itself follows that exchange, each program calling again when it finds -1 in register 0; no requirement is violated, the scheduler always terminates, and the two keep all registers but the results in register 0 |
| Exchange.FirstMeeting | kernel/kernel.c:1109-1254 | from power-on: boot, two forks and mq_open lead to a start of the exchange, the receives are the first messages in order, and in a prompt run all have arrived after the scheduler calls Completes counts |
| Digits.HornerOfReverse | user/libc.c:303-316 | the reversed digits stand for the value, and all are digit characters |
| Digits.TextMeans | user/libc.c:293-308 | the text in characters: an optional 45, then digits 48 to 48 + base - 1, a single digit for values below the base, else the text of the quotient and the digit of the remainder |
| Digits.RoundTrip | user/libc.c:290-333 | the text of any value parses back to it, for every base |
| Digits.ReverseFront | user/libc.c:310-316 | the in-place loop reverses the text, the middle character included, and touches nothing behind it |
| Digits.Int2Str | user/libc.c:290-321 | writes the text and its terminator and nothing behind them; digit d is the character 48 + d, the sign 45, and the last digit is the remainder by the base |
| Digits.PlaceValue | user/libc.c:329-330 | the wrapped power of the base is exact wherever a non-zero digit meets it |
| Digits.NextDigit | user/libc.c:326-331 | one round of the loop adds the next digit at its place value and moves the wrapped power on |
| Digits.Str2Int | user/libc.c:323-333 | the number the text stands for, although the running power may overflow |
| Digits.PrintAndParse | user/libc.c:290-333 | printing into a buffer and reading back returns the value |
| Digits.DecimalFits | user/libc.c:335-345 | a 32-bit value takes at most 11 characters in base 10 |
| Digits.WriteInt | user/libc.c:335-345 | the terminator is always found within 12 bytes, so exactly the text is written |

## Left out

- OpenFiles.OpenFiles.Fwrite: requires enough free blocks, because the source ignores a failed allocation; OpenFiles.OpenFiles.Grow says what the allocation then leaves, and the bytes the source goes on to write through stale addresses are not modelled. The file stays below block 139, because of the index blocks lost beyond it. A negative byte count is not modelled.
- OpenFiles.OpenFiles.Fread: the byte count is not negative and position plus count stays below 2 to the 32.
- OpenFiles.OpenFiles.Open: the walk may visit only directories and must end at a regular file; the source checks neither and would read any block as a directory, or give a directory a second, in-core record. A path to be created needs a proper parent directory below block 139 with enough free blocks, because the source ignores allocation failure there.
- Paths.PathToIno2: same requirements on the walk and on the parent's room.
- Paths.PathToIno: the walk may visit only directories, none of which has an in-core copy.
- Scenarios.CreateWriteDelete: in the root directory, which has no entry of that name, hidden or not (Scenarios.CreateTwice has the hidden case); the file stays below block 139.
- Directory.AddInodeToDirectory: the directory is non-empty, below block 139, and enough blocks are free.
- Directory.RemoveEntry: a block the shrinking directory no longer reaches is lost, as in the source.
- FileSys.FileSystem.AllocateDataBlockAddr: stops at block 138; DeepAlloc.AllocateDeepAddr has the branches beyond. Past the largest file the source returns an address it stores nowhere; that is not modelled.
- FileSys.FileSystem.AllocateDataBlocks: regular files below block 139.
- FileSys.FileSystem.FreeDataBlocks: inodes below block 139; the branches that free double and triple index blocks are not modelled, since such trees are already broken when they are built.
- FileSys.FileSystem.GetDataBlockAddr: for an inode whose own index block lies beyond the disk the answer comes from an uninitialised buffer and is left open.
- DeepAlloc.AllocateDeepAddr: existing index blocks on the way, the last one excepted, must be data blocks in use, and the call is not tied into the ownership account.
- DeepAlloc.StoreTriple: same requirement on the index blocks before the last.
- DeepLoss.AllocateBehind: the root of the double indirect tree is a data block in use; the last index block may be anything.
- Machine.Kernel.RqRotate: some queued process can run; RunQueue.RotationEnds shows that otherwise the source recurs for ever.
- Machine.Kernel.Scheduler: same requirement.
- Machine.Kernel.Kill: pid 8, which is one past the process table, is excluded. SIGPRI0 touches priorities only, which are not modelled.
- Machine.Kernel.MqSend: messages fit the channel buffer; the source copies any length.
- Machine.Kernel.MqReceive: lengths fit the channel buffer.
- Exchange.Follow: the third parties fork, end, and send each other signals and are interrupted; they use no channel. A process that kills itself by system call 6 and runs on until the next interrupt is left out.
- Exchange.FirstMeeting: the channel is opened by the parent; mq_open by the children would find the same one, by Machine.Kernel.MqOpen.
- Liveness.Completes: prompt runs only; Liveness.NoBound shows that there is no bound otherwise.
- RunQueue.RotationEnds: an empty queue, on which the source reads through a null pointer, is excluded.
- RunQueue.BoundedWaiting: nobody at the head is killed but by ending itself.
- PowerCuts.EraseUnderCuts: the release at the end of unlink; power cuts during the other calls are covered for the free list only, by FreeBlocks.Store.Balloc and Bfree.
- PingPong.TextsExchanged: the first round; the programs then repeat it.
- Digits.Int2Str: the smallest int is excluded, whose negation overflows; so are bases whose digits do not fit a char.
- Digits.PrintAndParse: the smallest int is excluded for the same reason.
- Digits.WriteInt: the smallest int is excluded for the same reason.
- Digits.Str2Int: the text is made of digit characters behind its last minus sign and stands for an int.
- Wipe.Format: the uninitialised buffer that becomes the root's first block is a parameter.
- Scenarios.InstallPrograms: the entry points, addresses in the kernel image, are parameters.
- Names are the 28 bytes of length and text taken as one value and compared for equality; strncmp, stale bytes behind a shorter name and unterminated names are not modelled. Paths are token sequences; strtok is not modelled.
- disk_rd and disk_wr succeed at once for every block of the disk and fail for addresses beyond it, which leaves buffer and disk as they were; an address from 2 to the 31 on, which the disk server takes as negative and stops over, is refused like the others. The text protocol, its retries and the disk server's socket are not modelled.
- mkdir, cd, mv, cp with copyInode, ls, pwd, and exec beyond reading the program entry.
- mq_unlink, and channels used by more than two processes.
- Priorities: prio, defp and cmp_pcb do not affect the scheduling order, the sort being commented out.
- Hardware set-up, interrupt entry and exit, and the UART.
- The shell and the demonstration programs other than the exchange scripts of ping and pong.
