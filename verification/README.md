# A verified model of the demofs ext2 driver

The driver keeps an ext2 file system on a disk of equal blocks. Three fast structures sit on that disk:
bitmaps with cached counters, pointer trees, and chains of directory records. Each has a simple meaning:
a set of free blocks, a flat list of blocks, a list of entries. The project models the code that reads
and edits these structures in place and proves that it implements their meanings, for every disk, every
file and every run of operations.

The partition is a heap object (`Partitions.Partition`) with the disk as a mutable array of blocks and
the free counters as mutable fields. The functions of the driver are methods over that object, with the
loops and early returns of the source. What a method does is stated against mathematical descriptions: a
set of free blocks (`Layout.FreeSet`), a ghost `Tree` stored on an image (`Trees.Rep`), the concatenation of
listed blocks (`Walks.Concat`), a list of `Dirent` (`Chains.Parse`). The proofs about one operation are small
lemmas about images, which the methods call.

Main results:

- **Allocation.** The first-fit scan finds the lowest free block whenever there is one, stated on the bits of the bitmap
  bytes; counters, bitmaps and the free set agree in every reachable state; an allocated block given back restores the
  disk byte for byte.
- **Growth.** `Files.AllocateBlocks` succeeds exactly when the free blocks cover data and pointer blocks and the entries
  have room, and builds a left-filled tree of the lowest free blocks. What a failure leaves free is stated exactly
  (`Files.Spent`). The number of pointer blocks is given in closed form.
- **Walks.** The level-recursive read and write walks deliver exactly the requested stretch of the flat block list,
  although they read their pointers from the disk they are writing to; the flat list is what top-down lookup gives, byte
  by byte of inode and pointer blocks (`BlockMap.FileBlock`, `RoundTrips.DataBytes`).
- **Bytes.** Reads of any offset and length of a mapped file are characterised completely (success, extent and contents);
  a byte write is a plain splice exactly for the offsets and lengths given by `WriteExact.WritesExactly`.
- **The whole machine.** Every run of creations, resizes, writes, deletions and directory edits is a history of a simple
  store from inode numbers to contents (`Runs.Run`): files never share blocks, a request changes no other file, and what
  an aligned write stored is there until the next request for that file (`Histories.Durable`).
- **Conservation.** Growing and deleting leaves exactly the pointer blocks allocated; bitmaps and counters are restored
  exactly for files of at most 12 blocks.
- **Directories.** In every run the records of a directory are the list that its edits make of it
  (`DirectoryHistories.HistoryRecords`), aligned to multiples of 4 (`DirectoryHistories.FreshRecords`), and after creations
  every name is found as what was linked under it first (`DirectoryHistories.HistoryLookups`). What every lookup gives
  after a creation or a removal is stated on the bytes, for all names (`Names.AppendedFind`, `Names.ErasedFind`).
- **Paths.** The token walk over the disk resolves every path whose directories can be read (`Namespaces.PathToInode`), and
  so does looking up the name in the parent. Writing a file leaves every path as it was; creating one adds its path and
  leaves every other (`Creations.CreatePath`), deleting one takes away the paths that use its record and no other
  (`Removals.RemovePath`, `Removals.DetachedResolve`).

Some behaviours of the code are narrower than a reader would expect. The model keeps the code as it is and states the
exact condition:

- A transfer never starts at block 12 or later (`InodeReading.ReadBlocks`, `ByteRange.Reach`). `Continued.ReadBlocksOn` is
  a variant of the walk, marked as such, that does not stop there.
- Shrinking by a block or more gives back the first blocks of the file while its entries keep pointing at them; no
  forest whatever is then live at that inode (`Ext2.ShrinkFile`).
- A write that starts inside a block copies as many bytes as it skips and takes its tail from too far along the source
  (`WriteExact.WriteExactness`).
- A file is deleted with the first record for its inode in the directory, which need not be the record of the path
  (`Removals.RemovePath`).
- Deletion never gives back pointer blocks (`Conservation.Restored`).
- Removing the first record of a directory leaves a chain that no walk gets past, and clearing the first byte of an
  empty name can hit the next record (`Removal.Remove`).
- The chain of a fresh directory covers 1024 bytes whatever the block size (`Directories.HardCodedSize`).
- A name whose length is a multiple of 4 loses its terminator when another record follows, and is then found only by
  chance (`Names.ShadowedLookup`).
- A path without a slash loses its first byte (`Paths.Rejoined`).

`dafny verify dfyconfig.toml` checks the whole project.

## Files

| file | contents |
|---|---|
| Arith, Codec, Bits | rounding, little-endian words in byte buffers, single bits of words |
| Layouts, Partitions, Allocator, Counters | geometry, bitmaps as sets, single-block transfers, allocation and release |
| Trees, Builder, Files, PointerBlocks | block trees, building them, growing a file, counting pointer blocks |
| Walks, Reading, Writing, FileWalks, InodeReading, InodeWriting, BlockMap | block transfers through the tree |
| Continued | a variant of the read walk, not what the code does |
| ByteRange, ByteWrite, WriteExact | byte ranges over blocks |
| BlockList | flattening a file, freeing its blocks |
| Inodes | inode slots and fields |
| Volumes, Steps, Ext2 | all files together, whole-file operations |
| Histories, Runs, DirectoryHistories | runs of requests, and what they make of files and directories |
| Growths, Conservation, RoundTrips | laws that span operations |
| Chains, Dentries, Removal, Lookups, Names, DirectoryRuns | directory records in a buffer |
| Directories, Paths, Folders, Namespaces, NamedFiles, Creations, Removals | directories on the disk, paths, files by path |
| Formatting | the states spoken about exist: a sound empty partition for every proper geometry, one with a root directory, and a small proper geometry |

## Model

| member | source | states |
|---|---|---|
| Bits.BitOfSet | src/demofs/ext2_block.c:298-354 | setting bit k of a bitmap word sets bit k and no other |
| Bits.BitOfClear | src/demofs/ext2_block.c:382-427 | clearing bit k of a bitmap word clears bit k and no other |
| Bits.FullWord | src/demofs/ext2_block.c:298-354 | the scan skips a word exactly when all 32 of its bits are set |
| Bits.BitOfByte | src/demofs/ext2_block.c:298-354 | bit k of a byte is its binary digit of 2^k |
| Bits.BitOfWord | src/demofs/ext2_block.c:298-354 | bit k of a word cast over bytes is bit k mod 8 of byte k / 8 |
| Codec.WordsOfBytes | src/demofs/ext2_block.c:429-468 | words written through a cast of a block buffer are read back; byte by byte, see Codec.WordDigits and Codec.ByteDigits |
| Codec.BytesOfWords | src/demofs/ext2_block.c:298-354 | a block read as words and written back is unchanged; byte by byte, see the same |
| Codec.WordDigits | src/demofs/ext2_block.c:298-354 | the digits of a word to base 256 are its four bytes, the lowest first |
| Codec.ByteDigits | src/demofs/ext2_block.c:429-468 | byte k of a stored word is its digit k to base 256, the lowest first |
| Layouts.Layout.BlockOfNumber | src/demofs/ext2_block.c:298-354 | group * blocks_per_group + bit + 1 names a block of that group at that bit |
| Layouts.Layout.NumberOfBlock | src/demofs/ext2_block.c:382-390 | (block - 1) divided by blocks per group gives the group and the bit of a block |
| Layouts.Layout.BitUsedByte | src/demofs/ext2_block.c:298-427 | bit i of a bitmap, read through 32-bit words, is bit i mod 8 of its byte i / 8 |
| Layouts.Layout.FreeIsClear | src/demofs/ext2_block.c:298-427 | the free set by the bytes of the disk: bit i mod 8 of byte i / 8 of the bitmap of group (b - 1) / blocks per group is clear, where i is the remainder |
| Layouts.Layout.MarksOneBit | src/demofs/ext2_block.c:298-427 | marking a block changes one byte of the disk, in the bitmap of group (b - 1) / blocks per group, by the power of 2 of its bit, and no other byte |
| Layouts.Layout.FreeSetAfterMark | src/demofs/ext2_block.c:298-427 | setting or clearing the bit of a block removes or adds exactly that block in the free set |
| Layouts.Layout.SoundAfterMarkUsed | src/demofs/ext2_block.c:298-354 | allocation with its counter updates keeps counters, padding bits and reserved blocks consistent |
| Layouts.Layout.SoundAfterMarkFree | src/demofs/ext2_block.c:382-427 | release with its counter updates keeps the same |
| Layouts.Layout.MarkFreeUndoesMarkUsed | src/demofs/ext2_block.c:298-427 | clearing the bit of the block just allocated restores the disk byte for byte |
| Layouts.Layout.FreeSetDeterminesBitmaps | src/demofs/ext2_block.c:298-427 | with padding bits set, equal free sets mean equal bitmaps |
| Counters.CountersAgree | src/demofs/ext2_block.c:298-427 | in every sound state each group counter is the number of zero bits of its bitmap and the superblock counter is their sum |
| Layouts.Layout.AddressOfBlock | src/demofs/ext2_block.c:18-34 | on a disk of at most 4 GiB the 32-bit product of block number and block size is the address of the block |
| Layouts.Layout.AddressWraps | src/demofs/ext2_block.c:18-34 | when blocks divide 4 GiB, block numbers wrap around after as many blocks as fit there |
| Partitions.Partition.ReadBlock | src/demofs/ext2_block.c:18-34 | block 0 is refused; any other number is taken at its 32-bit address, where the block is copied out, or the read fails beyond the disk and leaves the buffer; for a block of the disk that is the block itself |
| Partitions.Partition.WriteBlock | src/demofs/ext2_block.c:157-173 | block 0 is refused; any other number is taken at its 32-bit address, where the block is replaced and no other, or the write fails beyond the disk; for a block of the disk that is the block itself |
| Allocator.FirstClear | src/demofs/ext2_block.c:298-354 | the scan of a bitmap finds its lowest clear bit |
| Allocator.ScanGroup | src/demofs/ext2_block.c:298-354 | in the first group with a nonzero counter the scan always succeeds, and finds the lowest free block of the disk |
| Allocator.Claim | src/demofs/ext2_block.c:298-354 | taking that bit changes one bitmap bit and both counters |
| Allocator.AllocateBlock | src/demofs/ext2_block.c:298-354 | 0 exactly when no bit of any bitmap byte is clear for a block, and then nothing changes; otherwise the lowest block whose bit is clear, that one bit of the disk, and two counters |
| Allocator.FirstFree | src/demofs/ext2_block.c:298-354 | the lowest clear bit of the first group that has one names the lowest free block |
| Allocator.SomeClear | src/demofs/ext2_block.c:298-354 | a nonzero group counter guarantees a clear bit in the group's bitmap |
| Allocator.Release | src/demofs/ext2_block.c:382-427 | freeing a used block adds exactly that block to the free set and counts it; the partition stays valid exactly when the block holds no bitmap and no inodes |
| Allocator.DeallocateBlock | src/demofs/ext2_block.c:382-427 | a block whose bit is set is freed and 1 returned, one whose bit is clear is left and 0 returned, whatever the block holds; one bit of the disk and two counters change; counters and padding stay right, and the partition stays valid exactly when the block holds no bitmap and no inodes |
| Builder.AllocateLeaf | src/demofs/ext2_block.c:429-468 | the lowest free block is taken, or nothing when there is none; nothing but bitmaps changed, and the block holds what it held |
| Builder.FillSlots | src/demofs/ext2_block.c:429-539 | the slots of a pointer block point to left-filled subtrees that hold the blocks asked for, as far as they fit |
| Builder.BuildLevel | src/demofs/ext2_block.c:429-539 | the tree below one pointer holds min(m, capacity) new blocks and exactly its share of pointer blocks, the lowest free ones, each pointer block before what it points to, and its data blocks hold what they held; or space has run out and nothing is left |
| Builder.ProgressStep | src/demofs/ext2_block.c:429-539 | one more slot keeps the state of a tree being built, in success and when space runs out |
| Files.GrowEntry | src/demofs/ext2_block.c:541-583 | one entry of i_block gets its block or its whole tree |
| Files.GrowTrees | src/demofs/ext2_block.c:560-583 | the single, double and triple entries are filled in turn until all blocks are placed |
| Files.AllocateBlocks | src/demofs/ext2_block.c:541-583 | succeeds exactly when the free blocks cover data and pointer blocks and the entries have room; extends the file by n blocks, the lowest free ones in the order of allocation, keeps its earlier leaves, and changes only bitmaps and new pointer blocks of the file. A failure leaves nothing free when the blocks that fit, with their pointer blocks, are not there, and otherwise takes exactly those |
| Files.GrowingDone | src/demofs/ext2_block.c:541-583 | growth is complete exactly under that condition |
| Files.MetaCapped | src/demofs/ext2_block.c:541-583 | blocks there is no room for call for no pointer blocks |
| PointerBlocks.SingleForest | src/demofs/ext2_block.c:470-503 | m data blocks below single-indirect blocks need ceil(m/e) of them |
| PointerBlocks.DoubleForest | src/demofs/ext2_block.c:505-539 | m data blocks below double-indirect blocks need ceil(m/e^2) + ceil(m/e) pointer blocks |
| PointerBlocks.RoomIs | src/demofs/ext2_block.c:541-583 | a file has room for 12 + e + e^2 + e^3 data blocks |
| PointerBlocks.FileMetaIs | src/demofs/ext2_block.c:429-583 | closed form of the pointer blocks of a file of n blocks, each term present when its level is reached |
| PointerBlocks.NoMeta | src/demofs/ext2_block.c:541-558 | a file has no pointer blocks exactly when it has at most 12 data blocks |
| Walks.FitsBelow | src/demofs/ext2_block.c:66-154 | how skip and remaining count are handed down to a subtree |
| Walks.WalkStep | src/demofs/ext2_block.c:66-154 | what the answer of a subtree means for skip and count; a mapped request is never cut short |
| Walks.SlotStep | src/demofs/ext2_block.c:66-154 | one slot of the walk: it ends the walk only when the request was not mapped |
| Reading.ReadDirect | src/demofs/ext2_block.c:36-64 | the direct walk copies the requested stretch of the listed blocks |
| Reading.ReadSlot | src/demofs/ext2_block.c:66-154 | one pointer of the indirect walk |
| Reading.ReadLevel | src/demofs/ext2_block.c:66-154 | the walk at any height fills the buffer with the requested leaves in order and stops early only when they are not mapped |
| Reading.FilledJoin | src/demofs/ext2_block.c:66-154 | stretches read below neighbouring pointers make up one stretch |
| Writing.WriteDirect | src/demofs/ext2_block.c:175-203 | the direct walk writes the requested stretch of the listed blocks and nothing else |
| Writing.WriteSlot | src/demofs/ext2_block.c:205-293 | one pointer of the indirect write walk |
| Writing.WriteLevel | src/demofs/ext2_block.c:205-293 | the write walk at any height overwrites exactly the requested leaves while reading its pointers from the same disk |
| Writing.WrittenJoin | src/demofs/ext2_block.c:205-293 | writes below neighbouring pointers make up one write, since no leaf occurs twice |
| Writing.ReadableFrame | src/demofs/ext2_block.c:205-293 | the tree survives writes to its own leaves |
| FileWalks.FileWalkStep | src/demofs/ext2_block.c:585-628 | an entry of i_block ends the walk only when the request was not mapped |
| InodeReading.ReadBlocks | src/demofs/ext2_block.c:597-628 | for a skip below 12 the read returns count and fills the buffer exactly when the blocks are mapped, byte by byte from the blocks that the little-endian pointers on the disk lead to; from skip 12 on it reads nothing |
| InodeReading.ReadInodeBlocks | src/demofs/ext2_block.c:585-628 | the same for an inode number |
| Continued.ReadBlocksOn | src/demofs/ext2_block.c:585-628 | a variant, not the code: a walk that goes on past a level or subtree that was skipped as a whole reads any mapped stretch, from any block on |
| InodeWriting.WriteBlocks | src/demofs/ext2_block.c:702-733 | for a skip below 12 and mapped blocks the write returns count and changes exactly the blocks that the pointers on the disk lead to; otherwise only blocks of the file |
| InodeWriting.WriteInodeBlocks | src/demofs/ext2_block.c:690-733 | the same for an inode number |
| InodeWriting.StoredFrame | src/demofs/ext2_block.c:690-733 | a file without repeated blocks is still stored after writes to its data blocks |
| BlockMap.FileBlockIs | src/demofs/ext2_block.c:585-628 | block k of the flat list is the block found top-down through entries 12 to 14 by division and remainder, each pointer the number that four bytes make up, the lowest first |
| BlockMap.LeafAt | src/demofs/ext2_block.c:66-154 | in a left-filled tree leaf i is in subtree i / capacity |
| BlockMap.ConcatByte | src/demofs/ext2_block.c:585-628 | byte x of the listed blocks is byte x mod size of block x / size of the list |
| BlockMap.FilledIs | src/demofs/ext2_block.c:585-628 | a read through the tree delivers, byte by byte, the blocks that the pointers on the disk lead to |
| BlockMap.WrittenIs | src/demofs/ext2_block.c:690-733 | a write through the tree puts the source, byte by byte, into the blocks that the pointers on the disk lead to, and changes no other |
| RoundTrips.WriteThenReadBlocks | src/demofs/ext2_block.c:585-733 | blocks written through the tree are read back, and no block but the requested ones has changed |
| RoundTrips.DataBytes | src/demofs/ext2_block.c:585-628 | every byte of a live file, by the bytes of its inode and of its pointer blocks on the disk |
| ByteRange.ReadPiece | src/demofs/ext2_block.c:643-686 | head and tail of a byte read: part of one block |
| ByteRange.ReadRest | src/demofs/ext2_block.c:655-686 | whole blocks and tail of a byte read, with the exact success condition and what the buffer holds also when it gives up |
| ByteRange.ReadInodeBytes | src/demofs/ext2_block.c:630-688 | for every offset and length of a mapped file: carried out exactly when no transfer starts at block 12 or later, result Extent, buffer holding the file bytes from skip on; a read that gives up leaves its head and whole blocks, as far as these could be reached |
| RoundTrips.ExtentIs | src/demofs/ext2_block.c:630-688 | a read delivers its count, or up to the end of the last block it touches when it starts inside a block |
| RoundTrips.AlignedReach | src/demofs/ext2_block.c:630-688 | an aligned transfer is carried out exactly when it ends within the first 12 blocks |
| RoundTrips.ReachWithin | src/demofs/ext2_block.c:630-688 | every nonempty range within the first 12 blocks is carried out |
| ByteWrite.WrittenBytes | src/demofs/ext2_block.c:735-812 | overwriting listed blocks splices their stretch of the file bytes |
| ByteWrite.WriteWhole | src/demofs/ext2_block.c:774-788 | whole blocks of a byte write |
| ByteWrite.WritePiece | src/demofs/ext2_block.c:748-812 | head and tail of a byte write: read, patch, write back one block |
| ByteWrite.WriteRest | src/demofs/ext2_block.c:774-812 | whole blocks and tail of a byte write, with the exact success condition and the exact bytes also when it gives up |
| ByteWrite.WriteInodeBytes | src/demofs/ext2_block.c:735-812 | what the file bytes become for every memory-safe write, aligned or not, carried out or given up on the way; only data blocks of the file change |
| WriteExact.AlignedWrite | src/demofs/ext2_block.c:735-812 | a block-aligned write is the splice of the source at skip and keeps all other bytes |
| WriteExact.WriteExactness | src/demofs/ext2_block.c:735-812 | a write is a plain splice for all contents and sources exactly when it is aligned, or its count equals the bytes skipped, or it goes from half block to half block |
| WriteExact.OutcomeAt | src/demofs/ext2_block.c:735-812 | what each byte of the file becomes in a memory-safe write, carried out or given up: the source byte of head, whole blocks or tail, or what it was |
| Inodes.SlotInside | src/demofs/ext2_inode.c:225-311 | every inode slot lies inside one block of its table |
| Inodes.SlotsDisjoint | src/demofs/ext2_inode.c:225-311 | slots of different inode numbers do not overlap |
| Inodes.InodeRoundTrip | src/demofs/ext2_inode.c:225-311 | an inode written is read back, and every other inode reads as before |
| Inodes.SlotSector | src/demofs/ext2_inode.c:225-311 | the sector of the slot, computed in 32 bits from the table block and the offset in the table, is the first sector of the block that holds the slot, and the offset in that block is right |
| Inodes.ReadInode | src/demofs/ext2_inode.c:268-311 | returns, byte by byte, what the inode table of group (n - 1) / inodes per group holds from (n - 1) mod inodes per group times the inode size on |
| Inodes.WriteInode | src/demofs/ext2_inode.c:225-266 | puts the record there, byte by byte, and keeps every other byte of the disk, bitmaps and counters |
| Inodes.InodeBytes | src/demofs/ext2_inode.c:268-311 | the slot of an inode, byte by byte: block and offset by division and remainder of its offset in the table |
| Inodes.StoredBytes | src/demofs/ext2_inode.c:225-266 | an inode stored is those bytes of the table, and no other byte of the disk changes |
| Inodes.FieldBytes | src/demofs/ext2_inode.h:45-63 | mode, size, sectors and the 15 entries are at bytes 0, 4, 28 and 40 of an inode, little-endian, and a directory has bit 6 of byte 1 set |
| Inodes.ResizedFields | src/demofs/ext2.c:353-359 | resizing sets size, sectors and entries of an inode and keeps every other byte |
| Inodes.FreshFields | src/demofs/ext2_inode.c:141-184 | every byte of a new inode: the given mode, user, group, times and generation, one link, and zeroes; the bytes behind the descriptor are kept |
| Inodes.DeadFields | src/demofs/ext2_inode.c:647-651 | every byte of a deleted inode: no mode, links, size or sectors, the time of deletion, and all others kept, its entries among them |
| BlockList.LoadLevel | src/demofs/ext2_inode.c:407-501 | the list below an indirect block is the leaves of its tree, written from the given index on |
| BlockList.LoadDirect | src/demofs/ext2_inode.c:520-531 | the direct blocks, up to the number asked for |
| BlockList.LoadBlockList | src/demofs/ext2_inode.c:503-579 | for a zero-terminated file the list of its first n blocks is its leaves in order, those that the pointers on the disk lead to; it succeeds exactly when the file has that many, and never overruns its array |
| BlockList.DeallocateBlocks | src/demofs/ext2_block.c:356-380 | all blocks are freed exactly when they are distinct and in use; otherwise it stops at the first free one from the end; only bitmaps change |
| Volumes.OthersKept | src/demofs/ext2.c:314-497 | an operation on one inode leaves inode, blocks and block contents of every other live file |
| Volumes.StepKeepsLive | src/demofs/ext2.c:314-497 | every step keeps all files mapped, in use, apart from each other and from bitmaps and inode tables |
| Volumes.StepKeepsContents | src/demofs/ext2.c:314-497 | writing, growing or deleting one file never changes what reading another returns |
| Steps.GrowthStep | src/demofs/ext2.c:343-359 | growth and the inode write make one step of the machine |
| Steps.DataStep | src/demofs/ext2_block.c:735-812 | a data write is a step of the machine |
| Steps.GoneStep | src/demofs/ext2.c:466-485 | freeing the blocks of a file and clearing its inode is a step of the machine |
| Steps.PrefixKept | src/demofs/ext2.c:343-363 | the contents of a file before growth are a prefix of its contents after |
| Steps.GrownContents | src/demofs/ext2.c:343-363 | the blocks that growth adds to a file hold what they held before: they are not cleared |
| Ext2.GrowFile | src/demofs/ext2.c:343-362 | growth succeeds exactly when there is room; size, sectors and entries change, and the contents are extended by what the new blocks held; a failure leaves every file, and leaves nothing free or takes exactly the blocks that fit and their pointer blocks |
| Ext2.ShrinkFile | src/demofs/ext2.c:328-341 | the first blocks are given back; the file is live afterwards exactly when that is no block at all |
| Ext2.ResizeFile | src/demofs/ext2.c:314-363 | all three branches; files stay live exactly when less than a whole block is cut off; what every outcome leaves of the free blocks |
| Ext2.WriteFile | src/demofs/ext2.c:438-463 | succeeds exactly when the inode is no directory, there is room to grow and the transfer is carried out; size, inode, contents and free blocks afterwards, also when growth fails or the transfer is given up on the way; every other file untouched |
| Ext2.WriteData | src/demofs/ext2.c:456-463 | the transfer of a write to a file that is long enough: result and contents, everything else untouched |
| Ext2.ReadFile | src/demofs/ext2.c:375-402 | succeeds exactly when the inode is no directory, the range is within the size and the transfer is carried out; the buffer starts with that range of the file |
| Ext2.CreateInode | src/demofs/ext2_inode.c:141-184 | the inode is initialised as an empty file, byte by byte as listed under Inodes.FreshFields, and nothing else changes |
| Ext2.DeleteFileBlocks | src/demofs/ext2_inode.c:581-607 | exactly the blocks that the size calls for become free; only bitmaps change |
| Ext2.DeleteFile | src/demofs/ext2.c:475-485 | the blocks become free, the inode is dead, all other files are as before |
| Runs.Serve | src/demofs/ext2.c:314-497 | a request is answered with success exactly when it is admitted and, for a write, carried out; its exact effect on the file it names, also for a write that is given up; what it leaves of the free blocks, also when growth fails; every byte of the record of a created or deleted inode; no other file looks different |
| Runs.Run | src/demofs/ext2.c:249-497 | after any list of creations, resizes, writes, deletions and directory edits all files are live, and the run is a history of the simple store in which every request accounts for the free blocks |
| Histories.Untouched | src/demofs/ext2.c:314-497 | in any history a file that no request names keeps its inode and contents |
| Histories.Durable | src/demofs/ext2.c:422-464 | in any history the bytes of a successful aligned write stay until a later request names the file |
| DirectoryHistories.HistoryRecords | src/demofs/ext2_dentry.c:15-403 | in any history on the disk, whatever it does to other files, the records of a directory are the list that its successful and unsuccessful creations and deletions make of it; they keep tiling it, and stay aligned to multiples of 4 |
| DirectoryHistories.FreshRecords | src/demofs/ext2_dentry.c:241-403 | from a fresh directory, after any history, every record starts at a multiple of 4, and its length is one, too, of at least 8 and the length of its name |
| DirectoryHistories.HistoryLookups | src/demofs/ext2_dentry.c:314-403 | after any run of creations of names with room for their NUL, mixed with anything else, a name found before is found as before, any other name is found as what the first successful creation under it linked, and nothing else is found |
| DirectoryHistories.FreshLookups | src/demofs/ext2_dentry.c:241-403 | the same from a fresh directory over zeroes: its own two names and what was linked are all there is to find |
| RoundTrips.StoreAndFetch | src/demofs/ext2.c:365-464 | up to 12 blocks of data written to an empty file are read back, any part of them; it works exactly when that many blocks are free |
| Conservation.FreshTree | src/demofs/ext2_block.c:541-583 | an empty file grown to n blocks has n distinct data blocks and the computed number of distinct pointer blocks, all free before |
| Conservation.ExtendedCount | src/demofs/ext2_block.c:541-583 | growth of any file takes exactly its new data blocks and their pointer blocks out of the free set |
| Conservation.Leftover | src/demofs/ext2_inode.c:589-606 | giving back the data blocks leaves exactly the pointer blocks allocated |
| Conservation.Restored | src/demofs/ext2_inode.c:589-606 | bitmaps and all counters are back exactly for files of at most 12 blocks |
| Conservation.GrowThenDelete | src/demofs/ext2.c:314-485 | the same for a file grown and deleted through the operations |
| Conservation.AllocateAndFree | src/demofs/ext2_block.c:298-427 | allocating one block and freeing it restores disk and counters |
| Growths.AllocatedBounds | src/demofs/ext2.c:343-344 | growing through increasing sizes allocates at least what the last size needs and at most one block more for each growth |
| Growths.GrowInSteps | src/demofs/ext2.c:343-362 | a sequence of growths within the direct entries goes on exactly as far as the free blocks last; the nonzero entries stay a prefix and their number stays within these bounds |
| Chains.TiledLengths | src/demofs/ext2_dentry.c:54-77 | record lengths add up to the size and every record has room for its name |
| Chains.EntryRoundTrip | src/demofs/ext2_dentry.c:373-389 | a record stored at an offset is found there |
| Chains.EntryStores | src/demofs/ext2_dentry.h:17-23 | where inode, record length, name length, type and name are in a record |
| Chains.AddThenRemove | src/demofs/ext2_dentry.c:59-389 | adding a record for a new inode and removing it restores all records and record lengths |
| Chains.AddedKeeps | src/demofs/ext2_dentry.c:346-389 | adding keeps all earlier records but for the length of the last, and the sum of the lengths |
| Chains.NeedRoom | src/demofs/ext2_dentry.c:330-361 | a record takes the least multiple of 4 that holds its header and name |
| Chains.RecordsAligned | src/demofs/ext2_dentry.c:360-389 | aligned records, by the bytes of a directory: where each is stored, its length field and the length of its name |
| Chains.AlignedAdded | src/demofs/ext2_dentry.c:360-389 | adding a record keeps the records aligned |
| Chains.AlignedRemoved | src/demofs/ext2_dentry.c:59-68 | removing a record keeps the records aligned |
| Dentries.FindLast | src/demofs/ext2_dentry.c:346-358 | the walk ends at the last record of the chain |
| Dentries.AppendedParse | src/demofs/ext2_dentry.c:360-389 | the bytes after an append parse as the list with one more entry |
| Dentries.Append | src/demofs/ext2_dentry.c:323-389 | the record is appended exactly when the last one has room for both, and nothing changes otherwise; byte by byte, the last record shrinks to the least multiple of 4 that holds it, the new one takes the rest, and every other byte is kept; aligned records stay so |
| Dentries.RoomIs | src/demofs/ext2_dentry.c:360-389 | the last record has room for another exactly when adding to the list adds one, and the bytes then parse as that list |
| Dentries.WithEntryGrafted | src/demofs/ext2_dentry.c:360-389 | the same for the bytes of a whole directory |
| Removal.ErasedParse | src/demofs/ext2_dentry.c:60-68 | removing a later record keeps the chain, and the records behind it exactly when that is harmless |
| Removal.FirstErased | src/demofs/ext2_dentry.c:60-68 | removing the first record leaves a chain that no walk gets past |
| Removal.ErasedCleared | src/demofs/ext2_dentry.c:60-68 | the bytes after a removal, one by one |
| Removal.Remove | src/demofs/ext2_dentry.c:54-77 | the first record for the inode is removed: its header and first name byte are zero, the record before it takes over its length, and every other byte is kept; chain and list survive exactly under the stated conditions |
| Lookups.AllEntries | src/demofs/ext2_dentry.c:165-191 | the two passes return the entries with an inode, in order |
| Lookups.InUseParts | src/demofs/ext2_dentry.c:165-191 | what is listed of a list is what is listed of its parts, and an entry is listed exactly if it has an inode |
| Lookups.SameString | src/demofs/ext2_inode.c:372 | the stored string equals the name exactly when it starts with its bytes and a NUL; the comparison stays in the buffer |
| Lookups.Lookup | src/demofs/ext2_inode.c:368-381 | the scan returns the inode of the first record whose stored string equals the name |
| Lookups.FindFrame | src/demofs/ext2_inode.c:368-381 | what a name is found as depends only on the bytes up to a NUL behind the start of the last name |
| Lookups.FindIsByName | src/demofs/ext2_inode.c:368-381 | when every name is followed by a NUL, lookup on the bytes is lookup by name in the list |
| Lookups.FoundIsNamed | src/demofs/ext2_inode.c:368-381 | when every name is followed by a NUL, what can be found is what has the name |
| Names.AppendedQuiet | src/demofs/ext2_dentry.c:360-389 | from zeroed slack and name lengths that are no multiples of 4, every name keeps its NUL |
| Names.AppendedFind | src/demofs/ext2_dentry.c:360-389 | lookups before and after an append, byte by byte: the same until the last record, then the last and the new record |
| Names.LookupAfterCreate | src/demofs/ext2_dentry.c:314-403 | in a directory whose last name has its NUL and whose slack is zero: after a creation the new name is found as the child unless it was found before, every other lookup is unchanged, and the directory is ready for the next creation |
| Names.QuietErased | src/demofs/ext2_dentry.c:60-68 | a directory in which every name has its NUL stays so when a later record is removed |
| Names.ErasedFind | src/demofs/ext2_dentry.c:60-68 | lookups before and after a removal, byte by byte, whatever the names: the same until the record before the removed one, then that one, ended where the removed one began, then the same but for one low byte of an inode number |
| Names.RestoredName | src/demofs/ext2_dentry.c:60-68 | a name that fills its record reads as itself once the record behind it is removed, and its lookup gives its inode unless an earlier record reads the same; before, it did not read as itself unless that record had an inode number ending in a zero byte |
| Names.DeletedFind | src/demofs/ext2_dentry.c:54-77 | the same for the first record for an inode in a whole directory, whatever its names |
| Names.ByNameRemoved | src/demofs/ext2_dentry.c:60-68 | once a record with a name of its own is removed, that name is not there and every other name stands for what it did |
| Names.ShadowedName | src/demofs/ext2_dentry.c:360-389 | a last name whose length is a multiple of 4 is found after the next creation exactly when that inode number ends in a zero byte |
| Names.ShadowedLookup | src/demofs/ext2_dentry.c:360-389 | what looking up such a name then gives: its inode, or only what the new record has to offer |
| DirectoryRuns.InitialChain | src/demofs/ext2_dentry.c:248-302 | a fresh directory is tiled by the records of itself and its parent |
| DirectoryRuns.InitialBytes | src/demofs/ext2_dentry.c:248-302 | the two records of a fresh directory, byte by byte |
| DirectoryRuns.InitialLookup | src/demofs/ext2_dentry.c:248-302 | over zeroes, the two records are all that is found in a fresh directory, and it is ready for creations |
| DirectoryRuns.InitializeRecords | src/demofs/ext2_dentry.c:248-302 | the two records are written over the start of the block |
| DirectoryRuns.EditAll | src/demofs/ext2_dentry.c:15-403 | any history of creations and deletions on the bytes is that history on the list of entries, the chain stays tiled, and aligned records stay aligned |
| DirectoryRuns.HistoryAligned | src/demofs/ext2_dentry.c:15-403 | histories keep records aligned |
| DirectoryRuns.HistoryTotal | src/demofs/ext2_dentry.c:15-403 | along a history the record lengths keep their sum |
| Directories.LoadDirectory | src/demofs/ext2_dentry.c:333-344 | a directory is read into its buffer exactly when it ends within 12 blocks |
| Directories.StoreDirectory | src/demofs/ext2_dentry.c:391-395 | the bytes of a directory are replaced and nothing else |
| Directories.CreateDirectoryEntry | src/demofs/ext2_dentry.c:314-403 | succeeds exactly when there is room; the bytes, one by one, and the records on disk gain the entry, aligned records stay so, a directory stays ready for lookups, every other file is as before |
| Directories.DeleteDentry | src/demofs/ext2_dentry.c:41-95 | the records on disk lose the first entry for the inode, with the exact conditions for the chain and the list; the bytes it loses, and what every lookup gives afterwards, whatever the names; a directory in which every name has its NUL stays so and loses just that entry |
| Directories.GetAllDirs | src/demofs/ext2_dentry.c:139-195 | the entries with an inode of a directory on disk, in order |
| Directories.InitializeDirectory | src/demofs/ext2_dentry.c:241-312 | the two records are written over the bytes of the directory; one of 1024 bytes is then tiled by them |
| Directories.HardCodedSize | src/demofs/ext2_dentry.c:270 | over zeroes the new records tile the directory exactly when its size is 1024 |
| Paths.PathToParentAndName | src/demofs/ext2_util.c:50-75 | splits at the last slash; fails for the empty path only |
| Paths.Rejoined | src/demofs/ext2_util.c:50-75 | the name has no slash, and parent and name make up the path again exactly when there is a slash to split at |
| Paths.NextToken | src/demofs/ext2_inode.c:392-401 | the next nonempty component, whatever the repetitions of slashes |
| Paths.TokensSplit | src/demofs/ext2_util.c:50-75 | the components of a path are those of its parent and its name |
| Paths.ResolveSplit | src/demofs/ext2_inode.c:384-405 | for any way directories answer names, resolving a path is looking up its name in what its parent resolves to, or 0 when that is 0 |
| Paths.ResolveConcat | src/demofs/ext2_inode.c:384-405 | resolving one list of components after another, for any way directories answer names |
| Folders.ClosedTraversable | src/demofs/ext2_inode.c:384-405 | where every directory can be read and leads to live inodes, every path can be followed and leads to a live inode or nowhere |
| Folders.CreatedResolve | src/demofs/ext2.c:249-312 | a creation leaves every path that does not look up the new name as it was, and any other goes on from the new inode |
| Folders.CreatedClosed | src/demofs/ext2.c:249-312 | a creation keeps the namespace closed exactly when what was created can be read and leads to live inodes only |
| Folders.InitialNavigable | src/demofs/ext2_dentry.c:248-302 | that is so for a fresh directory of 1024 bytes exactly when some zero byte follows its two records |
| Namespaces.LookupIn | src/demofs/ext2_inode.c:345-382 | 0 for what is no directory, 1 for a directory that does not end within 12 blocks, otherwise the first record that reads as the name; without a NUL behind the last name the bytes behind the directory decide |
| Namespaces.PathToInode | src/demofs/ext2_inode.c:384-405 | the token walk over the disk resolves every path whose directories can be read |
| Namespaces.ResolveByParent | src/demofs/ext2_dentry.c:15-38 | splitting, resolving the parent and looking up the name there gives what resolving the whole path gives, unless the path ends with a slash |
| Namespaces.ReadPath | src/demofs/ext2.c:365-403 | reading by path: succeeds exactly when the path resolves to a file that is no directory, the range is within its size and the transfer is carried out |
| Namespaces.StepFolders | src/demofs/ext2_inode.c:384-405 | a step that leaves its own file as the walk sees it leaves every directory, so every path, as it was |
| Namespaces.NamespacePath | src/demofs/ext2_inode.c:384-405 | in a closed namespace every path can be followed on the disk and leads to a live inode or nowhere |
| Namespaces.WritePath | src/demofs/ext2.c:422-464 | writing by path: the result, what the named file then holds, all other files unchanged, and every directory, so every path, as before |
| NamedFiles.MakeInode | src/demofs/ext2.c:280-302 | a new inode with every byte of its record; a directory gets the lowest free block, its size and sectors, and its two records over what the block held, and without a free block stays empty |
| NamedFiles.CreateFile | src/demofs/ext2.c:266-311 | succeeds exactly when the parent is a directory with room and a new directory gets its block; the parent gains the entry, the new file is there as under NamedFiles.MakeInode, also when the parent has no room for the entry; under a parent that is no directory nothing changes; every other file is as before |
| Creations.CreatePath | src/demofs/ext2.c:249-312 | creating by path: without a parent directory nothing changes, otherwise the new inode and its file are those of NamedFiles.MakeInode, whether the entry finds room or not; when it succeeds, the path then resolves to the new inode, every other path resolves as before, and the namespace stays closed exactly when a new directory can be read |
| Removals.DeleteEntry | src/demofs/ext2_dentry.c:15-97 | deleting a directory entry by path: the first record for the inode that the path leads to goes from the directory that its parent leads to, and what every lookup there then gives |
| Removals.RemovePath | src/demofs/ext2.c:466-497 | deleting a file by path: result, files and directories afterwards; the blocks that the size calls for are free and the record is that of a dead inode; the parent loses the first record for the inode, whatever its name, and what every lookup there then gives |
| Removals.RestoredAnswer | src/demofs/ext2.c:466-497 | a name that was hidden by the record behind it is found again once that record is removed |
| Removals.DetachedResolve | src/demofs/ext2.c:466-497 | after that a path that looks up the removed name leads nowhere and every other path leads where it led |
| Removals.DetachedPath | src/demofs/ext2.c:466-497 | in particular the path of the file, when the removed record was its own |
| Removals.DetachedClosed | src/demofs/ext2.c:466-497 | a deletion keeps the namespace closed exactly when no record for the inode is left and it was not the root |
| NamedFiles.RemoveFile | src/demofs/ext2.c:475-490 | the file is gone, its blocks are free, its record is that of a dead inode, the parent loses the entry, with what every lookup there then gives; every other file is as before |
| NamedFiles.CreateThenRemove | src/demofs/ext2.c:249-497 | creating a regular file and deleting it restores the parent's records, the free blocks and all other files |
| Formatting.Format | src/demofs/ext2_block.c:382-427 | freeing every block without bitmaps or inodes of a full disk gives a sound partition without files |
| Formatting.FormatRoot | src/demofs/ext2.c:280-302 | a partition with an empty root directory exists for every geometry with 1024-byte blocks and a block to spare: a closed namespace whose root is ready for new names |
| Formatting.SmallIsProper | src/demofs/ext2_block.c:298-427 | a small geometry meets every demand of the model |

## Left out

- Files.AllocateBlocks: growth of an inode that already uses entries 12 to 14 is not modelled, because the code builds a fresh tree at entry 12 and loses the old one.
- Files.GrowTrees: the same.
- Ext2.GrowFile: the same, so the file has at most 12 blocks before it grows.
- Ext2.ResizeFile: the same for growth; for shrinking and deletion the block list must be one that the code can load, see Ext2.DeleteFile.
- Ext2.WriteFile: the same for growth; writes that start in the second half of a block are not modelled, because the head phase then copies past the end of its one-block buffer; the end of the range is below 2^32, as the size is cut to 32 bits on its way to the resize.
- Ext2.DeleteFile: a file whose size calls for more than 12 blocks, but neither for all of its blocks nor for whole trees below entries 12 to 14, is not modelled, because the block list then overruns its array; with indirect blocks, pointer buffers are cleared.
- Ext2.DeleteFileBlocks: the same.
- Runs.Serve: the wrapper refuses what the operations do not model, and shrinking by a whole block or more, after which no invariant holds for the file.
- ByteWrite.WriteInodeBytes: not stated for writes that start in the second half of a block, for the reason above.
- ByteRange.ReadInodeBytes: stated for ranges below mapped blocks; the code checks nothing there and relies on its callers.
- BlockList.LoadBlockList: the pointers behind the last block are zero, as they are when malloc hands out cleared memory or no indirect block is used; otherwise the code would list whatever the buffers held.
- Namespaces.PathToInode: directories on the way have records that tile their size and some NUL behind the start of the last name; a walk over other directories need not end or reads behind its buffer.
- Namespaces.LookupIn: the same for the directory, but for the NUL, without which the name is shorter than a block.
- Creations.CreatePath: the conclusion about all paths is for names with room for their NUL in a directory whose last name has its own; Names.ShadowedLookup says what happens otherwise.
- Removals.RemovePath: the file is no directory, as the way to the parent may lead through a directory that is already dead; what it means for all paths is stated for a parent in which every name has its NUL.
- `ext2_delete_n_blocks`: it frees blocks from the front of the list like shrinking does, which `Ext2.ShrinkFile` covers.
- The inode bitmap and the counters of free inodes and used directories: inode numbers are given, and deletion frees blocks and clears the inode. The blocks of the inode bitmaps belong to no file.
- Flushing and registration of partitions: the superblock and the group descriptors are in-memory state.
- Failures of malloc and of the disk: the disk answers every transfer at an address within its range. One beyond it is a failure that ends the operation.
- Disks above 4 GiB: on them the 32-bit product of block number and block size names other blocks.
- The width of the free counters (16 bits for a group, 32 bits for the disk): they are unbounded, and a group has at most as many blocks as its bitmap has bits.
- Separate functions for single, double and triple indirection: they differ only in the callee and are one method over the height of the tree.
- Source buffers of writes are values; destination buffers of reads are arrays.
- The garbage behind a directory in its buffer is arbitrary.
- Time, user, group and the unique identifier are parameters.
- Error log, printing, dumping, listing callbacks, permissions and the mount list: output and administration.
