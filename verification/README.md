# UDBFS in Dafny

A Dafny model of UDBFS, the small file system of the Unununium operating system, and of the array
containers it ships with.

UDBFS keeps a file in blocks of a device. An inode points at four data blocks and at an indirect, a
bi-indirect and a tri-indirect block of ids; the library `udbfslib` grows that tree one block at a time,
finds the block under the cursor by division, moves bytes through it, writes the ids to the device when
the file is closed and rebuilds the tree when it is opened again. `mkudbfs` lays out an empty device and
`udb-instboot` installs a boot loader on it.

The model has two layers. One is made of values: a tree is a map from positions to block ids, a device is
a sequence of bytes, an allocator is a sequence of bits and a count, and every call of the library is a
function on these. The other is made of classes, with the fields, loops and link points of the C code,
and each of its methods is proved to do to the heap and the device what the function of the first layer
says. What the library is for is proved about the functions, for every run of calls on any number of
files.

| file | what it models |
|---|---|
| `arith.dfy`, `seqs.dfy`, `bytes.dfy` | division by a variable, sequences, little-endian words, the block device |
| `bitmap.dfy` | the first-fit bitmap allocator |
| `layout.dfy`, `locate.dfy` | positions in the tree, growth by one leaf, the position under a cursor |
| `filespec.dfy` | writing and reading as functions, what a write costs and when it can be paid for |
| `trees.dfy`, `inode.dfy` | the tree of linked nodes, and the functions that grow, search, write and read it |
| `ondisk.dfy`, `diskbytes.dfy`, `close.dfy`, `open.dfy` | the tree on the device, its bytes; closing and opening |
| `system.dfy` | runs of calls over many files, against a map from names to byte strings |
| `pieces.dfy`, `lost.dfy`, `reopen.dfy` | writes cut into pieces, writes that lose a block, writes to a file opened again |
| `superblock.dfy`, `mount.dfy`, `format.dfy`, `remount.dfy`, `formatfiles.dfy` | the superblock, mounting, formatting, unmounting and mounting again, what no call touches |
| `instboot.dfy`, `install.dfy` | the boot loader installer, and when it may be called |
| `session.dfy`, `lifetime.dfy` | several open inodes on the heap; a device formatted, mounted and used |
| `table.dfy`, `outfile.dfy` | columns of a table, sorted and laid out; the chain of blocks `mkudbfs` writes to |
| `vector.dfy`, `valvector.dfy` | ordered, sorted and lazily initialised vectors |

Sizes, offsets and ids are unbounded naturals. Words on the device have 64 bits, bytes have 8, and the least
significant byte of a word comes first, as on the i386 the system is for.

## Model

| member | source | states |
|---|---|---|
| Bitmap.BitsAre | toolchain/udbfslib/allocate_bit.c:56-61 | id j is bit j % 8 of byte j / 8, counted from the lowest |
| Bitmap.AllocateBit | toolchain/udbfslib/allocate_bit.c:28-62 | for every bitmap and count: with a count of 0 or above the number of bits, or without a set bit, 0 and no change; else the least set bit is cleared, no other, its number returned and the count one less |
| Bitmap.TakeHealthy | toolchain/udbfslib/allocate_bit.c:36-61 | with bit 0 clear and the count equal to the free ids, an allocation returns 0 exactly when nothing is free, else the least free id, clears that bit only, and the count stays right |
| Bitmap.TakeManyRun | toolchain/udbfslib/allocate_bit.c:36-61 | over any run of allocations that does not exceed the count, ids strictly increase, were free before and are taken after, and no other bit changes |
| Bitmap.FailureValueHonest | toolchain/udbfslib/allocate_bit.c:36-61 | returning 0 means that nothing was taken if and only if nothing is free, the count is refused as too large, or bit 0 is clear |
| Bitmap.SubtractClearsBit | toolchain/mkudbfs/mkudbfs.c:369 | subtracting the mask of a set bit, as mkudbfs does, and flipping it, as the library does, are the same |
| Layouts.ExtendAppends | toolchain/udbfslib/write_to_inode.c:292-367 | growth succeeds exactly when a block is free and the tree has room; it fills position n with the id taken first, keeps every position and id there was, and leaves a tree with exactly the first n+1 leaves (positions and ids only; the offsets of the new block are stated by `Inodes.Inode.ExtendInode`) |
| Layouts.ExtendCosts | toolchain/udbfslib/write_to_inode.c:296-358 | an extension uses one block for the leaf and one for every index block it starts; where fewer are free, the bitmap ends empty and some index block has id 0 |
| Layouts.ExtendSound | toolchain/udbfslib/write_to_inode.c:296-363 | when the blocks it needs are free, the ids stay nonzero and unshared, and the ids added were free before |
| Layouts.ExtendSoundIff | toolchain/udbfslib/write_to_inode.c:328-352 | with a block free and room in the tree, ids stay nonzero and unshared if and only if all the blocks the extension needs are free |
| Layouts.ShortExtension | toolchain/udbfslib/write_to_inode.c:328-332 | for every block size there is a state in which the library extends although the indirect block gets id 0 |
| Layouts.ClosedBelowCapacity | toolchain/udbfslib/write_to_inode.c:353-358 | no leaf lies past the last slot of the tri-indirect block |
| Locating.LocateFindsLeaf | toolchain/udbfslib/select_active_inode_block.c:23-73 | the divisions and remainders lead to leaf cursor / block_size with every slot index in range for every cursor below the largest file size, and refuse every other cursor |
| FileSpec.AddressInjective | toolchain/udbfslib/write_to_inode.c:76 | different bytes of a file have different addresses on the device |
| FileSpec.WriteSplices | toolchain/udbfslib/write_to_inode.c:51-95 | whatever the bitmap or the device refuses, the bytes reported as written replace those under the cursor, all other bytes of the file stay, the cursor moves past them and the size grows to the cursor |
| FileSpec.WriteComplete | toolchain/udbfslib/write_to_inode.c:63-94 | a write the tree has room for and the bitmap can pay for writes every byte, keeps ids nonzero and unshared, and lowers the free count by exactly the leaves and index blocks the file gains |
| FileSpec.WriteCompleteIff | toolchain/udbfslib/write_to_inode.c:63-94 | that guard is exact: a write is complete and leaves sound ids if and only if the tree has room and the blocks are free |
| FileSpec.WriteTouches | toolchain/udbfslib/write_to_inode.c:81-82 | a write changes no byte of the device outside the data blocks of its file |
| FileSpec.WriteHolds | toolchain/udbfslib/write_to_inode.c:296-363 | a write that is paid for loses no block: a block that was free is still free or held by the file |
| FileSpec.FullTreeLosesBlock | toolchain/udbfslib/write_to_inode.c:296-358 | extending a full tree takes a free block that then is neither free nor part of the file |
| FileSpec.ExtendLosesNoneIff | toolchain/udbfslib/write_to_inode.c:296-358 | an extension loses no block if and only if the tree has room for the leaf or no block is free |
| LostBlocks.FullTreeExists | toolchain/udbfslib/write_to_inode.c:292-358 | for every block size there is a full tree in order with a block still free, so that the loss does happen |
| LostBlocks.WriteLosesNoneIff | toolchain/udbfslib/write_to_inode.c:63-94 | a write loses no block if and only if it stays below the end of the tree or the bitmap runs out on the way there |
| Pieces.WriteReaches | toolchain/udbfslib/write_to_inode.c:63-94 | whatever ids a tree has, as long as they name blocks of the device, a write keeps the ids that are there and is never refused by the device |
| Pieces.WritePieces | toolchain/udbfslib/write_to_inode.c:63-94 | a write cut in two at any byte, inside a block or between blocks, does what the whole write does, or stops where the first part stops |
| FileSpec.ReadIsContent | toolchain/udbfslib/read_from_inode.c:30-60 | whatever the device refuses, what is read are bytes of the file from the cursor on, and none past its end |
| FileSpec.ReadComplete | toolchain/udbfslib/read_from_inode.c:30-60 | when the blocks of the file lie on the device, a read gives all that was asked for and is there |
| Trees.LinkChild | toolchain/udbfslib/write_to_inode.c:231-234 | hooking a new node into an empty slot, at any level, gives the linked tree with one more position |
| Trees.LinkRoot | toolchain/udbfslib/write_to_inode.c:304-307 | the same for the seven link points of the inode itself |
| Inodes.Inode.constructor | toolchain/udbfslib/allocate_memory_inode.c:28-58 | a new inode is an empty file with an empty tree, listed in the mount |
| Inodes.Inode.ExtendIndBlock | toolchain/udbfslib/write_to_inode.c:262-286 | the first empty slot takes leaf n at its offset; the block is refused, and nothing changes, exactly when n lies past it |
| Inodes.Inode.ExtendBindBlock | toolchain/udbfslib/write_to_inode.c:215-256 | the first indirect block with room takes leaf n, allocated on the way if it is missing; refused without any change only when n lies past the bi-indirect block |
| Inodes.Inode.ExtendTindBlock | toolchain/udbfslib/write_to_inode.c:373-413 | the first bi-indirect block with room takes leaf n, with the index blocks missing on the way; refused without any change only when n lies past the tree |
| Inodes.Inode.ExtendInode | toolchain/udbfslib/write_to_inode.c:292-367 | the tree in memory and the bitmap become what `Extend` says; the new block carries the id taken first, file bytes n*block_size to (n+1)*block_size and the device address of its id, and all other nodes keep ids, offsets and slots consistent |
| Inodes.Inode.SelectActiveBlock | toolchain/udbfslib/select_active_inode_block.c:18-74 | following slots from the inode gives the node of leaf cursor / block_size, with offset_start <= cursor < offset_end and the device address of its id, or null exactly when the tree has no such leaf |
| Inodes.Inode.StoreChunk | toolchain/udbfslib/write_to_inode.c:76-92 | one chunk goes to the address id * block_size + cursor % block_size and cursor and size follow, or nothing moves when it does not fit on the device |
| Inodes.Inode.WriteToInode | toolchain/udbfslib/write_to_inode.c:51-95 | the loop over linked nodes, bitmap and device does what `WriteAll` says, and the tree stays well formed |
| Inodes.Inode.ReadFromInode | toolchain/udbfslib/read_from_inode.c:18-61 | the bytes `ReadAll` gives land at the front of the buffer, the rest of it stays, and only the cursor moves |
| Inodes.CreateInode | toolchain/udbfslib/create_inode.c:18-38 | an empty file under the least free inode id with its record at that id's place; without a free id, null, and the dropped inode stays in the list of open ones |
| OnDisk.CloseStores | toolchain/udbfslib/close_inode.c:36-84 | after closing, every slot of every index block at any depth and every field of the record is on the device |
| Bytes.WordIsLittleEndian | toolchain/udbfslib/udbfs.h:57-63 | a word on the device is the sum of its eight bytes, each times a power of 256, the first times 1 |
| Bytes.WordByte | toolchain/udbfslib/udbfs.h:57-63 | byte i of a word that is stored is digit i of the number to the base 256, whatever its size |
| DiskBytes.CloseWritesRecord | toolchain/udbfslib/close_inode.c:36-81 | byte for byte: closing writes the size, the ids of the four direct blocks, then those of the indirect, bi-indirect and tri-indirect block, with 0 for a block that is not there |
| DiskBytes.CloseWritesIndSlot | toolchain/udbfslib/unload_block.c:86-94 | byte for byte: slot k of indirect block m holds the id of leaf 4 + m*p + k, or 0, p being the number of slots |
| DiskBytes.CloseWritesBindSlot | toolchain/udbfslib/unload_block.c:34-47 | byte for byte: slot k of bi-indirect block b holds the id of indirect block 1 + b*p + k, or 0 |
| DiskBytes.CloseWritesTindSlot | toolchain/udbfslib/unload_block.c:118-130 | byte for byte: slot k of the tri-indirect block holds the id of bi-indirect block 1 + k, or 0 |
| OnDisk.CloseTouches | toolchain/udbfslib/unload_block.c:34-47 | closing changes no byte outside the file's own index blocks and its record |
| OnDisk.ReloadIsPad | toolchain/udbfslib/open_inode.c:43-51 | from what closing stored, opening rebuilds size, positions and ids, with blocks of id 0 in the direct slots that were empty |
| OnDisk.PadIsDense | toolchain/udbfslib/open_inode.c:44-47 | the reopened tree has the leaves it had, four at least; it is the tree that was closed if and only if that had four leaves or more |
| OnDisk.CloseKeepsContent | toolchain/udbfslib/close_inode.c:36-84 | closing leaves the bytes of the file as they are |
| OnDisk.CloseThenOpen | toolchain/udbfslib/open_inode.c:43-51 | a closed file comes back with its size and its bytes, ready to be read from the start |
| OnDisk.ReopenedSoundIff | toolchain/udbfslib/open_inode.c:44-47 | a reopened file has blocks of its own behind all its leaves if and only if it was closed with four leaves or more |
| Reopening.OwnPart | toolchain/udbfslib/write_to_inode.c:63-94 | within the blocks it had, a reopened file is written like the file that was closed, completely and without taking a block |
| Reopening.ReopenedShortFileWritesBootBlock | toolchain/udbfslib/load_block.c:42-46 | any write that gets past the blocks of a reopened file with fewer than four first fills these, then writes its next chunk over the start of the device without allocating anything, and goes on |
| Reopening.ReopenedWriteIff | toolchain/udbfslib/open_inode.c:44-47 | the bytes a write to a reopened file writes all go to blocks of the file if and only if it came back with four blocks or more, or the write stays within its blocks |
| OnDisk.PadClose | toolchain/udbfslib/close_inode.c:45-63 | closing a reopened file stores what closing the original stored |
| Closing.UnloadIndBlock | toolchain/udbfslib/unload_block.c:69-96 | one seek and the writes that follow store the ids of the blocks in the slots, eight bytes each from the block's device offset on, least significant first and 0 for an empty slot |
| Closing.UnloadBindBlock | toolchain/udbfslib/unload_block.c:18-50 | every indirect block below and then the ids, each at a place of its own, as `Flush` says |
| Closing.UnloadTindBlock | toolchain/udbfslib/unload_block.c:102-133 | the whole tree below the tri-indirect block, as `Flush` says |
| Closing.CloseInode | toolchain/udbfslib/close_inode.c:19-88 | the bytes of the record are those of the inode's size and of the ids its link points lead to, the device as a whole is what `Close` says, and the inode is no longer listed |
| Opening.LoadBlock | toolchain/udbfslib/load_block.c:26-49 | a data block with this id, its file offsets and its device address joins the tree |
| Opening.FillInd | toolchain/udbfslib/load_ind_block.c:82-101 | the loop with its running offset puts a block at the right file offset into every slot with a nonzero id |
| Opening.LoadIndBlock | toolchain/udbfslib/load_ind_block.c:29-105 | an indirect block in slot j and all its leaves come back from the device, as `LoadAt` says, also when a load fails midway |
| Opening.FillBind | toolchain/udbfslib/load_bind_block.c:81-99 | the same one level up, stopping at the first load that fails |
| Opening.LoadBindBlock | toolchain/udbfslib/load_bind_block.c:30-103 | a bi-indirect block and everything below it comes back |
| Opening.FillTind | toolchain/udbfslib/load_tind_block.c:78-96 | the same for the bi-indirect blocks of the tri-indirect one |
| Opening.LoadRootInd | toolchain/udbfslib/load_ind_block.c:29-105 | the inode's own indirect block, from the offset behind the direct ones |
| Opening.LoadRootBind | toolchain/udbfslib/load_bind_block.c:30-103 | the inode's own bi-indirect block, from the offset behind the indirect ones |
| Opening.LoadRootTind | toolchain/udbfslib/load_tind_block.c:30-100 | the inode's tri-indirect block, from the offset behind the bi-indirect ones |
| Opening.LoadTree | toolchain/udbfslib/open_inode.c:44-51 | the seven loads, up to the first that fails, build a well-formed tree of the positions `Load` gives |
| Opening.OpenInode | toolchain/udbfslib/open_inode.c:18-55 | the inode of the record at the id's place, cursor at 0, with the stored size and tree, listed and well formed; null, with nothing more listed, exactly when the record is not on the device; the device does not change |
| Systems.StepMeets | toolchain/udbfslib/udbfslib.h:203-230 | every call a caller may make keeps the invariant and does to the files what it does to a map from ids to byte strings with a cursor |
| Systems.RunRefines | toolchain/udbfslib/udbfslib.h:203-230 | any run of creates, writes, reads, closes and opens, over any number of files, has the outcomes and leaves the contents of that map, and keeps the invariant |
| Systems.OtherFile | toolchain/udbfslib/write_to_inode.c:76-86 | a call that keeps to one file's blocks and record leaves every other file, open or closed, valid and with the same bytes |
| Systems.NotShared | toolchain/udbfslib/write_to_inode.c:296-363 | no block is held twice, by one file or by two, and none that is held is free |
| Systems.RunLosesNoBlock | toolchain/udbfslib/write_to_inode.c:296-363 | over any run the blocks that are free or held by a file stay the same |
| Systems.SessionAllowed | toolchain/udbfslib/write_to_inode.c:63-94 | with an inode free and room for all the bytes, creating, appending in any pieces, closing, opening and reading can all be done |
| Systems.WhatIsWrittenIsReadBack | toolchain/udbfslib/open_inode.c:43-51 | and the read gives exactly the bytes written, in order, whatever other files there are |
| Superblocks.FieldsRead | toolchain/udbfslib/udbfs.h:31-52 | each of the twenty fields of the superblock is the word or byte at its own offset, from 1024 on |
| Superblocks.FieldsStored | toolchain/udbfslib/mount.c:222-245 | and is stored there, cut to 64 bits |
| Superblocks.MountableIff | toolchain/udbfslib/mount.c:281-321 | a device can be mounted if and only if it has the magic number, version 1, a block size log of at most 20, free counts within the counts, and the bitmaps on it |
| Superblocks.BitmapsRead | toolchain/udbfslib/mount.c:96-100 | the block bitmap is read from bitmaps_block * block_size on, the inode bitmap right behind it |
| Superblocks.SuperRoundTrip | toolchain/udbfslib/udbfs.h:31-52 | the packed superblock, written and read again, is the same |
| Superblocks.MountRoundTrip | toolchain/udbfslib/mount.c:194-247 | unmounting and mounting again restores both bitmaps and every field of the superblock |
| Mounting.ValidateSuperblock | toolchain/udbfslib/mount.c:272-333 | accepts exactly the superblocks with the magic number, version 1, block size log at most 20 and free counts within the counts |
| Mounting.MountDevice | toolchain/udbfslib/mount.c:30-159 | a mount whose fields are the words and bytes at their offsets, with both bitmaps in arrays of their own, the block size 128 << log, and the inode table at inode_first_block * block_size; null exactly when the superblock is not valid or a bitmap does not lie on the device |
| Mounting.Unmount | toolchain/udbfslib/mount.c:194-247 | saves both bitmaps and then each field of the superblock at its offset |
| Formatting.SearchDeviceSize | toolchain/mkudbfs/mkudbfs.c:142-165 | the halving search ends at the largest offset the device can seek to |
| Formatting.ChooseBlockSize | toolchain/mkudbfs/mkudbfs.c:208-215 | the largest block size from 4096 down that gives 2000 blocks, or 256 bytes when none does |
| Formatting.GenerateBitmap | toolchain/mkudbfs/mkudbfs.c:313-339 | (bits + 7) / 8 bytes, all of them 255 but the last, which is 0, 1, 3, 7, ... 255 for 0, 1, 2, 3, ... 8 or more whole bytes |
| Formatting.OffersAllIff | toolchain/mkudbfs/mkudbfs.c:313-339 | a new bitmap offers every id it is made for if and only if that is 64 ids or more, or 0 < bits % 8 <= bits / 8 |
| Formatting.SmallDeviceOffersOne | toolchain/mkudbfs/mkudbfs.c:313-339 | on a device of 2048 bytes the block bitmap offers block 0 and not block 1 |
| Formatting.NewBitmapIsFree | toolchain/mkudbfs/mkudbfs.c:313-339 | from 64 ids on every bit of the new bitmap is set |
| Formatting.ReserveBit | toolchain/mkudbfs/mkudbfs.c:345-371 | gives up exactly when the count is used up, else clears the least set bit and no other, whatever the count; where the library's allocator accepts the count it does the same |
| Formatting.ReserveRun | toolchain/mkudbfs/mkudbfs.c:253-267 | n reservations in a row take a contiguous run of ids |
| Formatting.ReserveAreas | toolchain/mkudbfs/mkudbfs.c:252-267 | boot area, inode table and bitmaps get contiguous areas in this order, exactly when there are blocks enough |
| Formatting.CloseSmallFile | toolchain/mkudbfs/mkudbfs.c:497-538 | a file that fits in four blocks is stored block by block under the next ids, and its record at its place |
| Formatting.CloseSmallStores | toolchain/mkudbfs/mkudbfs.c:497-576 | the record and every block of a file that mkudbfs closes are on the device, at the places of their ids |
| Formatting.SmallFileOpens | toolchain/udbfslib/open_inode.c:43-51 | as long as they are there, the library opens the file with the same bytes |
| Formatting.BootAreaHoldsSuperblock | toolchain/mkudbfs/mkudbfs.c:218-221 | the boot area is at least 2048 bytes long for every block size |
| Formatting.BlocksAre | toolchain/mkudbfs/mkudbfs.c:214 | the block count is the number of whole blocks the device has |
| Formatting.PlanIs | toolchain/mkudbfs/mkudbfs.c:208-262 | in numbers: block sizes 256 to 4096; 8, 4, 2, 1 or 1 boot blocks; an inode for every 128 KiB, 64 at least; and the least number of blocks that holds the inode records, both bitmaps, the root table |
| Formatting.PlanFits | toolchain/mkudbfs/mkudbfs.c:208-267 | the superblock, all inode records and both bitmaps fit into the areas planned for them, and these on the device |
| Formatting.ChoosePlan | toolchain/mkudbfs/mkudbfs.c:208-262 | the numbers mkfs works with, with 64 blocks and 64 inodes at least |
| Formatting.MakeFiles | toolchain/mkudbfs/mkudbfs.c:269-286 | root table, bad blocks and journal get inodes 0, 1 and 2; the records of the last two are all zeros, and the first is on the device with its blocks |
| Formatting.Mkfs | toolchain/mkudbfs/mkudbfs.c:191-308 | formatting succeeds exactly when the blocks for the areas and the root table are there; mounting then finds the planned geometry, exactly the reserved blocks and three inodes taken, and right counts; the root table is the file of inode 0 and the records of inodes 1 and 2 are 128 zero bytes |
| Formatting.SuperWritten | toolchain/mkudbfs/mkudbfs.c:291-296 | every field of the superblock of a formatted device, at its offset, in numbers |
| Remounting.FormatAgrees | toolchain/udbfslib/mount.c:92-102 | mount recomputes the offsets mkfs wrote to; superblock, inode table and bitmaps lie apart in front of the first block a file can get, and the mounted device satisfies the invariant of `Systems` |
| Remounting.RemountKeepsFiles | toolchain/udbfslib/mount.c:194-247 | saving a mount and mounting the device again keeps bitmaps, counts and geometry, and every file its bytes |
| Remounting.FormatRunRemount | toolchain/udbfslib/mount.c:30-259 | after formatting, mounting, any run of calls that leaves all files closed, unmounting and mounting again, the bitmaps and counts are those of the end of the run and every file has the bytes that were written |
| FormatFiles.StepTouchesNone | toolchain/udbfslib/udbfslib.h:203-230 | no call changes a byte in front of the data blocks that is not in the record of an inode from r on, where the first r inodes are taken and none is a file; r is 1 at least |
| FormatFiles.RunTouchesNone | toolchain/udbfslib/udbfslib.h:203-230 | nor does any run of calls |
| FormatFiles.FormatFilesStay | toolchain/mkudbfs/mkudbfs.c:269-286 | after formatting, any run of calls, and unmounting, the library opens inode 0 as the root table that formatting wrote, and the inodes of the bad blocks and the journal as empty files that hold no block |
| Lifetimes.MountIsSystem | toolchain/udbfslib/mount.c:88-146 | the mount that comes from a device is the system the theorems about runs start from |
| Lifetimes.FormatAndStore | toolchain/udbfslib/mount.c:30-159 | format, mount, create, write, close, open and read, on the heap and one device: it succeeds exactly when the plan leaves room for the bytes, which is computed beforehand, and then they come back |
| BootLoaders.SetBootLoaderInode | toolchain/udbfslib/set_boot_loader_inode.c:16-28 | accepts exactly the ids of the inode table |
| BootLoaders.WriteFile | toolchain/udbfslib/write_to_inode.c:51-95 | writing through the nodes in memory is one write step of the system |
| BootLoaders.ReadFile | toolchain/udbfslib/read_from_inode.c:18-61 | reading through the nodes in memory is one read step, and the buffer holds the bytes of that step |
| BootLoaders.TransferIsWrite | toolchain/udbfstools/udb-instboot.c:82-99 | the transfer loop does what one write of the whole source does, however the buffer cuts it up, also when it stops early |
| BootLoaders.TransferAndClose | toolchain/udbfstools/udb-instboot.c:82-102 | the loop over linked nodes, bitmap and device leaves what that write and a close leave, and returns -1 exactly when not all was written |
| BootLoaders.Install | toolchain/udbfstools/udb-instboot.c:56-102 | on any mount in order whose boot loader, if there is one, is a closed file: without a free inode it returns -1; else device, bitmaps and result are those of opening or creating the file, writing the source and closing, also when that does harm; a new inode is recorded in the mount |
| Installing.WritesAllowedIff | toolchain/udbfslib/write_to_inode.c:63-94 | two writes one after the other can be made if and only if the write of both can |
| Installing.TransferAllowedIff | toolchain/udbfstools/udb-instboot.c:82-99 | the transfer can be made if and only if the source could be written at once |
| Installing.InstallAllowedIff | toolchain/udbfstools/udb-instboot.c:56-102 | every call of the installer is one that is allowed if and only if: for a first boot loader, there is an inode and room; for another, it is a closed file and the source fits in its blocks, or it has four and there is room for what the source adds |
| Installing.InstallSafeIff | toolchain/udbfstools/udb-instboot.c:56-102 | the installer reports success with every byte of the source in a block of the file and no index block with id 0 if and only if it is called under that condition |
| Installing.InstallIsRun | toolchain/udbfstools/udb-instboot.c:56-102 | called under that condition it succeeds and leaves what the run of allowed calls leaves |
| Installing.FirstInstallAllowed | toolchain/udbfstools/udb-instboot.c:64-99 | with an inode free and room for the file, a first installation can be made |
| Installing.InstallGives | toolchain/udbfstools/udb-instboot.c:56-102 | the installed file is then the source laid over what an older, longer one had behind it, closed, and no other file changes |
| Installing.InstalledIsSourceIff | toolchain/udbfstools/udb-instboot.c:56-102 | it is the source and nothing else if and only if it is the first one or the older one was not longer |
| Installing.InstallBootLoader | toolchain/udbfstools/udb-instboot.c:56-102 | the installer on the heap, called under its condition, first or repeated: success, and exactly that change to the files |
| Sessions.WriteBeside | toolchain/udbfslib/write_to_inode.c:51-95 | writing one open inode keeps another one on the same mount well formed, with the same nodes, ids, offsets, cursor and size |
| Sessions.StoreAndFetch | toolchain/udbfslib/open_inode.c:18-55 | created, written, closed, opened through a new inode and read on the heap, the bytes are the same |
| Tables.AddColumn | toolchain/mkudbfs/mkudbfs.c:809-929 | the column goes to the front of the list, also when its type is unknown and -1 is returned; on success it has the bits of its type times size and count (a varchar 32 more for each of count, an enumeration 32 times count), padded to the least multiple of 8 above 8, and the boundary of its type, in numbers |
| Tables.FindLargest | toolchain/mkudbfs/mkudbfs.c:954-963 | the scan finds the first column with the largest boundary and the one in front of it |
| Tables.ReorderColumns | toolchain/mkudbfs/mkudbfs.c:936-981 | relinks the same nodes in place into the list `Ordered` gives, which ends |
| Tables.OrderedPermutes | toolchain/mkudbfs/mkudbfs.c:952-980 | no column is lost or duplicated |
| Tables.OrderedIsSorted | toolchain/mkudbfs/mkudbfs.c:952-980 | natural boundaries do not increase along the list |
| Tables.OrderedIsStable | toolchain/mkudbfs/mkudbfs.c:957 | columns with the same boundary keep their order |
| Tables.GenerateTableDefinition | toolchain/mkudbfs/mkudbfs.c:995-1013 | the columns of the sorted list follow each other from bit 0 on without a gap, with shifts below 8, each at a multiple of its boundary; the record is the least multiple of 1 << alignment bytes that holds them, or 4 |
| Tables.SizeInBoundaries | toolchain/mkudbfs/mkudbfs.c:842-926 | the size of a column that was added successfully, padding included, is a multiple of its natural boundary |
| Tables.LayoutIsAligned | toolchain/mkudbfs/mkudbfs.c:995-1013 | every column starts at a bit that is a multiple of its boundary, no two overlap, and all lie in the record |
| Tables.UnsortedIsMisaligned | toolchain/mkudbfs/mkudbfs.c:995-1004 | without the sort a one-bit column puts a 32-bit one at bit 1 |
| OutFiles.OutFile.constructor | toolchain/mkudbfs/mkudbfs.c:379-393 | a new file is an empty chain |
| OutFiles.OutFile.AllocateBlock | toolchain/mkudbfs/mkudbfs.c:603-641 | a block goes to the end of the chain, linked behind the last, with the offsets n*size to (n+1)*size as the n-th |
| OutFiles.OutFile.WriteToFile | toolchain/mkudbfs/mkudbfs.c:705-743 | appends: what was written before, and then the data |
| OutFiles.OutFile.ChainHoldsFile | toolchain/mkudbfs/mkudbfs.c:705-743 | byte c of all that was written is byte c % size of block c / size, and file_size is the number of bytes written |
| Vectors.Vector.Resize | snap/include/clib/wcvbase.h:625-631 | entries that no longer fit are dropped, the others stay in order |
| Vectors.Vector.InsertAt | snap/include/clib/wcvbase.h:450-482 | the entry goes between those in front of the index and those behind, an index out of range to the nearest end; a full vector becomes longer by resize_grow, and does not change when that is 0 |
| Vectors.Vector.RemoveAt | snap/include/clib/wcvbase.h:486-495 | the entry at the index goes, the others stay in order |
| Vectors.Vector.OrderedFind | snap/include/clib/wcvbase.h:677-689 | the first entry equivalent to the element from a start on, if and only if there is one |
| Vectors.Vector.SortedFind | snap/include/clib/wcvbase.h:722-771 | binary search finds the least matching index if and only if there is a match |
| Vectors.Vector.SortedFindForInsert | snap/include/clib/wcvbase.h:722-771 | the search for an insertion ends behind exactly the entries the element is not less than |
| Vectors.Vector.Find | snap/include/clib/wcvbase.h:722-771 | both kinds of vector find the first match, and the next one from right behind a match |
| Vectors.Vector.SortedInsert | snap/include/clib/wcvbase.h:775-782 | the vector stays sorted, gains exactly this entry, behind everything equivalent to it, across growth; a full vector that must not grow does not change |
| Vectors.Vector.OccurrencesOf | snap/include/clib/wcvbase.h:544-556 | counts the entries equivalent to the element |
| Vectors.Vector.RemoveAll | snap/include/clib/wcvbase.h:574-607 | one pass leaves exactly the entries that are not equivalent, in order, and returns what occurrencesOf gave before |
| Vectors.KeepIsFilter | snap/include/clib/wcvbase.h:574-607 | what removeAll leaves contains an entry if and only if it was there and is not equivalent, and is the whole vector if and only if there was no occurrence |
| Vectors.KeepJoins | snap/include/clib/wcvbase.h:574-607 | each entry is kept or not by itself, and what is kept keeps its order |
| ValVectors.ValVector.Filled | snap/include/clib/wcvector.h:93-100 | every element of the new vector is the given value |
| ValVectors.ValVector.Copy | snap/include/clib/wcvbase.h:158-181 | the copy shows what the original shows, although only initialised elements are copied |
| ValVectors.ValVector.Resize | snap/include/clib/wcvbase.h:253-284 | what is seen is cut off, or filled up with default values |
| ValVectors.ValVector.InitUpto | snap/include/clib/wcvbase.h:209-219 | initialising elements changes nothing that can be seen |
| ValVectors.ValVector.Locate | snap/include/clib/wcvector.h:110-134 | indexing makes the element ready for use; past the end it makes the vector longer with default values, below 0 it means the first element |
| ValVectors.ValVector.Get | snap/include/clib/wcvector.h:110-134 | reading through the index gives the element seen there |
| ValVectors.ValVector.Set | snap/include/clib/wcvector.h:110-134 | assigning through the index changes that element only |
| ValVectors.ValVector.Assign | snap/include/clib/wcvbase.h:149-154 | an assigned vector shows what the original shows, also when it is assigned to itself |
| ValVectors.ResizedTwice | snap/include/clib/wcvbase.h:253-284 | filling up and cutting off again is cutting off; cutting off and filling up again forgets exactly what was cut off |

## Findings

Properties a reader would expect that fail of the code, each with the exact condition under which they hold.

- Index blocks are allocated without a check (write_to_inode.c:235, 330, 340, 350, 393). When a data block
  is free but not all the index blocks above it are, the extension succeeds and an index block has id 0.
  `ExtendSoundIff` gives the condition, `ShortExtension` a state for every block size, and
  `WriteCompleteIff` the guard a caller can check before a write.
- The data block is taken before the tree is searched for a place (write_to_inode.c:296). On a full tree it
  is lost: `FullTreeLosesBlock`, and `FullTreeExists` for a tree where that happens. `ExtendLosesNoneIff`: an
  extension loses nothing if and only if the tree has room or nothing is free. `WriteLosesNoneIff`: a write
  loses nothing if and only if it stays below the end of the tree or the bitmap runs out before it gets there.
- 0 is both an id and the failure value of the allocator. `FailureValueHonest`: the two can be told apart
  if and only if bit 0 is clear, or there is nothing to take. `Mkfs` leaves bit 0 of both bitmaps clear.
- Opening makes a block of every direct slot, also of an empty one (open_inode.c:44-47, load_block.c). A
  reopened file has sound ids if and only if it was closed with four blocks or more (`ReopenedSoundIff`). A
  write to it keeps to the file's blocks if and only if it was closed with four or more, or the write stays
  within those it had (`ReopenedWriteIff`). Every other write goes on at the start of the device, where the
  boot sector and, with large blocks, the superblock are (`ReopenedShortFileWritesBootBlock`).
- The boot loader installer opens the old boot loader and writes (udb-instboot.c:56-99), so it meets this when
  it replaces a short boot loader by a longer one, and returns 0. `InstallSafeIff` and `InstallAllowedIff`
  give the exact condition, for first and repeated installations: `Installable`, which can be checked before
  the call. `Install` says what the installer does in every case.
- `generate_bitmap` computes its last byte from the number of whole bytes (mkudbfs.c:326-329).
  `OffersAllIff` says for which sizes the bitmap offers all ids; a device of 2048 bytes gets a bitmap with
  one free block of its eight (`SmallDeviceOffersOne`).
- `udbfs_create_inode` frees an inode without taking it out of the list of open ones when no id is free
  (create_inode.c:28-31): last clause of `CreateInode`.
- Nothing truncates a file, so an installed boot loader that is shorter than the one before keeps the end of
  the older one. `InstalledIsSourceIff`: the file is the source if and only if there was no older one or it
  was not longer.
- `add_column` returns -1 for an unknown type with the column already in the list and its sizes not set
  (mkudbfs.c:839-840, 903-905): `AddColumn`. `LayoutIsAligned` is about tables whose columns all succeeded.

Where the code and its documentation disagree the model follows the code. doc/udbfs/udbfs.sgml gives another
magic number (line 333), superblock extensions that the code does not have (235-243) and another table header
(498-512). The type codes of `Tables` are those of mkudbfs.h, which mkudbfs uses, not those of udbfs.h.

## Left out

- Sizes and offsets: unbounded. Truncation to `int` or `uint32_t` (write_to_inode.c:57-58, mkudbfs.c:214,
  300, 567) and wrap-around at 64 bits are not modelled; words on the device do have 64 bits.
- unlink.c: the list of open inodes is a set, because removal from the linked list does not keep the list
  consistent. Unmounting with open inodes, which walks that list, is not modelled.
- free_inode.c: deallocation; it neither clears the right bit nor raises the count.
- Index trees of mkudbfs (`generate_ind`, `generate_bind`, `generate_tind`), `seek_file`, `sync_offset`,
  `write_boot_loader`: mkfs itself only stores files of at most four blocks.
- Formatting.Mkfs: devices that give fewer than 64 blocks, beyond what `OffersAllIff` says of their bitmaps;
  the contents of the root table and the superblock fields mkfs never sets are parameters.
- Formatting.ReserveBit: the C scan runs past the end of a bitmap without a set bit; such a call is excluded.
- Formatting.CloseSmallFile: files of more than four blocks. The part of the last block behind the end of the file
  is 0 in the model; in C it is what the memory held.
- BootLoaders.Install: a boot loader inode that is no file of the system, or one that is open.
- Mounting.Unmount: the signature of the file system, which mounting never fills, is a parameter.
- Tables.GenerateTableDefinition: writing the definition to the table's file.
- Opening.OpenInode: after a load that fails midway the C code leaves later slots of a node uninitialised;
  in the model they are null.
- Inodes.Inode.ExtendBindBlock: a node is hooked into its slot before it gets its id in the C code and after
  it in the model; no call comes between the two. The same holds for the other extend functions.
- Memory: `malloc` and `new` succeed; nodes are not freed; a null inode or mount is not passed.
- Closing.UnloadIndBlock: its one seek succeeds. In the C code a seek that fails, on a block device whose end
  lies in front of the index block, is reported and the writes then go to the old file position
  (unload_block.c:82-94). No index block of a file of `Systems` lies there: `EntryStorable`.
- OnDisk.CloseTouches: the same; it is about seeks that succeed.
- Device: a read or write that does not lie on the device as a whole fails without effect, all others
  succeed. Printing is left out.
- Bitmap.AllocateBit: the new count is returned, where the C function updates it through a pointer.
- Command lines, opening files, and the file the boot loader is read from: its bytes are a parameter.
- The stub table interface of udbfslib, mkuuubimage, and the hash table, list and skip list headers.
- Vectors: exceptions, destructors, user allocators, references that alias into the vector, indexing an
  empty constant `WCValVector`, and the index check of `WCVectorBase::operator[]`.
