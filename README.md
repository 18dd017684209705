# OSFS in Dafny

OSFS is a small in-memory file system written as a Linux kernel module.
Mounting it allocates one zeroed region. That region holds:

- the superblock information (`struct osfs_sb_info`);
- an inode bitmap and a block bitmap, one unsigned long each;
- a table of 20 inode records;
- a data zone of 20 blocks of 1024 bytes.

Nothing is ever written to a device. Directories store up to three fixed-size
entries (`struct osfs_dir_entry`: a 255-byte name field and a 32-bit inode
number, 260 bytes with padding) in one block. Files hold bytes in data blocks.

This project models the two versions of the lab:

- **The single-block version** (`lab4/Lab4_Template_Update`). Each inode
  names one block through `i_block`, so a file never grows past 1024 bytes.
- **The multi-level version** (`lab4/lab4_bonus`). Each inode has 14 block
  pointers: 12 direct, one single-indirect and one double-indirect.
  `osfs_get_block` maps a logical block of a file to a data block and
  allocates on demand. `osfs_free_inode_blocks` frees the whole pointer tree.

## Structure

Each operation is modelled twice:

- **A function over values.** These are `TemplateSpec`, `TemplateFile`,
  `GetBlock`, `FileIo`, `BonusDir` and `Teardown`. The properties are proved
  about them.
- **An imperative method** on a class holding the superblock object
  (`Alloc.SbInfo`) and the inode table and data zone as arrays. These are
  `TemplateFs.Fs` and `BonusFs.Fs`. Each method's postcondition states that
  it leaves exactly the state the function describes, so every lemma about
  the function holds of the method.

Loops of the source are loops here, with their invariants:

- the bitmap scans of `osfs_get_free_inode` and `osfs_alloc_data_block`;
- the directory scans of `osfs_lookup` and `osfs_add_dir_entry`;
- the emission loop of `osfs_iterate`;
- the chunk loops of `osfs_read` and `osfs_write`;
- the nested teardown loops of `osfs_free_inode_blocks`.

The modules, by file:

- `layout.dfy` (`Layout`): constants, error numbers, uint32_t wrap-around.
- `alloc.dfy` (`Alloc`): the superblock and the two bitmap allocators.
- `blocks.dfy` (`Blocks`): bytes, blocks and little-endian words.
- `pointers.dfy` (`PointerMap`): the 14-slot pointer graph and its soundness.
- `getblock.dfy`, `graph_frames.dfy`, `getblock_sound.dfy`
  (`GetBlock`, `GraphFrames`, `GetBlockSound`): `osfs_get_block` and its
  proofs.
- `getblock_counts.dfy` (`GetBlockCounts`): the blocks one call of
  `osfs_get_block` claims, and how the counters move with them.
- `teardown.dfy` (`Teardown`): `osfs_free_inode_blocks`.
- `file_io.dfy`, `write_sound.dfy` (`FileIo`, `WriteSound`): reading and
  writing in the multi-level version.
- `write_read.dfy` (`WriteRead`): `i_blocks` as the guard of `osfs_read`,
  a read after a write, and the write that block 0 defeats.
- `dirent.dfy` (`DirEntries`): the directory-entry layout, lookup, insertion
  and listing shared by both versions.
- `bonus_dir.dfy` (`BonusDir`): directory operations of the multi-level
  version.
- `template_spec.dfy`, `template_file.dfy` (`TemplateSpec`, `TemplateFile`):
  the single-block version.
- `bonus_fs.dfy`, `template_fs.dfy` (`BonusFs`, `TemplateFs`): the two
  imperative file-system objects.

### Conventions

- **Counters and sizes.** The free counters and the inode's `i_size` are
  `uint32_t` in the source. Every `--` and `++` on them wraps modulo 2^32:
  `Dec32` and `Inc32`. The store of a 64-bit file position into `i_size`
  keeps the low 32 bits: `Trunc32`.
- **Error codes.** An error is returned as a negative errno, as in the
  kernel.
- **Calls into the kernel.** Some calls into the kernel can fail: `new_inode`,
  `d_make_root`, `vmalloc`. Whether they succeed is a boolean parameter
  (`vfsOk`, `memOk`, `rootOk`).
- **Owner of a new inode.** The owner `inode_init_owner` assigns is a pair of
  parameters `uid`, `gid`.

## Model

| member | source | states |
|---|---|---|
| Layout.Dec32 | lab4/lab4_bonus/inode.c:31 | `nr_free_inodes--` on a uint32_t: the result is below 2^32 and one more than it is x modulo 2^32, so 0 wraps to 2^32 - 1 |
| Layout.Inc32 | lab4/lab4_bonus/inode.c:109 | `nr_free_blocks++` on a uint32_t: (x + 1) mod 2^32 |
| Layout.Trunc32 | lab4/lab4_bonus/file.c:132-133 | storing the loff_t position into the uint32_t `i_size` gives a value below 2^32 that differs from the position by a multiple of 2^32 (its low 32 bits), equal to the position when the position fits |
| Layout.Inc32N | lab4/lab4_bonus/inode.c:144 | k successive `i_blocks++` on a uint32_t: the result stays below 2^32 |
| Layout.Dec32N | lab4/lab4_bonus/inode.c:93 | k successive `nr_free_blocks--` on a uint32_t: the result stays below 2^32 |
| Layout.Inc32NMod | lab4/lab4_bonus/inode.c:144-211 | k wrapping increments give (x + k) mod 2^32 |
| Layout.Dec32NMod | lab4/lab4_bonus/inode.c:90-96 | k wrapping decrements give (x - k) mod 2^32 |
| Layout.Once32 | lab4/lab4_bonus/inode.c:93 | one step of the repeated increment and decrement is `++` and `--` |
| Layout.Inc32NAdd | lab4/lab4_bonus/inode.c:144-211 | j increments then k more are j + k increments, so the counts of successive calls add up |
| Layout.Dec32NAdd | lab4/lab4_bonus/inode.c:90-96 | j decrements then k more are j + k decrements |
| Layout.Min | lab4/lab4_bonus/file.c:93 | `min_t`: a lower bound of both arguments that equals one of them |
| Layout.IsDir | lab4/lab4_bonus/dir.c:112 | `S_ISDIR`: the file-type bits of the mode are those of a directory (a definition; it carries no contract) |
| Layout.IsReg | lab4/lab4_bonus/dir.c:112 | `S_ISREG`: the file-type bits are those of a regular file (a definition) |
| Layout.IsLnk | lab4/lab4_bonus/dir.c:112 | `S_ISLNK`: the file-type bits are those of a symbolic link (a definition) |
| Layout.BitmapSize | lab4/lab4_bonus/osfs.h:29-32 | BITMAP_SIZE(bits) is the least number of unsigned longs whose bits cover `bits` |
| Layout.PointerTableShape | lab4/lab4_bonus/osfs.h:21-24 | the table has 14 slots: 12 direct, slot 12 single-indirect, slot 13 double-indirect |
| Layout.AddressableRange | lab4/lab4_bonus/osfs.h:27 | an index block holds 256 pointers of 4 bytes; the table reaches 12 + 256 + 65536 logical blocks, and every byte position of that range fits a uint32_t |
| Layout.DirEntryLayout | lab4/lab4_bonus/osfs.h:57-60 | with C alignment the entry's `inode_no` sits at offset 256, an entry takes 260 bytes, and a 1024-byte block holds exactly MAX_DIR_ENTRIES = 3 whole entries |
| Layout.NameFieldFits | lab4/lab4_bonus/dir.c:235-237 | a name and its NUL fit the 255-byte field iff the name has at most 254 bytes; a 255-byte name's NUL lands in the padding before `inode_no` |
| Layout.Capacities | lab4/lab4_bonus/osfs.h:13-34 | 20 inodes, 20 data blocks, root inode 1, one word per bitmap, inode records of 128 bytes (multi-level) and 80 bytes (single-block), superblock information of 56 bytes |
| Layout.RegionLayout | lab4/Lab4_Template_Update/super.c:50-86 | the single-block region is the superblock information (56 bytes), the two one-word bitmaps at offsets 56 and 64, the 20 records at offset 72 and the data zone at offset 1672, 22152 bytes in all, every part on an 8-byte boundary |
| Alloc.GetOsfsInode | lab4/lab4_bonus/inode.c:11-18 | a record is given exactly for 0 < ino < inode_count, and it is record ino |
| Alloc.FirstClear | lab4/lab4_bonus/inode.c:28-34 | the lowest clear bit of the range, or none exactly when every bit is set |
| Alloc.AllocSpec | lab4/lab4_bonus/inode.c:86-100 | a scan fails iff every bit of the range is set; otherwise it claims the lowest clear bit, sets it, and decrements the counter as a uint32_t |
| Alloc.AllocThenFree | lab4/lab4_bonus/inode.c:106-110 | freeing the number just claimed restores both the bitmap and the counter |
| Alloc.FreeThenAlloc | lab4/lab4_bonus/inode.c:86-110 | after freeing b the next scan succeeds at b or below; it returns b iff every bit below b is set |
| Alloc.AllocFreeAlloc | lab4/lab4_bonus/inode.c:86-110 | claim, free, claim again: the second claim returns the same number and state as the first |
| Alloc.CountClearSet | lab4/lab4_bonus/inode.c:92-93 | setting one clear bit of the range lowers the count of clear bits by one |
| Alloc.NoSpaceIffNoneClear | lab4/lab4_bonus/inode.c:90-99 | -ENOSPC is returned iff the range has no clear bit |
| Alloc.AllocFlipsOneBit | lab4/lab4_bonus/inode.c:90-96 | a successful scan flips exactly one bit from clear to set, changes no other bit, lowers the counter by one modulo 2^32 and uses up one clear bit |
| Alloc.SbInfo.constructor | lab4/Lab4_Template_Update/super.c:61 | the region as `memset` leaves it: every field zero, both bitmaps clear |
| Alloc.SbInfo.GetFreeInode | lab4/lab4_bonus/inode.c:24-37 | the loop from 1 leaves the bitmap, counter and return value of AllocSpec over [1, inode_count), and -ENOSPC with nothing changed when it is full; the block side is untouched |
| Alloc.SbInfo.AllocDataBlock | lab4/lab4_bonus/inode.c:86-100 | the loop from 0 leaves the block bitmap, counter and block number of AllocSpec over [0, block_count), and -ENOSPC with nothing changed when it is full |
| Alloc.SbInfo.FreeDataBlock | lab4/lab4_bonus/inode.c:106-110 | the bit is cleared and the counter incremented as a uint32_t, whether or not the block was in use |
| Blocks.ZeroedBlock | lab4/lab4_bonus/inode.c:168-170 | a block whose 1024 bytes are all zero |
| Blocks.LoadLE32 | lab4/lab4_bonus/inode.c:181 | a 32-bit block pointer read from an index block is below 2^32; a store read back is stated by StoreLE32 |
| Blocks.StoreLE32 | lab4/lab4_bonus/inode.c:182 | storing a pointer changes only its four bytes, and reading it back gives the value stored |
| Blocks.Word | lab4/lab4_bonus/inode.c:180-181 | pointer i of an index block is a uint32_t; stores and reads are related by SetWord and WordAfterSetWord |
| Blocks.SetWord | lab4/lab4_bonus/inode.c:181-182 | storing pointer i of block blk: that pointer reads back as the value, every other pointer of blk and every other block are unchanged |
| Blocks.ZeroBlock | lab4/lab4_bonus/inode.c:168-170 | `memset` of one block: it reads as zeros, with every pointer 0, and no other block changes |
| Blocks.CopyInto | lab4/lab4_bonus/file.c:116-117 | `copy_from_user` into a block: the copied bytes read back at their offsets, and every other byte and block is unchanged |
| Blocks.WordAfterSetWord | lab4/lab4_bonus/inode.c:180-187 | a pointer read after a pointer store gives the stored value at the same place and the old value elsewhere |
| Blocks.ZeroSetWordCommute | lab4/lab4_bonus/inode.c:226-234 | zeroing a new intermediate block and storing its number into the top block commute when the blocks differ |
| PointerMap.At | lab4/lab4_bonus/inode.c:136-255 | the block number found at a position by following pointers from the inode is a uint32_t; 0 when a block on the way is 0 |
| PointerMap.LeafPos | lab4/lab4_bonus/inode.c:136-255 | the position serving logical block b is a data position (direct slot, pointer of the single-indirect block, or pointer of an intermediate block) |
| PointerMap.LogicalOf | lab4/lab4_bonus/inode.c:152-198 | the logical block a data position serves lies in the addressable range |
| PointerMap.LeafPosBijection | lab4/lab4_bonus/inode.c:136-255 | logical blocks below MAX_LOGICAL and data positions correspond one to one: b = b - 12 - 256 split as (i, j) = (x / 256, x % 256) in the double-indirect range |
| PointerMap.AtKept | lab4/lab4_bonus/inode.c:124-259 | keeping every reached index block keeps the block at a position |
| PointerMap.AllAtKept | lab4/lab4_bonus/inode.c:124-259 | keeping every reached index block keeps the block at every position |
| GetBlock.DirectStep | lab4/lab4_bonus/inode.c:136-150 | the direct branch returns 0 or an error, a well-formed inode and disk, and a bitmap of the same length; what it returns and links is stated by DirectStepSound |
| GetBlock.EnsureSlot | lab4/lab4_bonus/inode.c:158-173 | slot 12 or 13 ends up naming a block of the zone; a slot that was 0 now names a block whose pointers are all 0; a nonzero slot leaves everything as it was |
| GetBlock.EnsureMid | lab4/lab4_bonus/inode.c:224-237 | pointer i of the top block ends up naming a block of the zone; a nonzero pointer leaves everything as it was |
| GetBlock.LeafStep | lab4/lab4_bonus/inode.c:181-190 | the data-block step under an index block returns 0 or an error with a well-formed state; what it returns and links is stated by LeafStepSound |
| GetBlock.IndirectWalk | lab4/lab4_bonus/inode.c:156-192 | the single-indirect branch returns 0 or an error with a well-formed state; what it returns and links is stated by IndirectWalkSound |
| GetBlock.DoubleWalk | lab4/lab4_bonus/inode.c:198-255 | the double-indirect branch returns 0 or an error with a well-formed state; what it returns and links is stated by DoubleWalkSound |
| GetBlock.Resolve | lab4/lab4_bonus/inode.c:124-259 | `osfs_get_block` returns 0 or an error with a well-formed state; its behaviour is stated by ResolveSound, ResolveReadOnly, ResolveOnlyPointers, ResolveCounts, ResolveRepeat and LeafFailKeepsIndex |
| GetBlock.Take | lab4/lab4_bonus/inode.c:86-100 | `osfs_alloc_data_block` over the data zone: the bitmap scan of Alloc.AllocSpec on the disk state (a definition; AllocSpec carries the contract) |
| GetBlock.Counted | lab4/lab4_bonus/inode.c:144 | `osfs_inode->i_blocks++` after an allocation, wrapping as a uint32_t (a definition) |
| GetBlock.ResolveIndirect | lab4/lab4_bonus/inode.c:152-156 | logical blocks 12 to 267 go through pointer b - 12 of the single-indirect block |
| GetBlock.ResolveBeyond | lab4/lab4_bonus/inode.c:195-258 | past 267, logical block b goes through pointer (b - 268) / 256 of the top block and pointer (b - 268) % 256 of the intermediate block; past the double-indirect range the call returns -EFBIG and changes nothing |
| GraphFrames.SlotPos | lab4/lab4_bonus/osfs.h:79-81 | every slot of the table is a valid position |
| GraphFrames.GrowsTrans | lab4/lab4_bonus/inode.c:124-259 | "positions keep their blocks and data blocks keep their bytes" composes across steps |
| GraphFrames.FreeIsUnreached | lab4/lab4_bonus/inode.c:91 | in a sound graph a block clear in the bitmap is reached from no position |
| GraphFrames.MarkKeepsSound | lab4/lab4_bonus/inode.c:92 | marking one more block in use keeps the graph sound |
| GraphFrames.ChangeUnreached | lab4/lab4_bonus/inode.c:168-170 | writing a block no position reaches keeps the graph sound and every position's block and data |
| GraphFrames.LinkSlot | lab4/lab4_bonus/inode.c:138-139 | storing a marked, unreached block into an empty slot links it at that slot and nowhere else, keeping the graph sound |
| GraphFrames.LinkWord | lab4/lab4_bonus/inode.c:181-182 | storing a marked, unreached block into an empty pointer of a reached index block links it there and nowhere else, keeping the graph sound |
| GetBlockSound.DirectStepSound | lab4/lab4_bonus/inode.c:136-150 | the direct branch keeps the graph sound and every reached block in place; the block returned is reached only at its slot; with block 0 in use, creation returns a nonzero block now at that slot |
| GetBlockSound.EnsureSlotSound | lab4/lab4_bonus/inode.c:158-173 | after EnsureSlot the slot names a block marked in use; a 0 there is block 0 freshly zeroed; with block 0 in use the slot is nonzero |
| GetBlockSound.MidLinkLive | lab4/lab4_bonus/inode.c:224-237 | hanging a fresh intermediate block under a reached top block keeps the graph sound |
| GetBlockSound.MidLinkDead | lab4/lab4_bonus/inode.c:224-237 | with slot 13 still 0, the new intermediate block's number is written into block 0, which nothing reaches, and the graph stays sound |
| GetBlockSound.EnsureMidSound | lab4/lab4_bonus/inode.c:224-237 | after EnsureMid the stored pointer refers to a marked block that is either reached at its position, or unreached and all zero |
| GetBlockSound.CountedKeeps | lab4/lab4_bonus/inode.c:144 | `i_blocks++` leaves the pointer graph alone |
| GetBlockSound.LeafLinkLive | lab4/lab4_bonus/inode.c:181-190 | a new data block stored under a reached index block is reached at that pointer only |
| GetBlockSound.LeafLinkDead | lab4/lab4_bonus/inode.c:244-253 | a new data block stored into an unreached block keeps the graph sound |
| GetBlockSound.LeafStepSound | lab4/lab4_bonus/inode.c:181-190 | the data-block step keeps the graph sound and serves only its position; with block 0 in use and a reached parent, creation returns a nonzero block linked there |
| GetBlockSound.IndirectWalkSound | lab4/lab4_bonus/inode.c:156-192 | the single-indirect branch keeps the graph sound, serves only pointer j, and with block 0 in use creation links a nonzero block there |
| GetBlockSound.DoubleWalkSound | lab4/lab4_bonus/inode.c:198-255 | the double-indirect branch keeps the graph sound, serves only pointer (i, j), and with block 0 in use creation links a nonzero block there |
| GetBlockSound.ResolveSound | lab4/lab4_bonus/inode.c:124-259 | `osfs_get_block` keeps the graph sound and never moves or overwrites a reached block; it succeeds only below MAX_LOGICAL; the returned block is reached from no other position; once block 0 is in use, creation returns a nonzero block now at the leaf of b |
| GetBlockSound.ResolveSoundIn | lab4/lab4_bonus/inode.c:136-255 | ResolveSound within the addressable range |
| GetBlockSound.ResolveSoundDirect | lab4/lab4_bonus/inode.c:136-150 | ResolveSound for logical blocks 0 to 11 |
| GetBlockSound.ResolveSoundIndirect | lab4/lab4_bonus/inode.c:152-192 | ResolveSound for logical blocks 12 to 267 |
| GetBlockSound.ResolveSoundDouble | lab4/lab4_bonus/inode.c:195-255 | ResolveSound for the double-indirect range |
| GetBlockSound.ResolveReadOnly | lab4/lab4_bonus/inode.c:124-259 | with create 0 nothing changes; -EFBIG iff b is past the addressable range; a direct block always gives 0; -ENOENT iff slot 12 is empty (single-indirect range) or slot 13 or its pointer for b is empty (double-indirect range); otherwise 0 with the block at the leaf of b (0 for a hole) |
| GetBlockSound.BlockZeroCollision | lab4/lab4_bonus/inode.c:138-148 | while block 0 is free, creating an empty direct slot allocates block 0, counts it in `i_blocks`, returns it, and leaves the slot reading as a hole |
| GetBlockSound.ResolveOnlyPointers | lab4/lab4_bonus/inode.c:124-259 | `osfs_get_block` changes no field of the inode but its pointers and `i_blocks`; the size stays |
| GetBlockCounts.TakeCounts | lab4/lab4_bonus/inode.c:90-96 | one successful `osfs_alloc_data_block` with one `i_blocks++`: one clear bit set and no other bit changed, the free bits down by one, `i_blocks` up by one and `nr_free_blocks` down by one, each wrapping |
| GetBlockCounts.TallyTrans | lab4/lab4_bonus/inode.c:124-259 | the claims of two successive steps add up: bits set, free bits lost, `i_blocks` and `nr_free_blocks` moved by the sum |
| GetBlockCounts.DirectStepCounts | lab4/lab4_bonus/inode.c:136-150 | the direct range claims at most one block, none without create, and moves both counters by what it claims |
| GetBlockCounts.EnsureSlotCounts | lab4/lab4_bonus/inode.c:158-173 | filling slot 12 or 13 claims at most one block, none without create, with the counters moved by it |
| GetBlockCounts.EnsureMidCounts | lab4/lab4_bonus/inode.c:224-237 | filling a pointer of the top block claims at most one block, none without create, with the counters moved by it |
| GetBlockCounts.LeafStepCounts | lab4/lab4_bonus/inode.c:181-190 | filling a leaf pointer claims at most one block, none without create, with the counters moved by it |
| GetBlockCounts.IndirectWalkCounts | lab4/lab4_bonus/inode.c:156-192 | the single-indirect range claims at most two blocks, none without create, with the counters moved by the number claimed |
| GetBlockCounts.DoubleWalkCounts | lab4/lab4_bonus/inode.c:198-255 | the double-indirect range claims at most three blocks, none without create, with the counters moved by the number claimed |
| GetBlockCounts.ResolveCounts | lab4/lab4_bonus/inode.c:124-259 | one call claims k blocks, with k at most 1, 2 or 3 in the direct, single- and double-indirect ranges and 0 without create: bits only get set, exactly k free bits are lost, `i_blocks` moves up by k and `nr_free_blocks` down by k (uint32_t), and k = 0 leaves inode and disk unchanged |
| GetBlockCounts.DirectCounts | lab4/lab4_bonus/inode.c:136-150 | ResolveCounts for the direct range |
| GetBlockCounts.IndirectCounts | lab4/lab4_bonus/inode.c:152-192 | ResolveCounts for the single-indirect range |
| GetBlockCounts.DoubleCounts | lab4/lab4_bonus/inode.c:194-255 | ResolveCounts for the double-indirect range |
| GetBlockCounts.ResolvePresent | lab4/lab4_bonus/inode.c:138-148 | a logical block whose leaf is present is returned as it is, with or without create, and nothing changes |
| GetBlockCounts.ResolveRepeat | lab4/lab4_bonus/inode.c:124-259 | once block 0 is in use, asking again, with or without create, for a block just obtained with create returns the same block and changes nothing |
| GetBlockCounts.LeafFailKeepsIndex | lab4/lab4_bonus/inode.c:158-190 | when slot 12 or 13 was empty and the data block after the new index block cannot be had, the call fails with -ENOSPC yet keeps the index block in the slot, marked in the bitmap and counted, with the zone now full |
| GetBlockCounts.IndFailKeeps | lab4/lab4_bonus/inode.c:158-190 | LeafFailKeepsIndex for slot 12 |
| GetBlockCounts.TopFailKeeps | lab4/lab4_bonus/inode.c:200-253 | LeafFailKeepsIndex for slot 13, whichever step after it fails |
| GetBlockCounts.MidFailKeeps | lab4/lab4_bonus/inode.c:224-253 | an intermediate block claimed under a top block stays stored there, and the leaf step after it can fail only with -ENOSPC on a full zone, leaving that state |
| GetBlockCounts.LeafFailKeepsMid | lab4/lab4_bonus/inode.c:224-253 | when a live top block has an empty pointer and the data block after the new intermediate block cannot be had, the call fails with -ENOSPC yet keeps the intermediate block stored, marked and counted |
| GetBlockCounts.DoubleLeafFails | lab4/lab4_bonus/inode.c:224-253 | the same promise stated on the double-indirect walk for pointer i of the top block and pointer j of the intermediate block: the new intermediate block stays stored at word i of the top block, its bit set, every bit set, and at least one block claimed |
| Teardown.ClearAll | lab4/lab4_bonus/inode.c:106-110 | clearing a list of blocks one after another keeps the bitmap's length |
| Teardown.ClearAllAt | lab4/lab4_bonus/inode.c:106-110 | after the clears a bit is set iff it was set and no cleared block named it |
| Teardown.ClearAllSnoc | lab4/lab4_bonus/inode.c:108 | one more clear clears its bit and keeps every other |
| Teardown.DirectFrees | lab4/lab4_bonus/inode.c:277-282 | the nonzero direct slots in order (a definition; DirectMembers states its members) |
| Teardown.IndexPart | lab4/lab4_bonus/inode.c:285-298 | the nonzero pointers of the single-indirect block, then that block, when slot 12 is nonzero (a definition; FreeOrderParts states it) |
| Teardown.TreePart | lab4/lab4_bonus/inode.c:301-324 | the double-indirect tree bottom up, then the top block, when slot 13 is nonzero (a definition; MidMembers and FreeOrderParts state it) |
| Teardown.FreeOrder | lab4/lab4_bonus/inode.c:266-327 | every block `osfs_free_inode_blocks` frees, in order (a definition; FreesExactlyReached states it frees exactly the reached blocks) |
| Teardown.IndexBlocksInZone | lab4/lab4_bonus/inode.c:285-324 | when the graph lies in the zone, the index blocks the teardown dereferences hold pointers into the zone only |
| Teardown.NonzeroMembers | lab4/lab4_bonus/inode.c:290-294 | the pointer loop frees exactly the nonzero pointers of the index block |
| Teardown.MidMembers | lab4/lab4_bonus/inode.c:306-320 | the loop over the top block frees exactly the nonzero intermediate blocks and their nonzero pointers |
| Teardown.DirectMembers | lab4/lab4_bonus/inode.c:277-282 | the direct loop frees exactly the nonzero direct slots |
| Teardown.FreeOrderParts | lab4/lab4_bonus/inode.c:266-327 | the freed blocks are those of the direct part, the single-indirect part and the double-indirect part |
| Teardown.FreedIsReached | lab4/lab4_bonus/inode.c:266-327 | every block the teardown frees is a nonzero block of the pointer graph |
| Teardown.ReachedIsFreed | lab4/lab4_bonus/inode.c:266-327 | every nonzero block of the pointer graph is freed |
| Teardown.FreesExactlyReached | lab4/lab4_bonus/inode.c:266-327 | a block is freed iff it is nonzero and some position reaches it; block 0 is never freed, even when the file holds it |
| Teardown.FreedInRange | lab4/lab4_bonus/inode.c:266-327 | every freed block number is between 1 and 19, so every `clear_bit` stays inside the bitmap |
| Teardown.TeardownBitmap | lab4/lab4_bonus/inode.c:266-327 | after the teardown a block's bit is set iff it was set before and no position of the inode reached it (or it is block 0) |
| FileIo.ReadLen | lab4/lab4_bonus/file.c:23-32 | the count read is at most len; it is 0 iff the file has no blocks, the position is at or past the end, or len is 0; otherwise it stops at the end of the file or at len |
| FileIo.ChunkPositions | lab4/lab4_bonus/file.c:37-43 | a byte lies in a chunk within one block iff it lies in the chunk's block at an offset within the chunk |
| FileIo.FileBytes | lab4/lab4_bonus/file.c:35-65 | the k bytes of the file from a position, holes reading as zeros |
| FileIo.FileBytesJoin | lab4/lab4_bonus/file.c:63-64 | the bytes of two adjacent ranges joined are the bytes of the joined range |
| FileIo.ChunkBytes | lab4/lab4_bonus/file.c:47-59 | one pass of the read loop: the block's bytes at the same offsets when a block is present, zeros (`clear_user`) for a hole or a block past the addressable range |
| FileIo.ChunkLen | lab4/lab4_bonus/file.c:93 | a chunk is at most what is left, ends within its block, and is nonzero while bytes are left |
| FileIo.ResolveServes | lab4/lab4_bonus/file.c:97 | `osfs_get_block` with create keeps the graph sound, and a nonzero block returned is served only at the leaf of its logical block |
| FileIo.CopyChunk | lab4/lab4_bonus/file.c:116-117 | copying a chunk into the served block keeps the graph sound, the bitmap and every position's block |
| FileIo.WritePass | lab4/lab4_bonus/file.c:88-128 | one pass either goes on with more bytes written, or stops at the current position and reports the count written when some bytes were written, or the error when none were |
| FileIo.WriteLoop | lab4/lab4_bonus/file.c:88-128 | the copy loop keeps the graph sound and changes only the pointers and block count of the inode; what it writes is stated by WriteLoopContents |
| FileIo.WriteLoopUnfold | lab4/lab4_bonus/file.c:88-128 | the loop runs one pass and then goes on from where that pass left off |
| FileIo.WriteSpec | lab4/lab4_bonus/file.c:75-146 | `osfs_write` keeps the pointer graph sound; what the file then holds is stated by WriteContents and ReadAfterWrite |
| FileIo.CopyKeeps | lab4/lab4_bonus/file.c:116-117 | copying into a block reached only at the leaf of b keeps the graph sound and every position's block |
| WriteSound.PresentKept | lab4/lab4_bonus/inode.c:124-259 | a step that keeps reached blocks in place and their bytes keeps every present byte of the file |
| WriteSound.CopyBytes | lab4/lab4_bonus/file.c:116-117 | after copying a chunk into a byte position's own block, the chunk's bytes are present and read as the chunk, and every other byte reads as before |
| WriteSound.ResolveKept | lab4/lab4_bonus/file.c:97 | resolving with create keeps every present byte of the file and keeps block 0 in use |
| WriteSound.ResolveAtLeaf | lab4/lab4_bonus/file.c:97-113 | with block 0 in use, a successful resolution returns the block at the leaf of b |
| WriteSound.PassStops | lab4/lab4_bonus/file.c:98-113 | a pass that stops keeps every present byte and block 0 in use |
| WriteSound.PassGoes | lab4/lab4_bonus/file.c:88-128 | a pass that goes on makes the chunk read back as the source bytes and keeps every other present byte |
| WriteSound.PassFails | lab4/lab4_bonus/file.c:98-113 | a failed resolution, or one yielding block 0, stops the loop with the count written so far, or with its error or -EIO when nothing was written |
| WriteSound.PassCopies | lab4/lab4_bonus/file.c:116-127 | a resolution yielding a block copies up to the end of that block and goes on |
| WriteSound.WriteLoopContents | lab4/lab4_bonus/file.c:88-128 | the loop reports a count between what was already written and the source length; the bytes written read back as the source; present bytes outside the written range read the same; a failure before any byte leaves the position |
| WriteSound.WriteContents | lab4/lab4_bonus/file.c:75-146 | with block 0 in use, `osfs_write` returns the count written (at most the length) and moves the position by it, or an error with position, size and every byte unchanged; the bytes written read back as the source; other present bytes read the same; the size grows to the end of the write modulo 2^32 when that lies past the old size; no other inode field changes |
| WriteSound.WriteGrows | lab4/lab4_bonus/file.c:132-135 | the size update after the loop stores the final position truncated to 32 bits |
| WriteSound.ReadAfterWrite | lab4/lab4_bonus/file.c:10-146 | reading back the range a write reports written yields the source bytes |
| WriteRead.NoPointers | lab4/lab4_bonus/dir.c:162-175 | an inode whose 14 pointers are 0 reaches no block |
| WriteRead.FreshCounted | lab4/lab4_bonus/dir.c:162-175 | a new inode (no pointer, `i_blocks` 0) is sound and its block count is a faithful guard |
| WriteRead.CountClearBound | lab4/lab4_bonus/inode.c:90 | a bitmap range has no more clear bits than bits |
| WriteRead.ClaimNoWrap | lab4/lab4_bonus/inode.c:144-211 | while `i_blocks` plus the free bits stays below 2^32, the k blocks one call claims raise `i_blocks` by exactly k and keep that bound |
| WriteRead.ResolveKeepsCounted | lab4/lab4_bonus/inode.c:124-259 | `osfs_get_block` with create keeps the count from wrapping and keeps a count of 0 meaning no block, and never lowers the count |
| WriteRead.PassKeepsCounted | lab4/lab4_bonus/file.c:88-128 | one pass of the write loop keeps the block count a faithful guard |
| WriteRead.SameGraphCounted | lab4/lab4_bonus/file.c:116-117 | a copy into a data block, which keeps the bitmap and every pointer, keeps the block count a faithful guard |
| WriteRead.LoopKeepsCounted | lab4/lab4_bonus/file.c:88-128 | the write loop keeps the block count a faithful guard |
| WriteRead.WriteKeepsCounted | lab4/lab4_bonus/file.c:75-146 | `osfs_write` keeps the block count a faithful guard |
| WriteRead.AddressableByte | lab4/lab4_bonus/osfs.h:27 | a byte in an addressable block lies below MAX_LOGICAL * 1024 < 2^32 |
| WriteRead.WriteThenRead | lab4/lab4_bonus/file.c:10-146 | while block 0 is in use and the block count is a faithful guard: after `osfs_write` the guard stays faithful, and `osfs_read` at the same position for the count it reports returns that whole count, the bytes equal to the source |
| WriteRead.BlockZeroLost | lab4/lab4_bonus/inode.c:158-190 | on an empty file with blocks 0 and 1 free, a one-byte write of 7 at offset 12288 claims block 0 as the index block and stores 0 in slot 12; it reports one byte written and size 12289, slot 12 still reads 0, and the byte reads back as 0 |
| DirEntries.CStrLen | lab4/lab4_bonus/dir.c:41 | `strlen`: the bytes before the first NUL at or after the offset, all nonzero |
| DirEntries.CStrLenIs | lab4/lab4_bonus/dir.c:41 | the string length is the position of the first NUL |
| DirEntries.StrNEq | lab4/lab4_bonus/dir.c:42 | `strncmp(...) == 0` from character k on (a definition; StrNEqSuffix states it) |
| DirEntries.EntryCountGrows | lab4/lab4_bonus/dir.c:240 | adding one entry's size to `i_size` counts one more entry |
| DirEntries.EntryCountBound | lab4/lab4_bonus/dir.c:218 | a directory under the entry limit has a size below the block size |
| DirEntries.EntryInBlock | lab4/lab4_bonus/dir.c:37 | every one of the three entries, with its `inode_no`, lies inside the block |
| DirEntries.EntryName | lab4/lab4_bonus/dir.c:41 | the name the comparisons and `dir_emit` see holds no NUL |
| DirEntries.EntryIno | lab4/lab4_bonus/dir.c:44 | an entry's `inode_no` is a uint32_t |
| DirEntries.StrNEqSuffix | lab4/lab4_bonus/dir.c:42 | `strncmp` over a NUL-free range is equality of the bytes |
| DirEntries.MatchIffName | lab4/lab4_bonus/dir.c:41-42 | the test `strlen == len && strncmp == 0` accepts an entry iff its name equals the looked-up name |
| DirEntries.EntryMatches | lab4/lab4_bonus/dir.c:41-42 | the lookup test on entry i, `strlen` equal to the name length and `strncmp` equal (a definition; MatchIffName states it accepts exactly the entries named `name`) |
| DirEntries.FindFrom | lab4/lab4_bonus/dir.c:40-51 | the scan finds the first in-use entry with the name, or none when no entry has it |
| DirEntries.FindEntry | lab4/lab4_bonus/dir.c:40-51 | the first in-use entry named `name` (a definition over FindFrom, whose contract states it) |
| DirEntries.ScanEntries | lab4/lab4_bonus/dir.c:40-51 | the lookup and duplicate-check loop returns the first entry with the name, and none iff no in-use entry has it |
| DirEntries.StrNCpy | lab4/lab4_bonus/dir.c:235 | `strncpy` of a NUL-free name copies the name |
| DirEntries.Placed | lab4/lab4_bonus/dir.c:235-236 | the name bytes and the NUL at `filename[len]` change only the name field |
| DirEntries.PutEntry | lab4/lab4_bonus/dir.c:235-237 | writing entry i changes only its 260 bytes; it stores the inode number and, for a NUL-free name, reads back the name, terminated inside its field |
| DirEntries.PutEntryName | lab4/lab4_bonus/dir.c:235-236 | after strncpy and the terminator, the stored name's length is that of the name |
| DirEntries.EntryKept | lab4/lab4_bonus/dir.c:235-237 | an entry whose bytes a write left alone keeps its name and number |
| DirEntries.EntryMatchKept | lab4/Lab4_Template_Update/dir.c:42-43 | an entry whose 260 bytes are unchanged answers the lookup test the same for every name of at most 255 bytes, and keeps its number, whatever bytes follow it |
| DirEntries.AppendKeeps | lab4/lab4_bonus/dir.c:235-237 | appending an entry leaves every earlier entry's number and its answer to the lookup test for every name of at most 255 bytes; when the earlier names were terminated, they stay terminated and read back unchanged, and so does the new one |
| DirEntries.FindAfterAppend | lab4/lab4_bonus/dir.c:40-51 | when the earlier entries answer the lookup test for a name as before, that name is found at the new entry if it is the appended one (absent before), and where it was otherwise |
| DirEntries.AppendFindsOther | lab4/Lab4_Template_Update/dir.c:37-49 | after an append, a name other than the appended one is found where it was, if it has at most 255 bytes or the earlier names were terminated; earlier entries keep their numbers |
| DirEntries.AppendThenFind | lab4/lab4_bonus/dir.c:226-237 | appending an absent name, whatever the earlier entries hold: found under its name with its number, earlier numbers kept, every other name of at most 255 bytes found as before; when the earlier names were terminated, all names stay terminated and every other name of any length is found as before |
| DirEntries.Records | lab4/lab4_bonus/dir.c:77-88 | the records the listing reads: index i + 1 holds entry i, and index 0 the record just before the block, which position 1 reaches |
| DirEntries.Accepted | lab4/lab4_bonus/dir.c:88 | a consumer with room r takes the first r records |
| DirEntries.AcceptedTwice | lab4/lab4_bonus/dir.c:88 | taking r1 records and then r2 more takes r1 + r2 |
| DirEntries.StopsShort | lab4/lab4_bonus/dir.c:71-91 | a consumer with less room than the stream gets that many records; the call returns 0 when it refused a dot and -EINVAL when it refused an entry |
| DirEntries.RunsOut | lab4/lab4_bonus/dir.c:84-96 | a consumer with room for the rest gets all of it, and the call returns 0 with the position past the last record |
| DirEntries.EmitDots | lab4/lab4_bonus/dir.c:71-74 | `dir_emit_dots` emits "." and "..", advancing the position for each, and stops when the consumer refuses one |
| DirEntries.EmitRecords | lab4/lab4_bonus/dir.c:60-97 | the iterate loop produces exactly the listing Iterate describes: return value, new position and records emitted |
| DirEntries.Stream | lab4/lab4_bonus/dir.c:71-96 | what a call at position pos would emit to a consumer that never refuses: the dots at 0, then entries from pos - 2 (a definition; Resume and FullListing state it) |
| DirEntries.Iterate | lab4/lab4_bonus/dir.c:60-97 | `osfs_iterate` on decoded records: return value, new position and records emitted (a definition; StopsShort, RunsOut, Resume and FullListing state it) |
| DirEntries.IterateSpec | lab4/lab4_bonus/dir.c:60-97 | `osfs_iterate` on a directory block: Iterate on the records decoded from it (a definition) |
| DirEntries.StreamDrop | lab4/lab4_bonus/dir.c:82 | restarting at the returned position continues the stream, except after "." alone |
| DirEntries.Resume | lab4/lab4_bonus/dir.c:60-97 | two calls, the second from the position the first returned, emit what one call with both allowances emits, unless the first stopped between "." and ".." |
| DirEntries.DotsSplitLosesDotDot | lab4/lab4_bonus/dir.c:71-82 | stopping after "." makes the next call start at index -1: it emits the record before the block and never ".." |
| DirEntries.FullListing | lab4/lab4_bonus/dir.c:60-97 | a consumer with room sees ".", "..", then every in-use entry with its name and number in order, and the position ends at count + 2 |
| BonusDir.DirBlock | lab4/lab4_bonus/dir.c:33-37 | the entry block of a directory (`i_block[0]`) holds every entry its size counts |
| BonusDir.EntryCount | lab4/lab4_bonus/dir.c:36 | entries in use, `i_size / sizeof(struct osfs_dir_entry)` (a definition; EntryCountGrows and EntryCountBound state it) |
| BonusDir.LookupSpec | lab4/lab4_bonus/dir.c:17-54 | the number of the first entry with the name, or none iff no in-use entry has it |
| BonusDir.FreshInode | lab4/lab4_bonus/dir.c:162-175 | the new record: number, mode and owner set; size 0, no blocks, all 14 pointers 0 |
| BonusDir.NewInodeSpec | lab4/lab4_bonus/dir.c:103-186 | `osfs_new_inode` returns 0, -EINVAL, -ENOSPC or -ENOMEM; failures write no record; success takes an inode that was free and writes a fresh record for it |
| BonusDir.NewInodeChecks | lab4/lab4_bonus/dir.c:112-119 | a bad mode fails with -EINVAL whatever the counters say; a zero free count fails with -ENOSPC before the bitmap is read; both change nothing |
| BonusDir.NewInodeCountsTwice | lab4/lab4_bonus/dir.c:122-180 | success sets one clear bit, the lowest at or above 1, yet lowers the free count by two |
| BonusDir.NewInodeLeaks | lab4/lab4_bonus/dir.c:122-129 | when the VFS gives no inode, the claimed bit stays set and the count lowered, though no record is written |
| BonusDir.InsertEntry | lab4/lab4_bonus/dir.c:212-242 | the insertion keeps the directory usable and the block bitmap and counter as they were; its outcome is stated by InsertThenLookup |
| BonusDir.AddDirEntrySpec | lab4/lab4_bonus/dir.c:188-243 | `osfs_add_dir_entry` returns 0, -ENOSPC or -EEXIST and leaves a usable directory; its outcome is stated by FullBeforeDuplicate, FailedAddKeeps and AddThenLookup |
| BonusDir.FullBeforeDuplicate | lab4/lab4_bonus/dir.c:218-232 | a full directory refuses any name with -ENOSPC, present or not |
| BonusDir.FailedAddKeeps | lab4/lab4_bonus/dir.c:200-232 | a failed insertion into a directory with a block changes nothing; into one without, it leaves the block it allocated linked, counted, zeroed and in use |
| BonusDir.ZeroTerminated | lab4/lab4_bonus/dir.c:208-209 | every entry of a zeroed block has an empty, terminated name |
| BonusDir.AddThenLookup | lab4/lab4_bonus/dir.c:188-243 | a successful insertion grows the size by one entry, the name looks up to the new number, and in a directory that had a block every other name looks up as before |
| BonusDir.InsertThenLookup | lab4/lab4_bonus/dir.c:212-242 | a successful insertion adds the name for the number and keeps every other lookup |
| BonusDir.InsertedFound | lab4/lab4_bonus/dir.c:226-240 | after the append, the name looks up to the number and every other name as before |
| BonusDir.CreateSpec | lab4/lab4_bonus/dir.c:250-299 | `osfs_create` leaves a well-formed state with the bitmap length unchanged; its outcome is stated by CreateChecksName, CreateSucceeded, CreateThenLookup and CreateLeaksInode |
| BonusDir.CreateChecksName | lab4/lab4_bonus/dir.c:258-262 | -ENAMETOOLONG exactly for names longer than 255 bytes, and then nothing changes |
| BonusDir.CreateSucceeded | lab4/lab4_bonus/dir.c:264-299 | success is a successful `osfs_new_inode` followed by a successful `osfs_add_dir_entry` of its number |
| BonusDir.CreateThenLookup | lab4/lab4_bonus/dir.c:250-299 | after a successful create the new inode was free, now has a fresh record and its bit, the free count is two lower, and the name looks up to it |
| BonusDir.CreateLeaksInode | lab4/lab4_bonus/dir.c:279-283 | when the entry cannot be added, the inode made stays allocated and counted twice though no entry names it |
| TemplateSpec.DirBlock | lab4/Lab4_Template_Update/dir.c:249-252 | the block `i_block` names holds every entry the size counts |
| TemplateSpec.EntryCount | lab4/Lab4_Template_Update/dir.c:36 | entries in use, `i_size / sizeof(struct osfs_dir_entry)` (a definition) |
| TemplateSpec.ZeroRecord | lab4/Lab4_Template_Update/super.c:61 | a record as `memset` leaves it: every field zero (a definition) |
| TemplateSpec.RootRecord | lab4/Lab4_Template_Update/super.c:120-125 | the root record: a directory, inode 1, two links, size 0, no blocks, `i_block` 0 |
| TemplateSpec.ZeroZone | lab4/Lab4_Template_Update/super.c:61 | the data zone as `memset` leaves it |
| TemplateSpec.MountedTable | lab4/Lab4_Template_Update/super.c:114-133 | the table after mounting: the root's record written, every record well-formed |
| TemplateSpec.Mounted | lab4/Lab4_Template_Update/super.c:40-149 | the state after a successful `osfs_fill_super` is well-formed; its shape is stated by MountedShape |
| TemplateSpec.MountedShape | lab4/Lab4_Template_Update/super.c:61-133 | the mounted root is an empty directory whose `i_block` names block 0 while block 0 is free; 18 inode numbers are free though the counter says 19 |
| TemplateSpec.LookupSpec | lab4/Lab4_Template_Update/dir.c:17-58 | the number of the first entry with the name, or none iff no in-use entry has it |
| TemplateSpec.NewRecord | lab4/Lab4_Template_Update/dir.c:206-214 | the new record: number, mode, owner, size 0, `i_blocks` 1 |
| TemplateSpec.NewInodeSpec | lab4/Lab4_Template_Update/dir.c:122-233 | `osfs_new_inode` returns 0, -EINVAL, -ENOSPC or -ENOMEM, never writes the zone, and on success takes a free inode and sets its bit |
| TemplateSpec.NewInodeTakes | lab4/Lab4_Template_Update/dir.c:140-227 | success takes the lowest free inode at or above 1 and the lowest free block, writes the record with that block, lowers the inode counter twice and the block counter once |
| TemplateSpec.NewInodeChecks | lab4/Lab4_Template_Update/dir.c:131-138 | a bad mode fails with -EINVAL, then a zero counter on either side with -ENOSPC, both changing nothing |
| TemplateSpec.NewInodeLeaksOnFullZone | lab4/Lab4_Template_Update/dir.c:219-224 | when every block is taken though the block counter is not 0, -ENOSPC is returned with the inode bit, record and lowered counter left behind |
| TemplateSpec.AddDirEntrySpec | lab4/Lab4_Template_Update/dir.c:239-280 | returns 0, -ENOSPC or -EEXIST; a failure changes nothing; success needs room |
| TemplateSpec.AddThenLookup | lab4/Lab4_Template_Update/dir.c:239-280 | in any directory state, terminated or not: a full directory refuses any name; -EEXIST iff there is room and the name is present; success adds the name for the number, keeps every other lookup of a name of at most 255 bytes and every other block, and, when the names were terminated, keeps them terminated and every other lookup |
| TemplateSpec.PutInserts | lab4/Lab4_Template_Update/dir.c:272-277 | writing entry `count` and growing the size inserts the name (Inserted), with no assumption on the earlier entries |
| TemplateSpec.PutFinds | lab4/Lab4_Template_Update/dir.c:272-277 | after the write, the directory has one entry more, the name looks up to the number, and entries terminated before stay terminated with the new one |
| TemplateSpec.PutKeepsOthers | lab4/Lab4_Template_Update/dir.c:272-277 | after the write, every other name of at most 255 bytes looks up as before, and every other name of any length when the names were terminated |
| TemplateSpec.PutKeepsOther | lab4/Lab4_Template_Update/dir.c:272-277 | PutKeepsOthers for one name |
| TemplateSpec.CreateSpec | lab4/Lab4_Template_Update/dir.c:292-354 | `osfs_create` leaves a well-formed state with both bitmaps' lengths unchanged; its outcome is stated by CreateChecksName, CreateThenLookup and CreateUsesInode |
| TemplateSpec.CreateChecksName | lab4/Lab4_Template_Update/dir.c:301-304 | -ENAMETOOLONG exactly for names longer than 255 bytes, and then nothing changes |
| TemplateSpec.CreateThenLookup | lab4/Lab4_Template_Update/dir.c:292-354 | in any directory state, after a successful create the new inode was free, holds a fresh record with the lowest free block, and the name is added to the directory (Inserted) |
| TemplateSpec.CreateUsesInode | lab4/Lab4_Template_Update/dir.c:292-354 | a create never frees an inode number, and a successful one uses up exactly one |
| TemplateSpec.SuccessesBounded | lab4/Lab4_Template_Update/dir.c:292-354 | in any sequence of creates, no more succeed than there were free inode numbers |
| TemplateSpec.MountedCreatesBounded | lab4/Lab4_Template_Update/super.c:69-133 | after mounting, at most 18 creates can ever succeed |
| TemplateFile.ReadSpec | lab4/Lab4_Template_Update/file.c:18-55 | `osfs_read` returns at most len bytes; none iff no block, position at or past the end, or len 0; otherwise up to the end of the file, each byte the block's byte at the file position |
| TemplateFile.WriteSpec | lab4/Lab4_Template_Update/file.c:70-133 | `osfs_write` keeps the inode and disk well-formed and the inode's number, mode, owner and links; its outcome is stated by WriteStaysInBlock, WriteTouchesOneBlock, WriteClaimsBlock and ReadAfterWrite |
| TemplateFile.WriteStaysInBlock | lab4/Lab4_Template_Update/file.c:94-114 | the position and size never pass 1024; the count written is what fits before the end of the block; -EFAULT iff the position is past 1024 once the file has a block; a failure leaves position, size and bytes |
| TemplateFile.WriteTouchesOneBlock | lab4/Lab4_Template_Update/file.c:105-120 | only the file's block changes, only in the bytes written, and the size becomes the larger of the old size and the new position |
| TemplateFile.WriteClaimsBlock | lab4/Lab4_Template_Update/file.c:82-90 | a file without a block claims the lowest free block, marked and counted; a file with one keeps it and the block side |
| TemplateFile.ReadAfterWrite | lab4/Lab4_Template_Update/file.c:18-133 | reading back the count a write reports gives the bytes written |
| TemplateFile.SharedBlockWrite | lab4/Lab4_Template_Update/file.c:105-107 | a write of a NUL byte at position 0 of a file sharing a directory's block empties the name of entry 0, so no name is found there |
| TemplateFile.FirstFileSharesRootBlock | lab4/Lab4_Template_Update/dir.c:218-224 | after mounting, the first file created in the root gets block 0, the block the root's `i_block` names while it has no block of its own |
| TemplateFile.MountedFirstBlock | lab4/Lab4_Template_Update/inode.c:124-140 | the first block claimed after mounting is block 0 |
| TemplateFile.CreateThenWriteLosesName | lab4/Lab4_Template_Update/file.c:70-133 | mount, create a file in the root, write a NUL at position 0: the root no longer finds the name it just added |
| TemplateFs.Fs.Mount | lab4/Lab4_Template_Update/super.c:40-149 | -ENOMEM and no file system when the region, the root inode or its dentry cannot be had; otherwise a fresh file system in the Mounted state |
| TemplateFs.Fs.Region | lab4/Lab4_Template_Update/super.c:57-70 | the zeroed region with the magic, block size, totals and counters set |
| TemplateFs.Fs.WriteRoot | lab4/Lab4_Template_Update/super.c:114-133 | the root's record written and its bit set; nothing else changes |
| TemplateFs.Fs.Iget | lab4/Lab4_Template_Update/inode.c:64-112 | -EFAULT for a number `osfs_get_osfs_inode` rejects, -ENOMEM when the VFS gives no inode, otherwise the record |
| TemplateFs.Fs.Lookup | lab4/Lab4_Template_Update/dir.c:17-58 | no entry: 0 and nothing; an entry: the error of `osfs_iget`, or the record of the inode it names |
| TemplateFs.Fs.Iterate | lab4/Lab4_Template_Update/dir.c:69-111 | the listing IterateSpec describes for the directory's block |
| TemplateFs.Fs.NewInode | lab4/Lab4_Template_Update/dir.c:122-233 | the new state and result are those of NewInodeSpec |
| TemplateFs.Fs.AddDirEntry | lab4/Lab4_Template_Update/dir.c:239-280 | the directory and zone are those of AddDirEntrySpec; no other record changes |
| TemplateFs.Fs.StoreBlock | lab4/Lab4_Template_Update/dir.c:272-274 | one block replaced, nothing else |
| TemplateFs.Fs.SetSize | lab4/Lab4_Template_Update/dir.c:277 | one record's size set, nothing else |
| TemplateFs.Fs.Create | lab4/Lab4_Template_Update/dir.c:292-354 | the new state and result are those of CreateSpec |
| TemplateFs.Fs.Read | lab4/Lab4_Template_Update/file.c:18-55 | the bytes of ReadSpec, their count, and the position advanced by it |
| TemplateFs.Fs.CopyIn | lab4/Lab4_Template_Update/file.c:105-107 | the zone after CopyInto |
| TemplateFs.Fs.Write | lab4/Lab4_Template_Update/file.c:70-133 | the return value, position, record and block side of WriteSpec; no other record and nothing of the inode side changes |
| BonusFs.Fs.Iget | lab4/lab4_bonus/inode.c:43-80 | -EFAULT for a number `osfs_get_osfs_inode` rejects, -ENOMEM when the VFS gives no inode, otherwise the record |
| BonusFs.Fs.LoadWord | lab4/lab4_bonus/inode.c:190 | the pointer read from the zone |
| BonusFs.Fs.StoreWord | lab4/lab4_bonus/inode.c:182 | the zone after SetWord |
| BonusFs.Fs.ClearBlock | lab4/lab4_bonus/inode.c:168-170 | the zone after ZeroBlock |
| BonusFs.Fs.DirectStepM | lab4/lab4_bonus/inode.c:136-150 | the outcome and state of DirectStep |
| BonusFs.Fs.EnsureSlotM | lab4/lab4_bonus/inode.c:158-173 | the outcome and state of EnsureSlot |
| BonusFs.Fs.EnsureMidM | lab4/lab4_bonus/inode.c:224-237 | the outcome and state of EnsureMid |
| BonusFs.Fs.LeafStepM | lab4/lab4_bonus/inode.c:181-190 | the outcome and state of LeafStep |
| BonusFs.Fs.IndirectWalkM | lab4/lab4_bonus/inode.c:156-192 | the outcome and state of IndirectWalk |
| BonusFs.Fs.DoubleWalkM | lab4/lab4_bonus/inode.c:198-255 | the outcome and state of DoubleWalk |
| BonusFs.Fs.GetBlock | lab4/lab4_bonus/inode.c:124-259 | the outcome and state of Resolve, so ResolveSound and ResolveReadOnly hold of the call; no other record and nothing of the inode side changes |
| BonusFs.Fs.GetIndexed | lab4/lab4_bonus/inode.c:152-258 | `osfs_get_block` past the direct slots leaves the outcome and state of Resolve; no other record and nothing of the inode side changes |
| BonusFs.Fs.GetDouble | lab4/lab4_bonus/inode.c:194-258 | `osfs_get_block` past the single-indirect range leaves the outcome and state of Resolve; no other record and nothing of the inode side changes |
| BonusFs.Fs.Release | lab4/lab4_bonus/inode.c:106-110 | one more block handed to `osfs_free_data_block` |
| BonusFs.Fs.ReleasePointers | lab4/lab4_bonus/inode.c:290-294 | the nonzero pointers of an index block freed in order |
| BonusFs.Fs.ReleaseTree | lab4/lab4_bonus/inode.c:306-320 | every nonzero intermediate block's nonzero pointers, then the block itself, in order |
| BonusFs.Fs.ReleasePointer | lab4/lab4_bonus/inode.c:290-294 | one pass of the pointer loop frees pointer j when nonzero, extending the freed sequence by the step of Teardown.Nonzero and keeping the bitmap and counter equal to it |
| BonusFs.Fs.ReleaseMid | lab4/lab4_bonus/inode.c:306-320 | one pass of the top-block loop frees an intermediate block's pointers and then the block when pointer i is nonzero, extending the freed sequence by one MidGroup |
| BonusFs.Fs.ReleaseDirect | lab4/lab4_bonus/inode.c:277-282 | every nonzero direct slot freed in order and zeroed; the other slots kept |
| BonusFs.Fs.ReleaseSlot | lab4/lab4_bonus/inode.c:277-282 | one pass of the direct loop frees slot k when nonzero and zeroes it; nothing else of the record changes |
| BonusFs.Fs.ReleaseIndirect | lab4/lab4_bonus/inode.c:285-298 | the single-indirect part freed and slot 12 zeroed |
| BonusFs.Fs.ReleaseDouble | lab4/lab4_bonus/inode.c:301-324 | the double-indirect part freed and slot 13 zeroed |
| BonusFs.Fs.ReleaseAll | lab4/lab4_bonus/inode.c:277-324 | the blocks of FreeOrder freed in turn and every slot zeroed |
| BonusFs.Fs.FreeInodeBlocks | lab4/lab4_bonus/inode.c:266-327 | every slot 0, `i_blocks` 0, the bitmap with every block of FreeOrder cleared (so TeardownBitmap holds), the counter incremented once per freed block |
| BonusFs.Fs.ResetBlockCount | lab4/lab4_bonus/inode.c:326 | `i_blocks = 0` in the record; nothing else changes |
| BonusFs.Fs.ReadChunk | lab4/lab4_bonus/file.c:37-64 | one pass of the read loop yields the file's bytes of the chunk and changes nothing |
| BonusFs.Fs.Read | lab4/lab4_bonus/file.c:10-68 | ReadLen bytes, each the file's byte (zero in a hole), the position advanced by the count; nothing changes |
| BonusFs.Fs.CopyIn | lab4/lab4_bonus/file.c:116-117 | the zone after CopyInto |
| BonusFs.Fs.WriteChunk | lab4/lab4_bonus/file.c:88-128 | the outcome and state of WritePass |
| BonusFs.Fs.CopyServed | lab4/lab4_bonus/file.c:116-117 | the disk after CopyChunk |
| BonusFs.Fs.Write | lab4/lab4_bonus/file.c:75-146 | the return value, position, record and disk of WriteSpec, so WriteContents holds of the call |
| BonusFs.Fs.SetSize | lab4/lab4_bonus/file.c:133 | one record's size set, nothing else |
| BonusFs.Fs.Lookup | lab4/lab4_bonus/dir.c:17-54 | no entry: 0 and nothing; an entry: the error of `osfs_iget`, or the record of the inode it names |
| BonusFs.Fs.Iterate | lab4/lab4_bonus/dir.c:60-97 | the listing IterateSpec describes for the directory's block |
| BonusFs.Fs.NewInode | lab4/lab4_bonus/dir.c:103-186 | the inode side and result of NewInodeSpec; the block side unchanged |
| BonusFs.Fs.AddDirEntry | lab4/lab4_bonus/dir.c:188-243 | the directory and disk of AddDirEntrySpec; no other record changes |
| BonusFs.Fs.InsertDirEntry | lab4/lab4_bonus/dir.c:212-242 | the directory and disk of InsertEntry |
| BonusFs.Fs.StoreBlock | lab4/lab4_bonus/dir.c:235-237 | one block replaced, nothing else |
| BonusFs.Fs.Create | lab4/lab4_bonus/dir.c:250-299 | the new state and result of CreateSpec |

## Left out

- **VFS glue.** This covers `new_inode`, `iput`, `d_splice_alias`,
  `d_instantiate`, `d_make_root`, `insert_inode_hash`, `mark_inode_dirty` and
  the copies kept in the VFS inode (`inode->i_size`, `i_blocks`). Their
  success or failure is a parameter.
- **Timestamps.** `current_time` and the three timespec fields of the record
  are not modelled, because they depend on the clock.
- **Concurrency and logging.** Locking and every `pr_*` message are not
  modelled.
- **Bitmap packing.** The bitmaps are sequences of booleans, 64 per unsigned
  long. The packing of bits into words is not modelled.
- **User-space copy faults.** `copy_to_user`, `clear_user` and
  `copy_from_user` are assumed to succeed. The -EFAULT paths of
  `lab4/lab4_bonus/file.c` lines 52-58 and 117-122 are not modelled, because
  whether user memory is mapped is outside the file system.
  - The single-block write's -EFAULT for a position past 1024 is modelled.
    There the cut length wraps around and every copy fails.
- **Null `i_private` checks.** The checks against a null `i_private` (-EIO)
  cannot happen on inodes made by `osfs_iget`, so they are not modelled.
  Likewise the NULL result of `osfs_get_osfs_inode` for a number just taken
  from the bitmap.
  - In the multi-level version, the range check of the number returned by
    `osfs_get_free_inode` is modelled in `BonusFs.Fs.NewInode`. In
    `BonusDir.NewInodeSpec` it cannot fail, because the scan only yields
    numbers below the inode count.
- **Reachable-state invariants.** Preconditions such as `InRange`,
  `SoundDisk`, `FileOk` and `DirOk` stand for what the operations keep:
  block numbers stay inside the zone. The code relies on them without
  checking.
  - `Terminated` (every in-use name has its NUL inside its field) is kept
    only in the multi-level version, where the `BonusDir` lemmas require
    it. In the single-block version a write to the first file goes
    through the root's block and can remove every NUL of an entry
    (`TemplateFile.CreateThenWriteLosesName`). So the `TemplateSpec`
    directory lemmas do not require it: they promise the lookups of other
    names of at most 255 bytes in every state, and the rest only when the
    names were terminated before.
  - `BlocksCounted` (in `WriteRead`) is one more: `i_blocks` plus the free
    data blocks stays below 2^32, and a file with `i_blocks` 0 reaches no
    block. A new inode has it (`FreshCounted`) and `osfs_write` keeps it
    (`WriteKeepsCounted`).
- DirEntries.CStrLen: stops at the end of the block. The source's `strlen`
  reads on into the next block of the region when a block has no NUL
  after the offset, which only happens in the single-block version, after
  a write through the root block. For such an entry `osfs_iterate` emits a
  longer name than `IterateSpec` (lab4/Lab4_Template_Update/dir.c line 101).
  Lookup and the duplicate check give the same answer either way for every
  name shorter than 3576 bytes, the shortest run to the block end: such a
  name matches neither length. That covers every name create accepts.
- TemplateSpec.PutKeepsOthers, TemplateSpec.AddThenLookup and the
  `Inserted` they establish: for names longer than 255 bytes, other lookups
  are promised unchanged only when the names were terminated. The source's
  lookup does not bound the name's length (lab4/Lab4_Template_Update/dir.c
  lines 42-43), and such a name can match an entry that runs on into the
  next one, which the append then changes.
- WriteSound.WriteContents and WriteSound.ReadAfterWrite: proved only while
  data block 0 is in use (`dk.bitmap[0]`), as are ResolveRepeat and
  WriteRead.WriteThenRead. The bonus allocator can hand out block 0, and
  `osfs_get_block` then stores the number 0, which every later walk reads
  as an absent pointer. So the restriction excludes only the operations up
  to the one that claims block 0: once block 0 is claimed it is reached
  from no position, so
  `osfs_free_inode_blocks` never frees it (`FreesExactlyReached`), and its
  bit stays set. `WriteRead.BlockZeroLost` shows that one write losing its
  byte.
- **Memory region layout.** The single-block version carves one `vmalloc`
  region into the superblock information, two bitmaps, the inode table and
  the data zone (`lab4/Lab4_Template_Update/super.c` lines 50-86). The model
  keeps these as separate objects. The carving is stated only as offsets and
  sizes (`Layout.RegionLayout`); pointer arithmetic and aliasing between the
  parts are not modelled.
- **The record before the block.** `osfs_iterate` at position 1 reads the
  record before the directory block. That record is modelled as one opaque
  value (`Stray`) rather than as the bytes of the preceding block.
- **Directory block decoding.** The listing is proved over the records
  decoded from the block (`Records`). `EmitRecords` takes that decoded
  sequence.
- **Freed index blocks.** `osfs_free_inode_blocks` does not clear freed index
  blocks, and neither does the model.
  - The teardown methods read the index blocks from a snapshot of the zone
    taken at entry. The teardown never writes the zone, so the snapshot and
    the zone agree throughout.
- **Not part of this model:**
  - `osfs_destroy_inode` and `osfs_fill_super` of the multi-level version;
  - the module and file-system registration in `osfs_init.c`;
  - labs 1 to 3.
