/** The multi-level version as the code runs it: one mounted file system
    whose superblock, inode table and data zone the operations of
    lab4/lab4_bonus/inode.c, file.c and dir.c update in place. Each method
    is proved to leave the state that the functions of GetBlock, Teardown,
    FileIo and DirEntries describe, and the properties proved about those
    functions carry over. */
module BonusFs {
  import opened Layout
  import opened Alloc
  import opened Blocks
  import opened PointerMap
  import opened GetBlock
  import opened GetBlockSound
  import opened Teardown
  import opened FileIo
  import opened WriteSound
  import opened DirEntries
  import opened BonusDir

  class Fs {
    const sb: SbInfo
    /** `sb_info->inode_table`: INODE_COUNT inode records. */
    const table: array<Inode>
    /** `sb_info->data_blocks`: DATA_BLOCK_COUNT blocks of BLOCK_SIZE bytes. */
    const data: array<Block>

    ghost predicate Valid()
      reads this, sb, table, data
    {
      && sb.Valid() && table.Length == INODE_COUNT && data.Length == DATA_BLOCK_COUNT
      && WfBlocks(data[..])
      && forall i :: 0 <= i < INODE_COUNT ==> WfInode(table[i])
    }

    /** The block bitmap, the free-block counter and the data zone: the part
        of the state `osfs_get_block` works on. */
    function DiskOf(): Disk
      reads this, sb, data
    {
      Disk(sb.blockBitmap, sb.nrFreeBlocks, data[..])
    }

    constructor Attach(sb: SbInfo, table: array<Inode>, data: array<Block>)
      ensures this.sb == sb && this.table == table && this.data == data
    {
      this.sb := sb;
      this.table := table;
      this.data := data;
    }

    /** `osfs_iget`: the inode record of ino, or -EFAULT when
        `osfs_get_osfs_inode` rejects ino, or -ENOMEM when the VFS has no
        inode to give (`vfsOk` false). */
    method Iget(ino: nat, vfsOk: bool) returns (ret: int, node: Inode)
      requires Valid()
      ensures GetOsfsInode(sb.inodeCount, ino).None? ==> ret == -EFAULT
      ensures GetOsfsInode(sb.inodeCount, ino).Some? && !vfsOk ==> ret == -ENOMEM
      ensures GetOsfsInode(sb.inodeCount, ino).Some? && vfsOk ==> ret == 0 && node == table[ino]
    {
      var slot := GetOsfsInode(sb.inodeCount, ino);
      if slot.None? {
        return -EFAULT, Inode(0, 0, 0, 0, 0, 0, 0, []);
      }
      if !vfsOk {
        return -ENOMEM, Inode(0, 0, 0, 0, 0, 0, 0, []);
      }
      return 0, table[slot.value];
    }

    /** Pointer i of block blk, read from the data zone. */
    method LoadWord(blk: nat, i: nat) returns (v: nat)
      requires Valid() && blk < DATA_BLOCK_COUNT && i < ADDR_PER_BLOCK
      ensures v == Word(data[..], blk, i)
    {
      v := LoadLE32(data[blk], 4 * i);
    }

    /** Store v as pointer i of block blk. */
    method StoreWord(blk: nat, i: nat, v: nat)
      requires Valid() && blk < DATA_BLOCK_COUNT && i < ADDR_PER_BLOCK && v < U32_RANGE
      modifies data
      ensures Valid() && data[..] == SetWord(old(data[..]), blk, i, v)
    {
      data[blk] := StoreLE32(data[blk], 4 * i, v);
      assert data[..] == old(data[..])[blk := StoreLE32(old(data[blk]), 4 * i, v)];
    }

    /** `memset(block, 0, BLOCK_SIZE)`. */
    method ClearBlock(blk: nat)
      requires Valid() && blk < DATA_BLOCK_COUNT
      modifies data
      ensures Valid() && data[..] == ZeroBlock(old(data[..]), blk)
    {
      data[blk] := ZeroedBlock();
      assert data[..] == old(data[..])[blk := ZeroedBlock()];
    }

    /** The direct branch of `osfs_get_block`. */
    method DirectStepM(ino: nat, k: nat, create: bool) returns (ret: int, phys: nat)
      requires Valid() && ino < INODE_COUNT && k < N_DIRECT
      modifies sb, table
      ensures Valid()
      ensures Resolution(ret, phys, table[ino], DiskOf()) == DirectStep(old(table[ino]), old(DiskOf()), k, create)
      ensures forall i :: 0 <= i < INODE_COUNT && i != ino ==> table[i] == old(table[i])
      ensures sb.inodeBitmap == old(sb.inodeBitmap) && sb.nrFreeInodes == old(sb.nrFreeInodes)
    {
      var n := table[ino];
      if n.iBlock[k] == 0 && create {
        var r, v := sb.AllocDataBlock();
        if r != 0 {
          return r, 0;
        }
        table[ino] := Counted(n.(iBlock := n.iBlock[k := v]));
      }
      return 0, table[ino].iBlock[k];
    }

    /** Make slot k (12 or 13) name a zeroed index block. */
    method EnsureSlotM(ino: nat, k: nat, create: bool) returns (ret: int)
      requires Valid() && ino < INODE_COUNT && (k == IND_SLOT || k == DIND_SLOT)
      requires table[ino].iBlock[k] < DATA_BLOCK_COUNT
      modifies sb, table, data
      ensures Valid()
      ensures Resolution(ret, 0, table[ino], DiskOf()) == EnsureSlot(old(table[ino]), old(DiskOf()), k, create)
      ensures forall i :: 0 <= i < INODE_COUNT && i != ino ==> table[i] == old(table[i])
      ensures sb.inodeBitmap == old(sb.inodeBitmap) && sb.nrFreeInodes == old(sb.nrFreeInodes)
    {
      var n := table[ino];
      if n.iBlock[k] != 0 {
        return 0;
      }
      if !create {
        return -ENOENT;
      }
      var r, v := sb.AllocDataBlock();
      if r != 0 {
        return r;
      }
      table[ino] := n.(iBlock := n.iBlock[k := v]);
      ClearBlock(v);
      table[ino] := Counted(table[ino]);
      return 0;
    }

    /** Make pointer i of the double-indirect block top name a zeroed
        intermediate block. */
    method EnsureMidM(ino: nat, top: nat, i: nat, create: bool) returns (ret: int)
      requires Valid() && ino < INODE_COUNT && top < DATA_BLOCK_COUNT && i < ADDR_PER_BLOCK
      requires Word(data[..], top, i) < DATA_BLOCK_COUNT
      modifies sb, table, data
      ensures Valid()
      ensures Resolution(ret, 0, table[ino], DiskOf()) == EnsureMid(old(table[ino]), old(DiskOf()), top, i, create)
      ensures forall j :: 0 <= j < INODE_COUNT && j != ino ==> table[j] == old(table[j])
      ensures sb.inodeBitmap == old(sb.inodeBitmap) && sb.nrFreeInodes == old(sb.nrFreeInodes)
    {
      var w := LoadWord(top, i);
      if w != 0 {
        return 0;
      }
      if !create {
        return -ENOENT;
      }
      var r, v := sb.AllocDataBlock();
      if r != 0 {
        return r;
      }
      StoreWord(top, i, v);
      ClearBlock(v);
      table[ino] := Counted(table[ino]);
      return 0;
    }

    /** Pointer j of index block parent: the data block, allocated on
        demand. */
    method LeafStepM(ino: nat, parent: nat, j: nat, create: bool) returns (ret: int, phys: nat)
      requires Valid() && ino < INODE_COUNT && parent < DATA_BLOCK_COUNT && j < ADDR_PER_BLOCK
      modifies sb, table, data
      ensures Valid()
      ensures Resolution(ret, phys, table[ino], DiskOf()) == LeafStep(old(table[ino]), old(DiskOf()), parent, j, create)
      ensures forall i :: 0 <= i < INODE_COUNT && i != ino ==> table[i] == old(table[i])
      ensures sb.inodeBitmap == old(sb.inodeBitmap) && sb.nrFreeInodes == old(sb.nrFreeInodes)
    {
      var w := LoadWord(parent, j);
      if w == 0 && create {
        var r, v := sb.AllocDataBlock();
        if r != 0 {
          return r, 0;
        }
        StoreWord(parent, j, v);
        table[ino] := Counted(table[ino]);
      }
      phys := LoadWord(parent, j);
      return 0, phys;
    }

    /** The single-indirect branch of `osfs_get_block`. */
    method IndirectWalkM(ino: nat, j: nat, create: bool) returns (ret: int, phys: nat)
      requires Valid() && ino < INODE_COUNT && InRange(table[ino], data[..]) && j < ADDR_PER_BLOCK
      modifies sb, table, data
      ensures Valid()
      ensures Resolution(ret, phys, table[ino], DiskOf()) == IndirectWalk(old(table[ino]), old(DiskOf()), j, create)
      ensures forall i :: 0 <= i < INODE_COUNT && i != ino ==> table[i] == old(table[i])
      ensures sb.inodeBitmap == old(sb.inodeBitmap) && sb.nrFreeInodes == old(sb.nrFreeInodes)
    {
      assert At(table[ino], data[..], Ind) < DATA_BLOCK_COUNT;
      ret := EnsureSlotM(ino, IND_SLOT, create);
      if ret != 0 {
        return ret, 0;
      }
      ret, phys := LeafStepM(ino, table[ino].iBlock[IND_SLOT], j, create);
    }

    /** The double-indirect branch of `osfs_get_block`. */
    method DoubleWalkM(ino: nat, i: nat, j: nat, create: bool) returns (ret: int, phys: nat)
      requires Valid() && ino < INODE_COUNT && InRange(table[ino], data[..])
      requires i < ADDR_PER_BLOCK && j < ADDR_PER_BLOCK
      modifies sb, table, data
      ensures Valid()
      ensures Resolution(ret, phys, table[ino], DiskOf()) == DoubleWalk(old(table[ino]), old(DiskOf()), i, j, create)
      ensures forall k :: 0 <= k < INODE_COUNT && k != ino ==> table[k] == old(table[k])
      ensures sb.inodeBitmap == old(sb.inodeBitmap) && sb.nrFreeInodes == old(sb.nrFreeInodes)
    {
      assert At(table[ino], data[..], Top) < DATA_BLOCK_COUNT;
      assert At(table[ino], data[..], Mid(i)) < DATA_BLOCK_COUNT;
      ret := EnsureSlotM(ino, DIND_SLOT, create);
      if ret != 0 {
        return ret, 0;
      }
      var top := table[ino].iBlock[DIND_SLOT];
      ret := EnsureMidM(ino, top, i, create);
      if ret != 0 {
        return ret, 0;
      }
      var mid := LoadWord(top, i);
      ret, phys := LeafStepM(ino, mid, j, create);
    }

    /** `osfs_get_block(inode, b, &phys, create)` on inode ino: the same
        outcome and state as the GetBlock model, so every property proved of
        Resolve holds of the call. */
    method GetBlock(ino: nat, b: nat, create: bool) returns (ret: int, phys: nat)
      requires Valid() && ino < INODE_COUNT && InRange(table[ino], data[..])
      modifies sb, table, data
      ensures Valid()
      ensures Resolution(ret, phys, table[ino], DiskOf()) == Resolve(old(table[ino]), old(DiskOf()), b, create)
      ensures forall i :: 0 <= i < INODE_COUNT && i != ino ==> table[i] == old(table[i])
      ensures sb.inodeBitmap == old(sb.inodeBitmap) && sb.nrFreeInodes == old(sb.nrFreeInodes)
    {
      ghost var n, dk := table[ino], DiskOf();
      if b < N_DIRECT {
        assert Resolve(n, dk, b, create) == DirectStep(n, dk, b, create);
        ret, phys := DirectStepM(ino, b, create);
      } else {
        ret, phys := GetIndexed(ino, b, create);
      }
    }

    /** `osfs_get_block` past the direct slots. */
    method GetIndexed(ino: nat, b: nat, create: bool) returns (ret: int, phys: nat)
      requires N_DIRECT <= b
      requires Valid() && ino < INODE_COUNT && InRange(table[ino], data[..])
      modifies sb, table, data
      ensures Valid()
      ensures Resolution(ret, phys, table[ino], DiskOf()) == Resolve(old(table[ino]), old(DiskOf()), b, create)
      ensures forall i :: 0 <= i < INODE_COUNT && i != ino ==> table[i] == old(table[i])
      ensures sb.inodeBitmap == old(sb.inodeBitmap) && sb.nrFreeInodes == old(sb.nrFreeInodes)
    {
      var rest := b - N_DIRECT;
      if rest < ADDR_PER_BLOCK {
        ResolveIndirect(table[ino], DiskOf(), b, create);
        ret, phys := IndirectWalkM(ino, rest, create);
      } else {
        ret, phys := GetDouble(ino, b, create);
      }
    }

    /** `osfs_get_block` past the single-indirect range. */
    method GetDouble(ino: nat, b: nat, create: bool) returns (ret: int, phys: nat)
      requires N_DIRECT + ADDR_PER_BLOCK <= b
      requires Valid() && ino < INODE_COUNT && InRange(table[ino], data[..])
      modifies sb, table, data
      ensures Valid()
      ensures Resolution(ret, phys, table[ino], DiskOf()) == Resolve(old(table[ino]), old(DiskOf()), b, create)
      ensures forall i :: 0 <= i < INODE_COUNT && i != ino ==> table[i] == old(table[i])
      ensures sb.inodeBitmap == old(sb.inodeBitmap) && sb.nrFreeInodes == old(sb.nrFreeInodes)
    {
      ResolveBeyond(table[ino], DiskOf(), b, create);
      var rest := b - N_DIRECT - ADDR_PER_BLOCK;
      if rest < ADDR_PER_BLOCK * ADDR_PER_BLOCK {
        ret, phys := DoubleWalkM(ino, rest / ADDR_PER_BLOCK, rest % ADDR_PER_BLOCK, create);
      } else {
        ret, phys := -EFBIG, 0;
      }
    }

    /** The bitmap and free-block counter are those of bm0 and c0 after
        `osfs_free_data_block` of each block of freed in turn. */
    ghost predicate Tracks(bm0: seq<bool>, c0: nat, freed: seq<nat>)
      reads this, sb
    {
      && |bm0| == |sb.blockBitmap| && c0 < U32_RANGE
      && sb.blockBitmap == ClearAll(bm0, freed)
      && sb.nrFreeBlocks == Inc32N(c0, |freed|)
    }

    /** `osfs_free_data_block(sb_info, x)`. */
    method Release(x: nat, ghost bm0: seq<bool>, ghost c0: nat, ghost freed: seq<nat>)
      requires Valid() && x < DATA_BLOCK_COUNT && Tracks(bm0, c0, freed)
      modifies sb
      ensures Valid() && Tracks(bm0, c0, freed + [x])
      ensures sb.inodeBitmap == old(sb.inodeBitmap) && sb.nrFreeInodes == old(sb.nrFreeInodes)
    {
      sb.FreeDataBlock(x);
      ClearAllSnoc(bm0, freed, x);
      assert |freed + [x]| == |freed| + 1;
    }

    /** Pointer j of index block blk of zone is freed when it is nonzero. */
    method ReleasePointer(blk: nat, j: nat, zone: seq<Block>, ghost bm0: seq<bool>, ghost c0: nat,
                          ghost xs: seq<nat>, ghost goal: seq<nat>)
      returns (ghost ys: seq<nat>)
      requires Valid() && j < ADDR_PER_BLOCK && PointersInZone(zone, blk)
      requires Tracks(bm0, c0, xs) && PointersLeft(xs, zone, blk, j, goal)
      modifies sb
      ensures Valid() && Tracks(bm0, c0, ys) && PointersLeft(ys, zone, blk, j + 1, goal)
      ensures sb.inodeBitmap == old(sb.inodeBitmap) && sb.nrFreeInodes == old(sb.nrFreeInodes)
    {
      var w := Word(zone, blk, j);
      NonzeroNext(zone, blk, j, xs, goal);
      ys := xs;
      if w != 0 {
        Release(w, bm0, c0, xs);
        ys := xs + [w];
      }
    }

    /** Free every nonzero pointer of index block blk, in order. */
    method ReleasePointers(blk: nat, zone: seq<Block>, ghost bm0: seq<bool>, ghost c0: nat, ghost freedIn: seq<nat>)
      returns (ghost freed: seq<nat>)
      requires Valid() && PointersInZone(zone, blk) && Tracks(bm0, c0, freedIn)
      modifies sb
      ensures Valid() && freed == freedIn + Nonzero(zone, blk, 0) && Tracks(bm0, c0, freed)
      ensures sb.inodeBitmap == old(sb.inodeBitmap) && sb.nrFreeInodes == old(sb.nrFreeInodes)
    {
      ghost var goal := freedIn + Nonzero(zone, blk, 0);
      freed := freedIn;
      var j := 0;
      while j < ADDR_PER_BLOCK
        invariant 0 <= j <= ADDR_PER_BLOCK
        invariant Valid() && Tracks(bm0, c0, freed)
        invariant PointersLeft(freed, zone, blk, j, goal)
        invariant sb.inodeBitmap == old(sb.inodeBitmap) && sb.nrFreeInodes == old(sb.nrFreeInodes)
      {
        freed := ReleasePointer(blk, j, zone, bm0, c0, freed, goal);
        j := j + 1;
      }
      PointersDone(freed, zone, blk, goal);
    }

    /** Pointer i of the top block: when nonzero, the intermediate block's
        pointers and then the block itself are freed. */
    method ReleaseMid(top: nat, i: nat, zone: seq<Block>, ghost bm0: seq<bool>, ghost c0: nat,
                      ghost xs: seq<nat>, ghost goal: seq<nat>)
      returns (ghost ys: seq<nat>)
      requires Valid() && i < ADDR_PER_BLOCK && MidInZone(zone, top, i)
      requires Tracks(bm0, c0, xs) && MidsLeft(xs, zone, top, i, goal)
      modifies sb
      ensures Valid() && Tracks(bm0, c0, ys) && MidsLeft(ys, zone, top, i + 1, goal)
      ensures sb.inodeBitmap == old(sb.inodeBitmap) && sb.nrFreeInodes == old(sb.nrFreeInodes)
    {
      var m := Word(zone, top, i);
      MidNext(zone, top, i, xs, goal);
      ys := xs;
      if m != 0 {
        ys := ReleasePointers(m, zone, bm0, c0, xs);
        Release(m, bm0, c0, ys);
        ys := ys + [m];
      }
    }

    /** The double-indirect part: for each nonzero pointer of top, its
        nonzero pointers and then the intermediate block itself. */
    method ReleaseTree(top: nat, zone: seq<Block>, ghost bm0: seq<bool>, ghost c0: nat, ghost freedIn: seq<nat>)
      returns (ghost freed: seq<nat>)
      requires Valid() && TreeInZone(zone, top) && Tracks(bm0, c0, freedIn)
      modifies sb
      ensures Valid() && freed == freedIn + MidFrees(zone, top, 0) && Tracks(bm0, c0, freed)
      ensures sb.inodeBitmap == old(sb.inodeBitmap) && sb.nrFreeInodes == old(sb.nrFreeInodes)
    {
      ghost var goal := freedIn + MidFrees(zone, top, 0);
      freed := freedIn;
      var i := 0;
      while i < ADDR_PER_BLOCK
        invariant 0 <= i <= ADDR_PER_BLOCK
        invariant Valid() && Tracks(bm0, c0, freed) && MidsLeft(freed, zone, top, i, goal)
        invariant sb.inodeBitmap == old(sb.inodeBitmap) && sb.nrFreeInodes == old(sb.nrFreeInodes)
      {
        freed := ReleaseMid(top, i, zone, bm0, c0, freed, goal);
        i := i + 1;
      }
      MidsDone(freed, zone, top, goal);
    }

    /** Direct slot k: when nonzero, its block is freed and the slot zeroed. */
    method ReleaseSlot(ino: nat, k: nat, ghost n0: Inode, ghost bm0: seq<bool>, ghost c0: nat,
                       ghost xs: seq<nat>, ghost goal: seq<nat>)
      returns (ghost ys: seq<nat>)
      requires Valid() && ino < INODE_COUNT && k < N_DIRECT && InRange(n0, data[..])
      requires table[ino].iBlock[k] == n0.iBlock[k]
      requires Tracks(bm0, c0, xs) && SlotsLeft(xs, n0, k, goal)
      modifies sb, table
      ensures Valid() && Tracks(bm0, c0, ys) && SlotsLeft(ys, n0, k + 1, goal)
      ensures table[ino] == old(table[ino]).(iBlock := old(table[ino]).iBlock[k := 0])
      ensures forall i :: 0 <= i < INODE_COUNT && i != ino ==> table[i] == old(table[i])
      ensures sb.inodeBitmap == old(sb.inodeBitmap) && sb.nrFreeInodes == old(sb.nrFreeInodes)
    {
      var v := table[ino].iBlock[k];
      assert At(n0, data[..], Direct(k)) == v;
      DirectNext(n0, k, xs, goal);
      ys := xs;
      if v != 0 {
        Release(v, bm0, c0, xs);
        ys := xs + [v];
        table[ino] := table[ino].(iBlock := table[ino].iBlock[k := 0]);
      }
    }

    /** The direct part: each nonzero slot is freed and zeroed. */
    method ReleaseDirect(ino: nat, ghost bm0: seq<bool>, ghost c0: nat, ghost freedIn: seq<nat>)
      returns (ghost freed: seq<nat>)
      requires Valid() && ino < INODE_COUNT && InRange(table[ino], data[..]) && Tracks(bm0, c0, freedIn)
      modifies sb, table
      ensures Valid() && freed == freedIn + DirectFrees(old(table[ino]), 0) && Tracks(bm0, c0, freed)
      ensures table[ino] == old(table[ino]).(iBlock := table[ino].iBlock)
      ensures forall s :: 0 <= s < N_BLOCKS ==>
        table[ino].iBlock[s] == if s < N_DIRECT then 0 else old(table[ino]).iBlock[s]
      ensures forall i :: 0 <= i < INODE_COUNT && i != ino ==> table[i] == old(table[i])
      ensures sb.inodeBitmap == old(sb.inodeBitmap) && sb.nrFreeInodes == old(sb.nrFreeInodes)
    {
      ghost var n0 := table[ino];
      ghost var goal := freedIn + DirectFrees(n0, 0);
      freed := freedIn;
      var k := 0;
      while k < N_DIRECT
        invariant 0 <= k <= N_DIRECT
        invariant Valid() && Tracks(bm0, c0, freed) && SlotsLeft(freed, n0, k, goal)
        invariant table[ino] == n0.(iBlock := table[ino].iBlock)
        invariant forall s :: 0 <= s < N_BLOCKS ==> table[ino].iBlock[s] == if s < k then 0 else n0.iBlock[s]
        invariant forall i :: 0 <= i < INODE_COUNT && i != ino ==> table[i] == old(table[i])
        invariant sb.inodeBitmap == old(sb.inodeBitmap) && sb.nrFreeInodes == old(sb.nrFreeInodes)
      {
        freed := ReleaseSlot(ino, k, n0, bm0, c0, freed, goal);
        k := k + 1;
      }
    }

    /** The single-indirect part: the nonzero pointers of the block in slot
        12, then that block; the slot is zeroed. */
    method ReleaseIndirect(ino: nat, zone: seq<Block>, ghost bm0: seq<bool>, ghost c0: nat, ghost freedIn: seq<nat>)
      returns (ghost freed: seq<nat>)
      requires Valid() && ino < INODE_COUNT && Tracks(bm0, c0, freedIn)
      requires table[ino].iBlock[IND_SLOT] < DATA_BLOCK_COUNT
      requires table[ino].iBlock[IND_SLOT] != 0 ==> PointersInZone(zone, table[ino].iBlock[IND_SLOT])
      modifies sb, table
      ensures Valid() && Tracks(bm0, c0, freed)
      ensures freed == freedIn + IndexPart(zone, old(table[ino]).iBlock[IND_SLOT])
      ensures table[ino] == old(table[ino]).(iBlock := old(table[ino]).iBlock[IND_SLOT := 0])
      ensures forall i :: 0 <= i < INODE_COUNT && i != ino ==> table[i] == old(table[i])
      ensures sb.inodeBitmap == old(sb.inodeBitmap) && sb.nrFreeInodes == old(sb.nrFreeInodes)
    {
      var ind := table[ino].iBlock[IND_SLOT];
      freed := freedIn;
      if ind != 0 {
        freed := ReleasePointers(ind, zone, bm0, c0, freed);
        Release(ind, bm0, c0, freed);
        freed := freed + [ind];
        assert freed == freedIn + (Nonzero(zone, ind, 0) + [ind]);
        table[ino] := table[ino].(iBlock := table[ino].iBlock[IND_SLOT := 0]);
      } else {
        assert freedIn + [] == freedIn;
      }
    }

    /** The double-indirect part: the tree under the block in slot 13, then
        that block; the slot is zeroed. */
    method ReleaseDouble(ino: nat, zone: seq<Block>, ghost bm0: seq<bool>, ghost c0: nat, ghost freedIn: seq<nat>)
      returns (ghost freed: seq<nat>)
      requires Valid() && ino < INODE_COUNT && Tracks(bm0, c0, freedIn)
      requires table[ino].iBlock[DIND_SLOT] < DATA_BLOCK_COUNT
      requires table[ino].iBlock[DIND_SLOT] != 0 ==> TreeInZone(zone, table[ino].iBlock[DIND_SLOT])
      modifies sb, table
      ensures Valid() && Tracks(bm0, c0, freed)
      ensures freed == freedIn + TreePart(zone, old(table[ino]).iBlock[DIND_SLOT])
      ensures table[ino] == old(table[ino]).(iBlock := old(table[ino]).iBlock[DIND_SLOT := 0])
      ensures forall i :: 0 <= i < INODE_COUNT && i != ino ==> table[i] == old(table[i])
      ensures sb.inodeBitmap == old(sb.inodeBitmap) && sb.nrFreeInodes == old(sb.nrFreeInodes)
    {
      var top := table[ino].iBlock[DIND_SLOT];
      freed := freedIn;
      if top != 0 {
        freed := ReleaseTree(top, zone, bm0, c0, freed);
        Release(top, bm0, c0, freed);
        freed := freed + [top];
        assert freed == freedIn + (MidFrees(zone, top, 0) + [top]);
        table[ino] := table[ino].(iBlock := table[ino].iBlock[DIND_SLOT := 0]);
      } else {
        assert freedIn + [] == freedIn;
      }
    }

    /** `osfs_inode->i_blocks = 0`. */
    method ResetBlockCount(ino: nat)
      requires Valid() && ino < INODE_COUNT
      modifies table
      ensures Valid() && table[ino] == old(table[ino]).(blocks := 0)
      ensures forall i :: 0 <= i < INODE_COUNT && i != ino ==> table[i] == old(table[i])
    {
      table[ino] := table[ino].(blocks := 0);
    }

    /** `osfs_free_inode_blocks` on inode ino: every block of FreeOrder is
        handed to `osfs_free_data_block` in turn, every slot is zeroed and
        i_blocks becomes 0; the index blocks keep their contents. */
    method FreeInodeBlocks(ino: nat)
      requires Valid() && ino < INODE_COUNT && InRange(table[ino], data[..])
      modifies sb, table
      ensures Valid()
      ensures table[ino] == old(table[ino]).(iBlock := seq(N_BLOCKS, _ => 0), blocks := 0)
      ensures sb.blockBitmap == ClearAll(old(sb.blockBitmap), FreeOrder(old(table[ino]), data[..]))
      ensures sb.nrFreeBlocks == Inc32N(old(sb.nrFreeBlocks), |FreeOrder(old(table[ino]), data[..])|)
      ensures forall i :: 0 <= i < INODE_COUNT && i != ino ==> table[i] == old(table[i])
      ensures sb.inodeBitmap == old(sb.inodeBitmap) && sb.nrFreeInodes == old(sb.nrFreeInodes)
    {
      ghost var freed := ReleaseAll(ino, sb.blockBitmap, sb.nrFreeBlocks);
      ResetBlockCount(ino);
    }

    /** The three parts in the order `osfs_free_inode_blocks` frees them. */
    method ReleaseAll(ino: nat, ghost bm0: seq<bool>, ghost c0: nat) returns (ghost freed: seq<nat>)
      requires Valid() && ino < INODE_COUNT && InRange(table[ino], data[..]) && Tracks(bm0, c0, [])
      modifies sb, table
      ensures Valid() && freed == FreeOrder(old(table[ino]), data[..]) && Tracks(bm0, c0, freed)
      ensures table[ino] == old(table[ino]).(iBlock := seq(N_BLOCKS, _ => 0))
      ensures forall i :: 0 <= i < INODE_COUNT && i != ino ==> table[i] == old(table[i])
      ensures sb.inodeBitmap == old(sb.inodeBitmap) && sb.nrFreeInodes == old(sb.nrFreeInodes)
    {
      var zone := data[..];
      ghost var n0 := table[ino];
      ghost var ind, top := n0.iBlock[IND_SLOT], n0.iBlock[DIND_SLOT];
      IndexBlocksInZone(n0, zone);
      assert At(n0, zone, Ind) == ind < DATA_BLOCK_COUNT && At(n0, zone, Top) == top < DATA_BLOCK_COUNT;
      assert top != 0 ==> TreeInZone(zone, top);
      freed := ReleaseDirect(ino, bm0, c0, []);
      AllSlotsZero(table[ino].iBlock, n0.iBlock);
      ghost var slots := table[ino].iBlock[IND_SLOT := 0][DIND_SLOT := 0];
      assert freed == DirectFrees(n0, 0);
      freed := ReleaseIndirect(ino, zone, bm0, c0, freed);
      assert freed == DirectFrees(n0, 0) + IndexPart(zone, ind);
      assert table[ino].iBlock[DIND_SLOT] == top;
      freed := ReleaseDouble(ino, zone, bm0, c0, freed);
      assert freed == FreeOrder(n0, zone);
      assert table[ino].iBlock == slots;
      assert data[..] == zone;
    }

    /** One pass of the read loop of `osfs_read`: `osfs_get_block` with
        create 0, then the block's bytes, or zeros (`clear_user`) when it
        fails or yields block 0. */
    method ReadChunk(ino: nat, p: nat, toRead: nat) returns (chunk: seq<byte>)
      requires Valid() && ino < INODE_COUNT && InRange(table[ino], data[..])
      requires p % BLOCK_SIZE + toRead <= BLOCK_SIZE
      modifies sb, table, data
      ensures Valid() && table[ino] == old(table[ino]) && DiskOf() == old(DiskOf())
      ensures forall i :: 0 <= i < INODE_COUNT && i != ino ==> table[i] == old(table[i])
      ensures sb.inodeBitmap == old(sb.inodeBitmap) && sb.nrFreeInodes == old(sb.nrFreeInodes)
      ensures chunk == FileBytes(table[ino], data[..], p, toRead)
    {
      ghost var n, dk := table[ino], DiskOf();
      var b, off := p / BLOCK_SIZE, p % BLOCK_SIZE;
      ResolveReadOnly(n, dk, b);
      ChunkBytes(n, dk.data, p, toRead);
      var ret, phys := GetBlock(ino, b, false);
      if ret != 0 || phys == 0 {
        chunk := seq(toRead, _ => 0);
      } else {
        chunk := data[phys][off..off + toRead];
      }
    }

    /** `osfs_read(filp, buf, len, ppos)` on inode ino: the bytes read, the
        new position; nothing in the file system changes. */
    method Read(ino: nat, pos: nat, len: nat) returns (ret: int, buf: seq<byte>, newPos: nat)
      requires Valid() && ino < INODE_COUNT && InRange(table[ino], data[..])
      modifies sb, table, data
      ensures Valid() && table[ino] == old(table[ino]) && DiskOf() == old(DiskOf())
      ensures forall i :: 0 <= i < INODE_COUNT && i != ino ==> table[i] == old(table[i])
      ensures sb.inodeBitmap == old(sb.inodeBitmap) && sb.nrFreeInodes == old(sb.nrFreeInodes)
      ensures ret == |buf| == ReadLen(table[ino], pos, len) && newPos == pos + ret
      ensures buf == FileBytes(table[ino], data[..], pos, ret)
    {
      var n := table[ino];
      ghost var dk := DiskOf();
      if n.blocks == 0 {
        return 0, [], pos;
      }
      if pos >= n.size {
        return 0, [], pos;
      }
      var left: nat := len;
      if pos + left > n.size {
        left := n.size - pos;
      }
      buf := [];
      newPos := pos;
      while left > 0
        invariant Valid() && table[ino] == n && DiskOf() == dk
        invariant forall i :: 0 <= i < INODE_COUNT && i != ino ==> table[i] == old(table[i])
        invariant sb.inodeBitmap == old(sb.inodeBitmap) && sb.nrFreeInodes == old(sb.nrFreeInodes)
        invariant newPos == pos + |buf| && |buf| + left == ReadLen(n, pos, len)
        invariant buf == FileBytes(n, dk.data, pos, |buf|)
        decreases left
      {
        var toRead := Min(left, BLOCK_SIZE - newPos % BLOCK_SIZE);
        var chunk := ReadChunk(ino, newPos, toRead);
        FileBytesJoin(n, dk.data, pos, |buf|, toRead);
        buf := buf + chunk;
        newPos := newPos + toRead;
        left := left - toRead;
      }
      ret := |buf|;
    }

    /** `copy_from_user` of chunk into block phys at offset off. */
    method CopyIn(phys: nat, off: nat, chunk: seq<byte>)
      requires Valid() && phys < DATA_BLOCK_COUNT && off + |chunk| <= BLOCK_SIZE
      modifies data
      ensures Valid() && data[..] == CopyInto(old(data[..]), phys, off, chunk)
    {
      data[phys] := data[phys][..off] + chunk + data[phys][off + |chunk|..];
      assert data[..] == old(data[..])[phys := old(data[phys])[..off] + chunk + old(data[phys])[off + |chunk|..]];
    }

    /** One pass of the copy loop of `osfs_write` once `done` bytes are
        written from `start`: the same outcome and state as WritePass. */
    method WriteChunk(ino: nat, start: nat, src: seq<byte>, done: nat) returns (stop: bool, ret: int, next: nat)
      requires Valid() && ino < INODE_COUNT && SoundDisk(table[ino], DiskOf()) && done < |src|
      modifies sb, table, data
      ensures Valid() && SoundDisk(table[ino], DiskOf())
      ensures var s := WritePass(old(table[ino]), old(DiskOf()), start, src, done);
        if stop then s == Stop(Written(ret, start + done, table[ino], DiskOf()))
        else s == Go(table[ino], DiskOf(), next)
      ensures forall i :: 0 <= i < INODE_COUNT && i != ino ==> table[i] == old(table[i])
      ensures sb.inodeBitmap == old(sb.inodeBitmap) && sb.nrFreeInodes == old(sb.nrFreeInodes)
    {
      ghost var n, dk := table[ino], DiskOf();
      var p := start + done;
      var b := p / BLOCK_SIZE;
      var len := ChunkLen(p, |src| - done);
      var r, phys := GetBlock(ino, b, true);
      ghost var res := Resolution(r, phys, table[ino], DiskOf());
      PassFails(n, dk, start, src, done, res);
      if r != 0 || phys == 0 {
        return true, if done > 0 then done else if r != 0 then r else -EIO, done;
      }
      PassCopies(n, dk, start, src, done, b, len, res);
      CopyServed(res, phys, b, p, src[done..done + len]);
      return false, 0, done + len;
    }

    /** The copy into the block a resolution serves, as CopyChunk. */
    method CopyServed(ghost r: Resolution, phys: nat, b: nat, pos: nat, chunk: seq<byte>)
      requires Valid() && Served(r, b) && r.phys == phys && r.disk == DiskOf() && pos % BLOCK_SIZE + |chunk| <= BLOCK_SIZE
      modifies data
      ensures Valid() && DiskOf() == CopyChunk(r, b, pos, chunk)
    {
      CopyIn(phys, pos % BLOCK_SIZE, chunk);
    }

    /** `osfs_write(filp, buf, len, ppos)` on inode ino, for an inode whose
        pointer graph is sound: the same return value, position, inode and
        disk as WriteSpec, so WriteContents tells what the file then holds. */
    method Write(ino: nat, pos: nat, src: seq<byte>) returns (ret: int, newPos: nat)
      requires Valid() && ino < INODE_COUNT && SoundDisk(table[ino], DiskOf())
      modifies sb, table, data
      ensures Valid()
      ensures Written(ret, newPos, table[ino], DiskOf()) == WriteSpec(old(table[ino]), old(DiskOf()), pos, src)
      ensures forall i :: 0 <= i < INODE_COUNT && i != ino ==> table[i] == old(table[i])
      ensures sb.inodeBitmap == old(sb.inodeBitmap) && sb.nrFreeInodes == old(sb.nrFreeInodes)
    {
      ghost var n0, dk0 := table[ino], DiskOf();
      ghost var w := WriteLoop(n0, dk0, pos, src, 0);
      var done := 0;
      var stopped := false;
      ret := 0;
      while done < |src| && !stopped
        invariant Valid() && done <= |src| && SoundDisk(table[ino], DiskOf())
        invariant !stopped ==> WriteLoop(table[ino], DiskOf(), pos, src, done) == w
        invariant stopped ==> w == Written(ret, pos + done, table[ino], DiskOf())
        invariant forall i :: 0 <= i < INODE_COUNT && i != ino ==> table[i] == old(table[i])
        invariant sb.inodeBitmap == old(sb.inodeBitmap) && sb.nrFreeInodes == old(sb.nrFreeInodes)
        decreases |src| - done, !stopped
      {
        var next;
        WriteLoopUnfold(table[ino], DiskOf(), pos, src, done);
        stopped, ret, next := WriteChunk(ino, pos, src, done);
        if !stopped {
          done := next;
        }
      }
      if !stopped {
        assert w == Written(done, pos + done, table[ino], DiskOf());
        ret := done;
      }
      newPos := pos + done;
      assert w == Written(ret, newPos, table[ino], DiskOf());
      if ret < 0 {
        return;
      }
      if newPos > table[ino].size {
        SetSize(ino, Trunc32(newPos));
      }
    }

    /** `osfs_inode->i_size = *ppos` (a uint32_t). */
    method SetSize(ino: nat, size: nat)
      requires Valid() && ino < INODE_COUNT && size < U32_RANGE
      modifies table
      ensures Valid() && table[ino] == old(table[ino]).(size := size)
      ensures forall i :: 0 <= i < INODE_COUNT && i != ino ==> table[i] == old(table[i])
    {
      table[ino] := table[ino].(size := size);
    }

    /** The inode bitmap, the free-inode counter and the inode table. */
    function Side(): InodeSide
      reads this, sb, table
    {
      InodeSide(sb.inodeBitmap, sb.nrFreeInodes, table[..])
    }

    /** The whole state the directory operations read and change. */
    function StateOf(): FsState
      reads this, sb, table, data
    {
      FsState(Side(), DiskOf())
    }

    /** `osfs_lookup` of name in directory dir: no entry gives a negative
        dentry (ret 0, nothing found); a found entry's number goes through
        `osfs_iget`, whose error is returned. */
    method Lookup(dir: nat, name: seq<byte>, vfsOk: bool) returns (ret: int, found: Option<nat>, node: Inode)
      requires Valid() && dir < INODE_COUNT && DirOk(table[dir])
      ensures var e := LookupSpec(table[dir], data[..], name);
        && (e.None? ==> ret == 0 && found.None?)
        && (e.Some? && GetOsfsInode(INODE_COUNT, e.value).None? ==> ret == -EFAULT && found.None?)
        && (e.Some? && GetOsfsInode(INODE_COUNT, e.value).Some? && !vfsOk ==> ret == -ENOMEM && found.None?)
        && (e.Some? && GetOsfsInode(INODE_COUNT, e.value).Some? && vfsOk ==>
              ret == 0 && found == e && node == table[e.value])
    {
      var n := table[dir];
      var b := data[n.iBlock[0]];
      assert b == DirBlock(n, data[..]);
      var i := ScanEntries(b, EntryCount(n), name);
      node := Inode(0, 0, 0, 0, 0, 0, 0, []);
      if i.None? {
        return 0, None, node;
      }
      var r;
      r, node := Iget(EntryIno(b, i.value), vfsOk);
      if r != 0 {
        return r, None, node;
      }
      return 0, Some(EntryIno(b, i.value)), node;
    }

    /** `osfs_iterate` on directory dir at position pos, with a consumer
        that accepts `room` records: the listing IterateSpec describes. */
    method Iterate(dir: nat, pos: nat, room: nat) returns (l: Listing)
      requires Valid() && dir < INODE_COUNT && DirOk(table[dir])
      ensures l == IterateSpec(DirBlock(table[dir], data[..]), EntryCount(table[dir]), pos, room)
    {
      var n := table[dir];
      var b := DirBlock(n, data[..]);
      l := EmitRecords(Records(b, EntryCount(n)), pos, room);
    }

    /** `osfs_new_inode(dir, mode)`, with the owner the VFS assigns and
        whether the VFS has an inode to give. */
    method NewInode(mode: nat, uid: nat, gid: nat, vfsOk: bool) returns (ret: int, ino: nat)
      requires Valid()
      modifies sb, table
      ensures Valid()
      ensures Created(ret, ino, Side()) == NewInodeSpec(old(Side()), mode, uid, gid, vfsOk)
      ensures sb.blockBitmap == old(sb.blockBitmap) && sb.nrFreeBlocks == old(sb.nrFreeBlocks)
    {
      if !IsDir(mode) && !IsReg(mode) && !IsLnk(mode) {
        return -EINVAL, 0;
      }
      if sb.nrFreeInodes == 0 {
        return -ENOSPC, 0;
      }
      var r := sb.GetFreeInode();
      if r < 0 || r >= sb.inodeCount {
        return -ENOSPC, 0;
      }
      if !vfsOk {
        return -ENOMEM, 0;
      }
      ino := r;
      table[ino] := FreshInode(ino, mode, uid, gid);
      sb.nrFreeInodes := Dec32(sb.nrFreeInodes);
      ret := 0;
    }

    /** `osfs_add_dir_entry(dir, ino, name, |name|)`. */
    method AddDirEntry(dir: nat, ino: nat, name: seq<byte>) returns (ret: int)
      requires Valid() && dir < INODE_COUNT && DirOk(table[dir]) && ino < U32_RANGE && |name| <= MAX_FILENAME_LEN
      modifies sb, table, data
      ensures Valid()
      ensures Added(ret, table[dir], DiskOf()) == AddDirEntrySpec(old(table[dir]), old(DiskOf()), ino, name)
      ensures forall i :: 0 <= i < INODE_COUNT && i != dir ==> table[i] == old(table[i])
      ensures sb.inodeBitmap == old(sb.inodeBitmap) && sb.nrFreeInodes == old(sb.nrFreeInodes)
    {
      if table[dir].blocks == 0 {
        var r, v := sb.AllocDataBlock();
        if r != 0 {
          return r;
        }
        table[dir] := table[dir].(iBlock := table[dir].iBlock[0 := v], blocks := 1);
        ClearBlock(v);
      }
      ret := InsertDirEntry(dir, ino, name);
    }

    /** The insertion part of `osfs_add_dir_entry`, once the directory has
        its block. */
    method InsertDirEntry(dir: nat, ino: nat, name: seq<byte>) returns (ret: int)
      requires Valid() && dir < INODE_COUNT && DirOk(table[dir]) && ino < U32_RANGE && |name| <= MAX_FILENAME_LEN
      modifies table, data
      ensures Valid()
      ensures Added(ret, table[dir], DiskOf()) == InsertEntry(old(table[dir]), old(DiskOf()), ino, name)
      ensures forall i :: 0 <= i < INODE_COUNT && i != dir ==> table[i] == old(table[i])
    {
      var n := table[dir];
      var count := n.size / DIR_ENTRY_SIZE;
      if count >= MAX_DIR_ENTRIES {
        return -ENOSPC;
      }
      var b := DirBlock(n, data[..]);
      var found := ScanEntries(b, count, name);
      if found.Some? {
        return -EEXIST;
      }
      EntryCountBound(n.size);
      EntryCountGrows(n.size);
      ghost var dk := DiskOf();
      var nb := PutEntry(b, count, name, ino);
      assert InsertEntry(n, dk, ino, name) == Added(0, n.(size := n.size + DIR_ENTRY_SIZE), dk.(data := dk.data[n.iBlock[0] := nb]));
      StoreBlock(n.iBlock[0], nb);
      SetSize(dir, n.size + DIR_ENTRY_SIZE);
      return 0;
    }

    /** Overwrite block blk with the bytes nb. */
    method StoreBlock(blk: nat, nb: Block)
      requires Valid() && blk < DATA_BLOCK_COUNT && |nb| == BLOCK_SIZE
      modifies data
      ensures Valid() && data[..] == old(data[..])[blk := nb]
    {
      data[blk] := nb;
    }

    /** `osfs_create` of name in directory dir. */
    method Create(dir: nat, name: seq<byte>, mode: nat, uid: nat, gid: nat, vfsOk: bool) returns (ret: int, ino: nat)
      requires Valid() && dir < INODE_COUNT && DirOk(table[dir])
      modifies sb, table, data
      ensures Valid()
      ensures Creation(ret, ino, StateOf()) == CreateSpec(old(StateOf()), dir, name, mode, uid, gid, vfsOk)
    {
      if |name| > MAX_FILENAME_LEN {
        return -ENAMETOOLONG, 0;
      }
      ghost var s0 := StateOf();
      ret, ino := NewInode(mode, uid, gid, vfsOk);
      if ret != 0 {
        return;
      }
      ghost var s1 := Side();
      ret := AddDirEntry(dir, ino, name);
      assert table[..] == s1.table[dir := table[dir]];
    }
  }
}
