/** `osfs_get_block` of the multi-level version as a function of the inode
    and the allocation state: the walk from a logical block number to its
    physical block, allocating and linking missing blocks when asked to
    (lab4/lab4_bonus/inode.c). */
module GetBlock {
  import opened Layout
  import opened Alloc
  import opened Blocks
  import opened PointerMap

  /** The part of the superblock and data zone the walk reads and changes. */
  datatype Disk = Disk(bitmap: seq<bool>, nrFree: nat, data: seq<Block>)

  predicate WfDisk(dk: Disk)
  {
    |dk.bitmap| >= DATA_BLOCK_COUNT && dk.nrFree < U32_RANGE && WfBlocks(dk.data)
  }

  /** Return code, the block stored through `phys_block`, and the new state. */
  datatype Resolution = Resolution(ret: int, phys: nat, node: Inode, disk: Disk)

  /** A well-formed outcome: 0 or a negative error number, a well-formed
      inode and disk, the bitmap as long as before. */
  predicate WfAfter(r: Resolution, dk: Disk)
  {
    r.ret <= 0 && WfInode(r.node) && WfDisk(r.disk) && |r.disk.bitmap| == |dk.bitmap|
  }

  /** n' differs from n at most in its pointers and its block count. */
  predicate OnlyPointers(n: Inode, n': Inode)
  {
    n' == n.(iBlock := n'.iBlock, blocks := n'.blocks)
  }

  /** `osfs_alloc_data_block` on the disk state. */
  function Take(dk: Disk): AllocResult
    requires WfDisk(dk)
  {
    AllocSpec(dk.bitmap, 0, DATA_BLOCK_COUNT, dk.nrFree)
  }

  /** `osfs_inode->i_blocks++` after an allocation. */
  function Counted(n: Inode): Inode
    requires WfInode(n)
  {
    n.(blocks := Inc32(n.blocks))
  }

  /** Direct range: slot k, allocated on demand. */
  function DirectStep(n: Inode, dk: Disk, k: nat, create: bool): (r: Resolution)
    requires WfInode(n) && WfDisk(dk) && k < N_DIRECT
    ensures WfAfter(r, dk)
  {
    if n.iBlock[k] == 0 && create then
      match Take(dk)
      case NoSpace => Resolution(-ENOSPC, 0, n, dk)
      case Allocated(v, bm, nf) =>
        var n' := Counted(n.(iBlock := n.iBlock[k := v]));
        Resolution(0, n'.iBlock[k], n', Disk(bm, nf, dk.data))
    else Resolution(0, n.iBlock[k], n, dk)
  }

  /** Make slot k (12 or 13) name an index block: -ENOENT when it is 0 and
      create is off, otherwise allocate one, zero it and count it. */
  function EnsureSlot(n: Inode, dk: Disk, k: nat, create: bool): (r: Resolution)
    requires WfInode(n) && WfDisk(dk) && (k == IND_SLOT || k == DIND_SLOT)
    requires n.iBlock[k] < DATA_BLOCK_COUNT
    ensures WfAfter(r, dk)
    ensures r.ret == 0 ==> r.node.iBlock[k] < DATA_BLOCK_COUNT
    ensures r.ret == 0 && n.iBlock[k] == 0 ==> forall i: nat :: Word(r.disk.data, r.node.iBlock[k], i) == 0
    ensures n.iBlock[k] != 0 ==> r == Resolution(0, 0, n, dk)
  {
    if n.iBlock[k] != 0 then Resolution(0, 0, n, dk)
    else if !create then Resolution(-ENOENT, 0, n, dk)
    else
      match Take(dk)
      case NoSpace => Resolution(-ENOSPC, 0, n, dk)
      case Allocated(v, bm, nf) =>
        Resolution(0, 0, Counted(n.(iBlock := n.iBlock[k := v])), Disk(bm, nf, ZeroBlock(dk.data, v)))
  }

  /** Make pointer i of the double-indirect block `top` name an intermediate
      block, the same way. */
  function EnsureMid(n: Inode, dk: Disk, top: nat, i: nat, create: bool): (r: Resolution)
    requires WfInode(n) && WfDisk(dk) && top < DATA_BLOCK_COUNT && i < ADDR_PER_BLOCK
    requires Word(dk.data, top, i) < DATA_BLOCK_COUNT
    ensures WfAfter(r, dk)
    ensures r.ret == 0 ==> Word(r.disk.data, top, i) < DATA_BLOCK_COUNT
    ensures Word(dk.data, top, i) != 0 ==> r == Resolution(0, 0, n, dk)
  {
    if Word(dk.data, top, i) != 0 then Resolution(0, 0, n, dk)
    else if !create then Resolution(-ENOENT, 0, n, dk)
    else
      match Take(dk)
      case NoSpace => Resolution(-ENOSPC, 0, n, dk)
      case Allocated(v, bm, nf) =>
        var e := ZeroBlock(SetWord(dk.data, top, i, v), v);
        assert Word(e, top, i) == if v == top then 0 else v;
        Resolution(0, 0, Counted(n), Disk(bm, nf, e))
  }

  /** Pointer j of index block `parent`: the data block, allocated on demand
      and stored into the index block. */
  function LeafStep(n: Inode, dk: Disk, parent: nat, j: nat, create: bool): (r: Resolution)
    requires WfInode(n) && WfDisk(dk) && parent < DATA_BLOCK_COUNT && j < ADDR_PER_BLOCK
    ensures WfAfter(r, dk)
  {
    var w := Word(dk.data, parent, j);
    if w == 0 && create then
      match Take(dk)
      case NoSpace => Resolution(-ENOSPC, 0, n, dk)
      case Allocated(v, bm, nf) =>
        var e := SetWord(dk.data, parent, j, v);
        Resolution(0, Word(e, parent, j), Counted(n), Disk(bm, nf, e))
    else Resolution(0, w, n, dk)
  }

  /** Single-indirect range: entry j of the block in slot 12. */
  function IndirectWalk(n: Inode, dk: Disk, j: nat, create: bool): (r: Resolution)
    requires InRange(n, dk.data) && WfDisk(dk) && j < ADDR_PER_BLOCK
    ensures WfAfter(r, dk)
  {
    assert At(n, dk.data, Ind) < DATA_BLOCK_COUNT;
    var s := EnsureSlot(n, dk, IND_SLOT, create);
    if s.ret != 0 then s
    else LeafStep(s.node, s.disk, s.node.iBlock[IND_SLOT], j, create)
  }

  /** Double-indirect range: entry j of the block named by entry i of the
      block in slot 13. */
  function DoubleWalk(n: Inode, dk: Disk, i: nat, j: nat, create: bool): (r: Resolution)
    requires InRange(n, dk.data) && WfDisk(dk) && i < ADDR_PER_BLOCK && j < ADDR_PER_BLOCK
    ensures WfAfter(r, dk)
  {
    assert At(n, dk.data, Top) < DATA_BLOCK_COUNT;
    assert At(n, dk.data, Mid(i)) < DATA_BLOCK_COUNT;
    var s := EnsureSlot(n, dk, DIND_SLOT, create);
    if s.ret != 0 then s
    else
      var top := s.node.iBlock[DIND_SLOT];
      var t := EnsureMid(s.node, s.disk, top, i, create);
      if t.ret != 0 then t
      else LeafStep(t.node, t.disk, Word(t.disk.data, top, i), j, create)
  }

  /** `osfs_get_block(inode, b, &phys, create)`. */
  function Resolve(n: Inode, dk: Disk, b: nat, create: bool): (r: Resolution)
    requires InRange(n, dk.data) && WfDisk(dk)
    ensures WfAfter(r, dk)
  {
    if b < N_DIRECT then DirectStep(n, dk, b, create)
    else if b - N_DIRECT < ADDR_PER_BLOCK then IndirectWalk(n, dk, b - N_DIRECT, create)
    else if b - N_DIRECT - ADDR_PER_BLOCK < ADDR_PER_BLOCK * ADDR_PER_BLOCK then
      var r := b - N_DIRECT - ADDR_PER_BLOCK;
      DoubleWalk(n, dk, r / ADDR_PER_BLOCK, r % ADDR_PER_BLOCK, create)
    else Resolution(-EFBIG, 0, n, dk)
  }

  /** Resolve in the single-indirect range: the walk through the index
      block in slot 12 to pointer b - N_DIRECT. */
  lemma ResolveIndirect(n: Inode, dk: Disk, b: nat, create: bool)
    requires InRange(n, dk.data) && WfDisk(dk) && N_DIRECT <= b < N_DIRECT + ADDR_PER_BLOCK
    ensures Resolve(n, dk, b, create) == IndirectWalk(n, dk, b - N_DIRECT, create)
  {
  }

  /** Resolve past the single-indirect range: the double-indirect walk to
      the pointer pair of b, or -EFBIG past the addressable range. */
  lemma ResolveBeyond(n: Inode, dk: Disk, b: nat, create: bool)
    requires InRange(n, dk.data) && WfDisk(dk) && N_DIRECT + ADDR_PER_BLOCK <= b
    ensures var x := b - N_DIRECT - ADDR_PER_BLOCK;
      && (x < ADDR_PER_BLOCK * ADDR_PER_BLOCK ==>
            x / ADDR_PER_BLOCK < ADDR_PER_BLOCK && x % ADDR_PER_BLOCK < ADDR_PER_BLOCK
            && Resolve(n, dk, b, create) == DoubleWalk(n, dk, x / ADDR_PER_BLOCK, x % ADDR_PER_BLOCK, create))
      && (x >= ADDR_PER_BLOCK * ADDR_PER_BLOCK ==> Resolve(n, dk, b, create) == Resolution(-EFBIG, 0, n, dk))
  {
    AddressableRange();
  }
}
