/** `i_blocks` of the multi-level version as the guard of `osfs_read`
    (lab4/lab4_bonus/file.c): once the count never wraps and a file with a
    count of 0 reaches no block, a write keeps both, and a read of what a
    write reports written returns all of it. Also the write that block 0
    defeats: `osfs_get_block` stores block number 0 as an index block, and
    every later walk reads a 0 pointer as absent. */
module WriteRead {
  import opened Layout
  import opened Alloc
  import opened Blocks
  import opened PointerMap
  import opened GetBlock
  import opened GetBlockSound
  import opened GetBlockCounts
  import opened FileIo
  import opened WriteSound

  /** `i_blocks` plus the free data blocks stays below 2^32, so no
      allocation wraps the count. */
  predicate NoWrap(n: Inode, dk: Disk)
    requires |dk.bitmap| >= DATA_BLOCK_COUNT
  {
    n.blocks + CountClear(dk.bitmap, 0, DATA_BLOCK_COUNT) < U32_RANGE
  }

  /** A file whose block count is 0 reaches no block. */
  ghost predicate Unlinked(n: Inode, d: seq<Block>)
    requires WfInode(n)
  {
    n.blocks == 0 ==> forall p :: ValidPos(p) ==> At(n, d, p) == 0
  }

  /** The block count is a faithful guard for `osfs_read`. */
  ghost predicate BlocksCounted(n: Inode, dk: Disk)
  {
    WfInode(n) && |dk.bitmap| >= DATA_BLOCK_COUNT && NoWrap(n, dk) && Unlinked(n, dk.data)
  }

  /** Every pointer of the inode is 0: no position reaches a block. */
  lemma NoPointers(n: Inode, d: seq<Block>)
    requires WfInode(n) && forall k :: 0 <= k < N_BLOCKS ==> n.iBlock[k] == 0
    ensures forall p :: ValidPos(p) ==> At(n, d, p) == 0
  {
    forall p | ValidPos(p)
      ensures At(n, d, p) == 0
    {
      assert n.iBlock[IND_SLOT] == 0 && n.iBlock[DIND_SLOT] == 0;
    }
  }

  /** An inode as `osfs_new_inode` leaves it (no pointer, no block) is
      counted on a disk, and its graph is sound. */
  lemma FreshCounted(n: Inode, dk: Disk)
    requires WfInode(n) && WfDisk(dk) && n.blocks == 0
    requires forall k :: 0 <= k < N_BLOCKS ==> n.iBlock[k] == 0
    ensures BlocksCounted(n, dk) && SoundDisk(n, dk)
  {
    NoPointers(n, dk.data);
    CountClearBound(dk.bitmap, 0, DATA_BLOCK_COUNT);
  }

  /** There are at most hi - lo clear bits in [lo, hi). */
  lemma {:induction false} CountClearBound(bm: seq<bool>, lo: nat, hi: nat)
    requires hi <= |bm|
    ensures CountClear(bm, lo, hi) <= if lo <= hi then hi - lo else 0
    decreases hi - lo
  {
    if lo < hi {
      CountClearBound(bm, lo + 1, hi);
    }
  }

  /** The arithmetic of one resolution: the k blocks it claims come off the
      free count and onto `i_blocks` without wrapping it. */
  lemma ClaimNoWrap(n: Inode, dk: Disk, n': Inode, dk': Disk, k: nat)
    requires WfInode(n) && WfDisk(dk) && |dk'.bitmap| >= DATA_BLOCK_COUNT
    requires NoWrap(n, dk) && Tally(n, dk, n', dk', k)
    ensures n'.blocks == n.blocks + k && NoWrap(n', dk')
  {
    Inc32NMod(n.blocks, k);
  }

  /** `osfs_get_block` with create on keeps the block count a faithful guard
      and never lowers it. */
  lemma ResolveKeepsCounted(n: Inode, dk: Disk, b: nat)
    requires SoundDisk(n, dk) && BlocksCounted(n, dk)
    ensures var r := Resolve(n, dk, b, true);
      BlocksCounted(r.node, r.disk) && n.blocks <= r.node.blocks
  {
    var r := Resolve(n, dk, b, true);
    ResolveCounts(n, dk, b, true);
    var k := Claimed(dk, r.disk);
    ClaimNoWrap(n, dk, r.node, r.disk, k);
    if k == 0 {
      assert r.node == n && r.disk == dk;
    }
  }

  /** One pass of the copy loop keeps the block count a faithful guard. */
  lemma PassKeepsCounted(n: Inode, dk: Disk, start: nat, src: seq<byte>, done: nat)
    requires SoundDisk(n, dk) && done < |src| && BlocksCounted(n, dk)
    ensures var s := WritePass(n, dk, start, src, done);
      && (s.Go? ==> BlocksCounted(s.node, s.disk))
      && (s.Stop? ==> BlocksCounted(s.w.node, s.w.disk))
  {
    var pos := start + done;
    var b := pos / BLOCK_SIZE;
    var r := Resolve(n, dk, b, true);
    ResolveKeepsCounted(n, dk, b);
    PassFails(n, dk, start, src, done, r);
    if r.ret == 0 && r.phys != 0 {
      var len := ChunkLen(pos, |src| - done);
      PassCopies(n, dk, start, src, done, b, len, r);
      SameGraphCounted(r.node, r.disk, CopyChunk(r, b, pos, src[done..done + len]));
    }
  }

  /** Changing bytes that no position reads as a pointer, with the bitmap
      kept, keeps the block count a faithful guard. */
  lemma SameGraphCounted(n: Inode, dk: Disk, dk': Disk)
    requires BlocksCounted(n, dk) && dk'.bitmap == dk.bitmap
    requires forall p :: ValidPos(p) ==> At(n, dk'.data, p) == At(n, dk.data, p)
    ensures BlocksCounted(n, dk')
  {
  }

  /** The copy loop keeps the block count a faithful guard. */
  lemma {:induction false} LoopKeepsCounted(n: Inode, dk: Disk, start: nat, src: seq<byte>, done: nat)
    requires SoundDisk(n, dk) && done <= |src| && BlocksCounted(n, dk)
    ensures var w := WriteLoop(n, dk, start, src, done); BlocksCounted(w.node, w.disk)
    decreases |src| - done
  {
    if done < |src| {
      WriteLoopUnfold(n, dk, start, src, done);
      PassKeepsCounted(n, dk, start, src, done);
      var s := WritePass(n, dk, start, src, done);
      if s.Go? {
        LoopKeepsCounted(s.node, s.disk, start, src, s.next);
      }
    }
  }

  /** `osfs_write` keeps the block count a faithful guard. */
  lemma WriteKeepsCounted(n: Inode, dk: Disk, pos: nat, src: seq<byte>)
    requires SoundDisk(n, dk) && BlocksCounted(n, dk)
    ensures var w := WriteSpec(n, dk, pos, src); BlocksCounted(w.node, w.disk)
  {
    LoopKeepsCounted(n, dk, pos, src, 0);
    var l := WriteLoop(n, dk, pos, src, 0);
    var w := WriteSpec(n, dk, pos, src);
    assert w.node.blocks == l.node.blocks && w.disk == l.disk;
    assert forall p :: ValidPos(p) ==> At(w.node, w.disk.data, p) == At(l.node, l.disk.data, p);
  }

  /** A byte whose block is addressable lies below 2^32. */
  lemma AddressableByte(x: nat)
    requires x / BLOCK_SIZE < MAX_LOGICAL
    ensures x < MAX_LOGICAL * BLOCK_SIZE < U32_RANGE
  {
    AddressableRange();
  }

  /** `osfs_write` followed by `osfs_read` of the bytes it reports written,
      while block 0 is in use and the block count is a faithful guard: the
      guard stays faithful, and the read returns every one of those bytes,
      equal to the source. */
  lemma WriteThenRead(n: Inode, dk: Disk, pos: nat, src: seq<byte>)
    requires SoundDisk(n, dk) && dk.bitmap[0] && BlocksCounted(n, dk)
    ensures var w := WriteSpec(n, dk, pos, src);
      && BlocksCounted(w.node, w.disk)
      && (w.ret >= 0 ==>
            && w.ret <= |src|
            && ReadLen(w.node, pos, w.ret) == w.ret
            && FileBytes(w.node, w.disk.data, pos, w.ret) == src[..w.ret])
  {
    WriteKeepsCounted(n, dk, pos, src);
    WriteContents(n, dk, pos, src);
    ReadAfterWrite(n, dk, pos, src);
    var w := WriteSpec(n, dk, pos, src);
    if w.ret > 0 {
      var last := pos + w.ret - 1;
      assert Present(w.node, w.disk.data, pos);
      assert Present(w.node, w.disk.data, last);
      assert ValidPos(LeafPos(pos / BLOCK_SIZE));
      assert w.node.blocks != 0;
      AddressableByte(last);
      assert pos + w.ret == w.pos;
    }
  }

  /** The write that block 0 defeats. An empty file on a disk whose blocks
      0 and 1 are free: a one-byte write at offset 12288 (logical block 12,
      the first behind slot 12) claims block 0 as the index block and
      stores 0 into slot 12, then claims block 1 for the data. The write
      reports one byte written and grows the file to 12289 bytes, yet slot
      12 still reads as absent, so the byte reads back as 0, not 7. */
  lemma BlockZeroLost(n: Inode, dk: Disk)
    requires WfInode(n) && n.size == 0 && n.blocks == 0
    requires forall k :: 0 <= k < N_BLOCKS ==> n.iBlock[k] == 0
    requires WfDisk(dk) && !dk.bitmap[0] && !dk.bitmap[1]
    ensures SoundDisk(n, dk)
    ensures var w := WriteSpec(n, dk, 12288, [7]);
      && w.ret == 1 && w.node.size == 12289
      && w.node.iBlock[IND_SLOT] == 0 && w.node.blocks == 2
      && FileBytes(w.node, w.disk.data, 12288, 1) == [0]
  {
    NoPointers(n, dk.data);
    var b := 12288 / BLOCK_SIZE;
    assert b == 12 && 12288 % BLOCK_SIZE == 0;
    ResolveIndirect(n, dk, b, true);
    var t := Take(dk);
    assert t.Allocated? && t.no == 0;
    var s := EnsureSlot(n, dk, IND_SLOT, true);
    assert s == Resolution(0, 0, Counted(n.(iBlock := n.iBlock[IND_SLOT := 0])), Disk(t.bitmap, t.nrFree, ZeroBlock(dk.data, 0)));
    assert s.node.iBlock == n.iBlock && s.node.blocks == 1;
    assert Word(s.disk.data, 0, 0) == 0;
    var t2 := Take(s.disk);
    assert s.disk.bitmap[0] && !s.disk.bitmap[1];
    assert t2.Allocated? && t2.no == 1;
    var u := LeafStep(s.node, s.disk, 0, 0, true);
    assert u.ret == 0 && u.phys == 1 && u.node == Counted(s.node);
    var r := Resolve(n, dk, b, true);
    assert r == u;
    assert ChunkLen(12288, 1) == 1;
    PassCopies(n, dk, 12288, [7], 0, b, 1, r);
    var p := WritePass(n, dk, 12288, [7], 0);
    assert p.Go? && p.node == u.node && p.next == 1;
    WriteLoopUnfold(n, dk, 12288, [7], 0);
    var l := WriteLoop(n, dk, 12288, [7], 0);
    assert l == Written(1, 12289, u.node, p.disk);
    var w := WriteSpec(n, dk, 12288, [7]);
    assert w.node == u.node.(size := 12289);
    assert FileBytes(w.node, w.disk.data, 12288, 1)[0] == FileByte(w.node, w.disk.data, 12288) == 0;
  }
}
