/** `osfs_read` and `osfs_write` of the multi-level version
    (lab4/lab4_bonus/file.c) as functions of the inode and the disk: how many
    bytes a read returns, and what the block-by-block copy loop of a write
    leaves behind. */
module FileIo {
  import opened Layout
  import opened Blocks
  import opened PointerMap
  import opened GraphFrames
  import opened GetBlock
  import opened GetBlockSound

  /** The number of bytes `osfs_read` copies: none for a file without blocks
      or a position at or past the end, otherwise `len` cut at the end of
      the file. */
  function ReadLen(n: Inode, pos: nat, len: nat): (r: nat)
    ensures r <= len
    ensures r == 0 <==> n.blocks == 0 || pos >= n.size || len == 0
    ensures r != 0 ==> pos + r <= n.size && (pos + r == n.size || r == len)
  {
    if n.blocks == 0 || pos >= n.size then 0
    else if pos + len > n.size then n.size - pos
    else len
  }

  /** Byte offsets within one block: a byte of the file lies in the chunk
      [pos, pos + len) exactly when it lies in the chunk's block at an offset
      in [pos % BLOCK_SIZE, pos % BLOCK_SIZE + len). */
  lemma ChunkPositions(pos: nat, len: nat, x: nat)
    requires pos % BLOCK_SIZE + len <= BLOCK_SIZE
    ensures (pos <= x < pos + len) <==>
      (x / BLOCK_SIZE == pos / BLOCK_SIZE && pos % BLOCK_SIZE <= x % BLOCK_SIZE < pos % BLOCK_SIZE + len)
    ensures pos <= x < pos + len ==> x % BLOCK_SIZE == pos % BLOCK_SIZE + (x - pos)
  {
    var q, r := pos / BLOCK_SIZE, pos % BLOCK_SIZE;
    var qx, rx := x / BLOCK_SIZE, x % BLOCK_SIZE;
    assert pos == q * BLOCK_SIZE + r;
    assert x == qx * BLOCK_SIZE + rx;
    if qx < q {
      assert qx * BLOCK_SIZE + BLOCK_SIZE <= q * BLOCK_SIZE;
    } else if qx > q {
      assert q * BLOCK_SIZE + BLOCK_SIZE <= qx * BLOCK_SIZE;
    }
  }

  /** The k bytes of the file from position pos, holes reading as zeros. */
  function FileBytes(n: Inode, d: seq<Block>, pos: nat, k: nat): (r: seq<byte>)
    requires WfInode(n)
    ensures |r| == k
  {
    seq(k, i requires 0 <= i < k => FileByte(n, d, pos + i))
  }

  lemma FileBytesJoin(n: Inode, d: seq<Block>, pos: nat, a: nat, c: nat)
    requires WfInode(n)
    ensures FileBytes(n, d, pos, a) + FileBytes(n, d, pos + a, c) == FileBytes(n, d, pos, a + c)
  {
    var l, r := FileBytes(n, d, pos, a) + FileBytes(n, d, pos + a, c), FileBytes(n, d, pos, a + c);
    forall i | 0 <= i < a + c
      ensures l[i] == r[i]
    {
      if i >= a {
        assert l[i] == FileBytes(n, d, pos + a, c)[i - a];
      }
    }
  }

  /** One pass of the read loop: within one block, the file's bytes are the
      block's bytes at the same offsets when the leaf is present, and zeros
      otherwise (a hole, or a block past the addressable range). */
  lemma ChunkBytes(n: Inode, d: seq<Block>, pos: nat, len: nat)
    requires InRange(n, d) && pos % BLOCK_SIZE + len <= BLOCK_SIZE
    ensures var b, off := pos / BLOCK_SIZE, pos % BLOCK_SIZE;
      && (b >= MAX_LOGICAL || At(n, d, LeafPos(b)) == 0 ==> FileBytes(n, d, pos, len) == seq(len, _ => 0))
      && (b < MAX_LOGICAL && At(n, d, LeafPos(b)) != 0 ==>
            FileBytes(n, d, pos, len) == d[At(n, d, LeafPos(b))][off..off + len])
  {
    var b, off := pos / BLOCK_SIZE, pos % BLOCK_SIZE;
    var l := FileBytes(n, d, pos, len);
    if b < MAX_LOGICAL && At(n, d, LeafPos(b)) != 0 {
      var v := At(n, d, LeafPos(b));
      assert v < DATA_BLOCK_COUNT && |d[v]| == BLOCK_SIZE;
      var r := d[v][off..off + len];
      forall i | 0 <= i < len
        ensures l[i] == r[i]
      {
        assert l[i] == FileByte(n, d, pos + i);
        ChunkPositions(pos, len, pos + i);
      }
    } else {
      forall i | 0 <= i < len
        ensures l[i] == 0
      {
        assert l[i] == FileByte(n, d, pos + i);
        ChunkPositions(pos, len, pos + i);
      }
    }
  }

  /** What a write reports and leaves behind: the return value (bytes
      written, or a negative error number when nothing was written), the
      new file position, the inode and the disk. */
  datatype Written = Written(ret: int, pos: nat, node: Inode, disk: Disk)

  /** Bytes one pass copies at position pos with `left` bytes to go: up to
      the end of the block of pos. */
  function ChunkLen(pos: nat, left: nat): (w: nat)
    ensures w <= left && pos % BLOCK_SIZE + w <= BLOCK_SIZE && (left > 0 ==> w > 0)
  {
    Min(left, BLOCK_SIZE - pos % BLOCK_SIZE)
  }

  /** A successful resolution of logical block b with a block no other
      position reaches. */
  ghost predicate Served(r: Resolution, b: nat)
  {
    && r.ret == 0 && r.phys != 0 && b < MAX_LOGICAL && SoundDisk(r.node, r.disk)
    && 0 < r.phys < DATA_BLOCK_COUNT
    && forall p :: ValidPos(p) && p != LeafPos(b) ==> At(r.node, r.disk.data, p) != r.phys
  }

  lemma ResolveServes(n: Inode, dk: Disk, b: nat)
    requires SoundDisk(n, dk)
    ensures var r := Resolve(n, dk, b, true);
      && SoundDisk(r.node, r.disk)
      && (r.ret == 0 && r.phys != 0 ==> Served(r, b))
  {
    ResolveSound(n, dk, b, true);
  }

  /** `copy_from_user` of a chunk into the resolved block at the offset of
      pos. */
  function CopyChunk(r: Resolution, b: nat, pos: nat, chunk: seq<byte>): (dk: Disk)
    requires Served(r, b) && pos % BLOCK_SIZE + |chunk| <= BLOCK_SIZE
    ensures SoundDisk(r.node, dk) && dk.bitmap == r.disk.bitmap && dk.nrFree == r.disk.nrFree
    ensures forall p :: ValidPos(p) ==> At(r.node, dk.data, p) == At(r.node, r.disk.data, p)
  {
    CopyKeeps(r.node, r.disk, b, pos % BLOCK_SIZE, chunk, r.phys);
    r.disk.(data := CopyInto(r.disk.data, r.phys, pos % BLOCK_SIZE, chunk))
  }

  /** The outcome of one pass of the copy loop of `osfs_write`: the loop
      stops with what it reports, or goes on with the new inode and disk once
      `next` bytes are written. */
  datatype Pass = Stop(w: Written) | Go(node: Inode, disk: Disk, next: nat)

  /** One pass of the copy loop once `done` bytes of `src` are written from
      file position `start`: resolve the block of position start + done with
      create on and copy up to the end of that block; a failed resolution,
      or one that yields no block, stops the loop, reporting the count when
      bytes were written and the error otherwise. */
  function WritePass(n: Inode, dk: Disk, start: nat, src: seq<byte>, done: nat): (s: Pass)
    requires SoundDisk(n, dk) && done < |src|
    ensures s.Go? ==> SoundDisk(s.node, s.disk) && |s.disk.bitmap| == |dk.bitmap| && done < s.next <= |src|
    ensures s.Go? ==> OnlyPointers(n, s.node)
    ensures s.Stop? ==> SoundDisk(s.w.node, s.w.disk) && |s.w.disk.bitmap| == |dk.bitmap| && OnlyPointers(n, s.w.node)
    ensures s.Stop? ==> s.w.pos == start + done && (s.w.ret >= 0 <==> done > 0) && (done > 0 ==> s.w.ret == done)
  {
    var pos := start + done;
    var b := pos / BLOCK_SIZE;
    var len := ChunkLen(pos, |src| - done);
    var r := Resolve(n, dk, b, true);
    ResolveServes(n, dk, b);
    ResolveOnlyPointers(n, dk, b, true);
    if r.ret != 0 then Stop(Written(if done > 0 then done else r.ret, pos, r.node, r.disk))
    else if r.phys == 0 then Stop(Written(if done > 0 then done else -EIO, pos, r.node, r.disk))
    else Go(r.node, CopyChunk(r, b, pos, src[done..done + len]), done + len)
  }

  /** The copy loop of `osfs_write` from `done` bytes on, pass by pass. */
  function WriteLoop(n: Inode, dk: Disk, start: nat, src: seq<byte>, done: nat): (w: Written)
    requires SoundDisk(n, dk) && done <= |src|
    ensures SoundDisk(w.node, w.disk) && |w.disk.bitmap| == |dk.bitmap| && OnlyPointers(n, w.node)
    decreases |src| - done
  {
    if done == |src| then Written(done, start + done, n, dk)
    else
      var s := WritePass(n, dk, start, src, done);
      if s.Stop? then s.w else WriteLoop(s.node, s.disk, start, src, s.next)
  }

  /** The copy loop runs one pass and then goes on from where it stopped. */
  lemma WriteLoopUnfold(n: Inode, dk: Disk, start: nat, src: seq<byte>, done: nat)
    requires SoundDisk(n, dk) && done < |src|
    ensures var s := WritePass(n, dk, start, src, done);
      WriteLoop(n, dk, start, src, done) == if s.Stop? then s.w else WriteLoop(s.node, s.disk, start, src, s.next)
  {
  }

  /** `osfs_write`: the copy loop, then, unless it failed before writing
      anything, the size grows to the final position when that lies past the
      end (stored into the uint32_t `i_size`). */
  function WriteSpec(n: Inode, dk: Disk, pos: nat, src: seq<byte>): (w: Written)
    requires SoundDisk(n, dk)
    ensures SoundDisk(w.node, w.disk)
  {
    var w := WriteLoop(n, dk, pos, src, 0);
    if w.ret < 0 || w.pos <= w.node.size then w
    else
      var n' := w.node.(size := Trunc32(w.pos));
      assert forall p :: ValidPos(p) ==> At(n', w.disk.data, p) == At(w.node, w.disk.data, p);
      w.(node := n')
  }

  /** Copying into a block that no position other than the leaf of logical
      block b reaches keeps the graph sound and every position's block. */
  lemma CopyKeeps(n: Inode, dk: Disk, b: nat, off: nat, chunk: seq<byte>, phys: nat)
    requires SoundDisk(n, dk) && b < MAX_LOGICAL && off + |chunk| <= BLOCK_SIZE
    requires 0 < phys < DATA_BLOCK_COUNT
    requires forall p :: ValidPos(p) && p != LeafPos(b) ==> At(n, dk.data, p) != phys
    ensures var e := CopyInto(dk.data, phys, off, chunk);
      && SoundDisk(n, dk.(data := e))
      && forall p :: ValidPos(p) ==> At(n, e, p) == At(n, dk.data, p)
  {
    var e := CopyInto(dk.data, phys, off, chunk);
    assert IndexBlocksKept(n, dk.data, e) by {
      forall p | ValidPos(p) && IsIndexPos(p) && At(n, dk.data, p) != 0 && At(n, dk.data, p) < |dk.data|
        ensures At(n, dk.data, p) < |e| && e[At(n, dk.data, p)] == dk.data[At(n, dk.data, p)]
      {
        assert p != LeafPos(b);
      }
    }
    AllAtKept(n, dk.data, e);
  }
}
