/** What the write loop of the multi-level version promises: as long as
    block 0 is in use, the bytes a write reports read back as written, and
    every byte that was present outside the written range keeps its value. */
module WriteSound {
  import opened Layout
  import opened Blocks
  import opened PointerMap
  import opened GraphFrames
  import opened GetBlock
  import opened GetBlockSound
  import opened FileIo

  /** After a step that keeps every reached block in place and every reached
      data block intact, every byte whose block was present reads the same. */
  lemma PresentKept(n: Inode, d: seq<Block>, n': Inode, e: seq<Block>, x: nat)
    requires InRange(n, d) && WfInode(n') && WfBlocks(e)
    requires Grows(n, d, n', e) && LeavesKept(n, d, e) && Present(n, d, x)
    ensures Present(n', e, x) && FileByte(n', e, x) == FileByte(n, d, x)
  {
    var leaf := LeafPos(x / BLOCK_SIZE);
    assert At(n', e, leaf) == At(n, d, leaf);
  }

  /** The file seen after copying `chunk` at byte position pos of its own
      block: the chunk's bytes are present and read as the chunk, every other
      byte reads as before. */
  lemma CopyBytes(n: Inode, d: seq<Block>, pos: nat, chunk: seq<byte>, phys: nat, x: nat)
    requires InRange(n, d) && pos / BLOCK_SIZE < MAX_LOGICAL
    requires pos % BLOCK_SIZE + |chunk| <= BLOCK_SIZE
    requires 0 < phys < DATA_BLOCK_COUNT && At(n, d, LeafPos(pos / BLOCK_SIZE)) == phys
    requires forall p :: ValidPos(p) && p != LeafPos(pos / BLOCK_SIZE) ==> At(n, d, p) != phys
    requires forall p :: ValidPos(p) ==> At(n, CopyInto(d, phys, pos % BLOCK_SIZE, chunk), p) == At(n, d, p)
    ensures var e := CopyInto(d, phys, pos % BLOCK_SIZE, chunk);
      if pos <= x < pos + |chunk| then Present(n, e, x) && FileByte(n, e, x) == chunk[x - pos]
      else FileByte(n, e, x) == FileByte(n, d, x) && (Present(n, d, x) ==> Present(n, e, x))
  {
    var e := CopyInto(d, phys, pos % BLOCK_SIZE, chunk);
    ChunkPositions(pos, |chunk|, x);
    if pos <= x < pos + |chunk| {
      CopyBytesInside(n, d, e, pos, chunk, phys, x);
    } else {
      CopyBytesOutside(n, d, e, pos, chunk, phys, x);
    }
  }

  /** A byte of the chunk reads back from the block the chunk went into. */
  lemma CopyBytesInside(n: Inode, d: seq<Block>, e: seq<Block>, pos: nat, chunk: seq<byte>, phys: nat, x: nat)
    requires InRange(n, d) && pos / BLOCK_SIZE < MAX_LOGICAL
    requires pos % BLOCK_SIZE + |chunk| <= BLOCK_SIZE
    requires 0 < phys < DATA_BLOCK_COUNT && At(n, d, LeafPos(pos / BLOCK_SIZE)) == phys
    requires e == CopyInto(d, phys, pos % BLOCK_SIZE, chunk)
    requires At(n, e, LeafPos(pos / BLOCK_SIZE)) == phys
    requires pos <= x < pos + |chunk| && x / BLOCK_SIZE == pos / BLOCK_SIZE
    requires x % BLOCK_SIZE == pos % BLOCK_SIZE + (x - pos)
    ensures Present(n, e, x) && FileByte(n, e, x) == chunk[x - pos]
  {
    assert e[phys][x % BLOCK_SIZE] == chunk[x - pos];
    ByteThrough(n, e, x, phys);
  }

  /** Byte x is served by block v when v is the leaf of its logical block. */
  lemma ByteThrough(n: Inode, e: seq<Block>, x: nat, v: nat)
    requires WfInode(n) && WfBlocks(e) && x / BLOCK_SIZE < MAX_LOGICAL
    requires 0 < v < |e| && At(n, e, LeafPos(x / BLOCK_SIZE)) == v
    ensures Present(n, e, x) && FileByte(n, e, x) == e[v][x % BLOCK_SIZE]
  {
  }

  /** A byte outside the chunk reads the same as before: its block is
      another one, or it lies outside the bytes copied. */
  lemma CopyBytesOutside(n: Inode, d: seq<Block>, e: seq<Block>, pos: nat, chunk: seq<byte>, phys: nat, x: nat)
    requires InRange(n, d) && pos / BLOCK_SIZE < MAX_LOGICAL
    requires pos % BLOCK_SIZE + |chunk| <= BLOCK_SIZE
    requires 0 < phys < DATA_BLOCK_COUNT && At(n, d, LeafPos(pos / BLOCK_SIZE)) == phys
    requires forall p :: ValidPos(p) && p != LeafPos(pos / BLOCK_SIZE) ==> At(n, d, p) != phys
    requires e == CopyInto(d, phys, pos % BLOCK_SIZE, chunk)
    requires forall p :: ValidPos(p) ==> At(n, e, p) == At(n, d, p)
    requires !(x / BLOCK_SIZE == pos / BLOCK_SIZE && pos % BLOCK_SIZE <= x % BLOCK_SIZE < pos % BLOCK_SIZE + |chunk|)
    ensures FileByte(n, e, x) == FileByte(n, d, x) && (Present(n, d, x) ==> Present(n, e, x))
  {
    var b := pos / BLOCK_SIZE;
    var bx := x / BLOCK_SIZE;
    if bx < MAX_LOGICAL {
      var leaf := LeafPos(bx);
      assert At(n, e, leaf) == At(n, d, leaf);
      if bx != b {
        LeafPosBijection(bx, leaf);
        LeafPosBijection(b, LeafPos(b));
        assert leaf != LeafPos(b);
        assert At(n, d, leaf) != phys;
      }
    }
  }

  /** Bytes lo..hi-1 of src (those that exist) read back at file positions
      start + k. */
  ghost predicate Shows(n: Inode, d: seq<Block>, start: nat, src: seq<byte>, lo: nat, hi: int)
    requires WfInode(n)
  {
    forall x: nat :: start + lo <= x < start + hi && x - start < |src| ==>
      Present(n, d, x) && FileByte(n, d, x) == src[x - start]
  }

  /** Every byte present before and outside [lo, hi) is present after and
      reads the same. */
  ghost predicate Kept(n: Inode, d: seq<Block>, n': Inode, e: seq<Block>, lo: nat, hi: nat)
    requires WfInode(n) && WfInode(n')
  {
    forall x: nat :: Present(n, d, x) && !(lo <= x < hi) ==>
      Present(n', e, x) && FileByte(n', e, x) == FileByte(n, d, x)
  }

  lemma KeptChain(n1: Inode, d1: seq<Block>, n2: Inode, d2: seq<Block>, n3: Inode, d3: seq<Block>,
                  lo: nat, mid: nat, hi: nat)
    requires WfInode(n1) && WfInode(n2) && WfInode(n3) && lo <= mid <= hi
    requires Kept(n1, d1, n2, d2, lo, mid) && Kept(n2, d2, n3, d3, mid, hi)
    ensures Kept(n1, d1, n3, d3, lo, hi)
  {
  }

  lemma ShowsKept(n: Inode, d: seq<Block>, n': Inode, e: seq<Block>, start: nat, src: seq<byte>,
                  lo: nat, hi: nat, klo: nat, khi: nat)
    requires WfInode(n) && WfInode(n') && Shows(n, d, start, src, lo, hi)
    requires Kept(n, d, n', e, klo, khi) && start + hi <= klo
    ensures Shows(n', e, start, src, lo, hi)
  {
    forall x: nat | start + lo <= x < start + hi && x - start < |src|
      ensures Present(n', e, x) && FileByte(n', e, x) == src[x - start]
    {
      assert Present(n, d, x) && FileByte(n, d, x) == src[x - start];
      assert !(klo <= x < khi);
    }
  }

  /** A resolution keeps every present byte, and block 0 once in use. */
  lemma ResolveKept(n: Inode, dk: Disk, b: nat, at: nat)
    requires SoundDisk(n, dk)
    ensures var r := Resolve(n, dk, b, true);
      && WfInode(r.node) && (dk.bitmap[0] ==> r.disk.bitmap[0])
      && Kept(n, dk.data, r.node, r.disk.data, at, at)
  {
    var r := Resolve(n, dk, b, true);
    ResolveSound(n, dk, b, true);
    forall x: nat | Present(n, dk.data, x)
      ensures Present(r.node, r.disk.data, x) && FileByte(r.node, r.disk.data, x) == FileByte(n, dk.data, x)
    {
      PresentKept(n, dk.data, r.node, r.disk.data, x);
    }
  }

  /** With block 0 in use, a successful resolution serves the leaf of b. */
  lemma ResolveAtLeaf(n: Inode, dk: Disk, b: nat)
    requires SoundDisk(n, dk) && dk.bitmap[0]
    ensures var r := Resolve(n, dk, b, true);
      r.ret == 0 ==> b < MAX_LOGICAL && At(r.node, r.disk.data, LeafPos(b)) == r.phys
  {
    ResolveSound(n, dk, b, true);
  }

  /** A pass that stops keeps every present byte and block 0 in use. */
  lemma PassStops(n: Inode, dk: Disk, start: nat, src: seq<byte>, done: nat)
    requires SoundDisk(n, dk) && dk.bitmap[0] && done < |src|
    requires WritePass(n, dk, start, src, done).Stop?
    ensures var s := WritePass(n, dk, start, src, done);
      && s.w.disk.bitmap[0]
      && Kept(n, dk.data, s.w.node, s.w.disk.data, start + done, start + done)
  {
    ResolveKept(n, dk, (start + done) / BLOCK_SIZE, start + done);
  }

  /** A pass that goes on shows the chunk it copied and keeps every other
      present byte and block 0 in use. */
  lemma PassGoes(n: Inode, dk: Disk, start: nat, src: seq<byte>, done: nat)
    requires SoundDisk(n, dk) && dk.bitmap[0] && done < |src|
    requires WritePass(n, dk, start, src, done).Go?
    ensures var s := WritePass(n, dk, start, src, done);
      && s.disk.bitmap[0]
      && Shows(s.node, s.disk.data, start, src, done, s.next)
      && Kept(n, dk.data, s.node, s.disk.data, start + done, start + s.next)
  {
    var pos := start + done;
    var b := pos / BLOCK_SIZE;
    var r := Resolve(n, dk, b, true);
    PassFails(n, dk, start, src, done, r);
    PassGoesAt(n, dk, start, src, done, b, ChunkLen(pos, |src| - done), r);
  }

  /** PassGoes once the resolution is known to yield a block. */
  lemma PassGoesAt(n: Inode, dk: Disk, start: nat, src: seq<byte>, done: nat, b: nat, len: nat, r: Resolution)
    requires SoundDisk(n, dk) && dk.bitmap[0] && done < |src|
    requires b == (start + done) / BLOCK_SIZE && len == ChunkLen(start + done, |src| - done)
    requires r == Resolve(n, dk, b, true) && r.ret == 0 && r.phys != 0
    ensures var s := WritePass(n, dk, start, src, done);
      && s.disk.bitmap[0]
      && Shows(s.node, s.disk.data, start, src, done, s.next)
      && Kept(n, dk.data, s.node, s.disk.data, start + done, start + s.next)
  {
    PassCopies(n, dk, start, src, done, b, len, r);
    ChunkGoes(n, dk, b, r, start, src, done, len);
  }

  /** Copying a chunk into the block a resolution serves shows the chunk,
      keeps every other present byte and leaves block 0 in use. */
  lemma ChunkGoes(n: Inode, dk: Disk, b: nat, r: Resolution, start: nat, src: seq<byte>, done: nat, len: nat)
    requires SoundDisk(n, dk) && dk.bitmap[0]
    requires r == Resolve(n, dk, b, true) && r.ret == 0 && r.phys != 0
    requires (start + done) / BLOCK_SIZE == b && (start + done) % BLOCK_SIZE + len <= BLOCK_SIZE
    requires done + len <= |src|
    ensures Served(r, b)
    ensures var dk2 := CopyChunk(r, b, start + done, src[done..done + len]);
      && dk2.bitmap[0]
      && Shows(r.node, dk2.data, start, src, done, done + len)
      && Kept(n, dk.data, r.node, dk2.data, start + done, start + done + len)
  {
    var pos := start + done;
    var chunk := src[done..done + len];
    ResolveServes(n, dk, b);
    ResolveKept(n, dk, b, pos);
    ResolveAtLeaf(n, dk, b);
    var dk2 := CopyChunk(r, b, pos, chunk);
    CopyChunkBytes(r, b, pos, chunk, start, src, done);
    KeptChain(n, dk.data, r.node, r.disk.data, r.node, dk2.data, pos, pos, pos + len);
  }

  /** A pass whose resolution fails, or yields no block, stops the loop
      with the count written so far, or the error when nothing was. */
  lemma PassFails(n: Inode, dk: Disk, start: nat, src: seq<byte>, done: nat, r: Resolution)
    requires SoundDisk(n, dk) && done < |src|
    requires r == Resolve(n, dk, (start + done) / BLOCK_SIZE, true)
    ensures WritePass(n, dk, start, src, done).Go? ==> r.ret == 0 && r.phys != 0
    ensures r.ret != 0 || r.phys == 0 ==>
      WritePass(n, dk, start, src, done)
        == Stop(Written(if done > 0 then done else if r.ret != 0 then r.ret else -EIO, start + done, r.node, r.disk))
  {
  }

  /** A pass whose resolution yields a block copies the chunk up to the end
      of the block into it and goes on. */
  lemma PassCopies(n: Inode, dk: Disk, start: nat, src: seq<byte>, done: nat, b: nat, len: nat, r: Resolution)
    requires SoundDisk(n, dk) && done < |src|
    requires b == (start + done) / BLOCK_SIZE && len == ChunkLen(start + done, |src| - done)
    requires r == Resolve(n, dk, b, true) && r.ret == 0 && r.phys != 0
    ensures Served(r, b)
    ensures WritePass(n, dk, start, src, done) == Go(r.node, CopyChunk(r, b, start + done, src[done..done + len]), done + len)
  {
    ResolveServes(n, dk, b);
  }

  /** What one pass of the copy loop shows and keeps. */
  lemma CopyChunkBytes(r: Resolution, b: nat, pos: nat, chunk: seq<byte>, start: nat, src: seq<byte>, done: nat)
    requires Served(r, b) && pos / BLOCK_SIZE == b && pos % BLOCK_SIZE + |chunk| <= BLOCK_SIZE
    requires At(r.node, r.disk.data, LeafPos(b)) == r.phys
    requires pos == start + done && done + |chunk| <= |src| && chunk == src[done..done + |chunk|]
    ensures var dk := CopyChunk(r, b, pos, chunk);
      && Shows(r.node, dk.data, start, src, done, done + |chunk|)
      && Kept(r.node, r.disk.data, r.node, dk.data, pos, pos + |chunk|)
  {
    var dk := CopyChunk(r, b, pos, chunk);
    ChunkShown(r, b, pos, chunk, start, src, done, dk);
    ChunkKept(r, b, pos, chunk, dk);
  }

  lemma ChunkShown(r: Resolution, b: nat, pos: nat, chunk: seq<byte>, start: nat, src: seq<byte>, done: nat, dk: Disk)
    requires Served(r, b) && pos / BLOCK_SIZE == b && pos % BLOCK_SIZE + |chunk| <= BLOCK_SIZE
    requires At(r.node, r.disk.data, LeafPos(b)) == r.phys
    requires pos == start + done && done + |chunk| <= |src| && chunk == src[done..done + |chunk|]
    requires dk == CopyChunk(r, b, pos, chunk)
    ensures Shows(r.node, dk.data, start, src, done, done + |chunk|)
  {
    forall x: nat | start + done <= x < start + done + |chunk| && x - start < |src|
      ensures Present(r.node, dk.data, x) && FileByte(r.node, dk.data, x) == src[x - start]
    {
      CopyBytes(r.node, r.disk.data, pos, chunk, r.phys, x);
      assert chunk[x - pos] == src[x - start];
    }
  }

  lemma ChunkKept(r: Resolution, b: nat, pos: nat, chunk: seq<byte>, dk: Disk)
    requires Served(r, b) && pos / BLOCK_SIZE == b && pos % BLOCK_SIZE + |chunk| <= BLOCK_SIZE
    requires At(r.node, r.disk.data, LeafPos(b)) == r.phys
    requires dk == CopyChunk(r, b, pos, chunk)
    ensures Kept(r.node, r.disk.data, r.node, dk.data, pos, pos + |chunk|)
  {
    forall x: nat | Present(r.node, r.disk.data, x) && !(pos <= x < pos + |chunk|)
      ensures Present(r.node, dk.data, x) && FileByte(r.node, dk.data, x) == FileByte(r.node, r.disk.data, x)
    {
      CopyBytes(r.node, r.disk.data, pos, chunk, r.phys, x);
    }
  }

  /** What the copy loop keeps and what it writes, as long as block 0 is in
      use: the bytes it reports written read back as the source, every byte
      that was present outside the written range reads the same, and block
      0 stays in use. On failure before any byte, the position is unchanged. */
  lemma {:induction false} WriteLoopContents(n: Inode, dk: Disk, start: nat, src: seq<byte>, done: nat)
    requires SoundDisk(n, dk) && dk.bitmap[0] && done <= |src|
    ensures var w := WriteLoop(n, dk, start, src, done);
      && w.disk.bitmap[0]
      && (w.ret >= 0 ==> done <= w.ret <= |src| && w.pos == start + w.ret)
      && (w.ret < 0 ==> done == 0 && w.pos == start)
      && Shows(w.node, w.disk.data, start, src, done, w.ret)
      && Kept(n, dk.data, w.node, w.disk.data, start + done, w.pos)
    decreases |src| - done
  {
    if done < |src| {
      var s := WritePass(n, dk, start, src, done);
      if s.Stop? {
        PassStops(n, dk, start, src, done);
      } else {
        PassGoes(n, dk, start, src, done);
        WriteLoopContents(s.node, s.disk, start, src, s.next);
        var w := WriteLoop(s.node, s.disk, start, src, s.next);
        KeptChain(n, dk.data, s.node, s.disk.data, w.node, w.disk.data, start + done, start + s.next, w.pos);
        ShowsKept(s.node, s.disk.data, w.node, w.disk.data, start, src, done, s.next, start + s.next, w.pos);
        ShowsJoin(w.node, w.disk.data, start, src, done, s.next, w.ret);
      }
    }
  }

  lemma ShowsJoin(n: Inode, d: seq<Block>, start: nat, src: seq<byte>, lo: nat, mid: nat, hi: int)
    requires WfInode(n) && lo <= mid <= hi
    requires Shows(n, d, start, src, lo, mid) && Shows(n, d, start, src, mid, hi)
    ensures Shows(n, d, start, src, lo, hi)
  {
    forall x: nat | start + lo <= x < start + hi && x - start < |src|
      ensures Present(n, d, x) && FileByte(n, d, x) == src[x - start]
    {
      if x < start + mid {
        assert start + lo <= x < start + mid;
      } else {
        assert start + mid <= x < start + hi;
      }
    }
  }

  /** Present and FileByte look only at the pointers. */
  lemma SamePointers(n: Inode, n': Inode, d: seq<Block>, x: nat)
    requires WfInode(n) && WfInode(n') && n'.iBlock == n.iBlock
    ensures Present(n', d, x) == Present(n, d, x) && FileByte(n', d, x) == FileByte(n, d, x)
  {
    if x / BLOCK_SIZE < MAX_LOGICAL {
      assert At(n', d, LeafPos(x / BLOCK_SIZE)) == At(n, d, LeafPos(x / BLOCK_SIZE));
    }
  }

  lemma ShowsNewSize(n: Inode, n': Inode, d: seq<Block>, start: nat, src: seq<byte>, lo: nat, hi: int)
    requires WfInode(n) && WfInode(n') && n'.iBlock == n.iBlock && Shows(n, d, start, src, lo, hi)
    ensures Shows(n', d, start, src, lo, hi)
  {
    forall x: nat | start + lo <= x < start + hi && x - start < |src|
      ensures Present(n', d, x) && FileByte(n', d, x) == src[x - start]
    {
      SamePointers(n, n', d, x);
    }
  }

  lemma KeptNewSize(m: Inode, e: seq<Block>, n: Inode, n': Inode, d: seq<Block>, lo: nat, hi: nat)
    requires WfInode(m) && WfInode(n) && WfInode(n') && n'.iBlock == n.iBlock && Kept(m, e, n, d, lo, hi)
    ensures Kept(m, e, n', d, lo, hi)
  {
    forall x: nat | Present(m, e, x) && !(lo <= x < hi)
      ensures Present(n', d, x) && FileByte(n', d, x) == FileByte(m, e, x)
    {
      SamePointers(n, n', d, x);
    }
  }

  /** `osfs_write` as a whole, while block 0 is in use: it reports the
      number of bytes written (at most |src|) and moves the position by it,
      or reports an error with the position, size and every byte unchanged;
      the written bytes read back as the source; every byte present outside
      the written range reads the same; the size grows to the end of the
      write, taken modulo 2^32, when that lies past the old size; nothing
      else of the inode changes. */
  lemma WriteContents(n: Inode, dk: Disk, pos: nat, src: seq<byte>)
    requires SoundDisk(n, dk) && dk.bitmap[0]
    ensures var w := WriteSpec(n, dk, pos, src);
      && w.disk.bitmap[0]
      && (w.ret >= 0 ==> w.ret <= |src| && w.pos == pos + w.ret)
      && (w.ret < 0 ==> w.pos == pos && w.node.size == n.size)
      && (w.ret >= 0 ==> w.node.size == if w.pos > n.size then Trunc32(w.pos) else n.size)
      && w.node == n.(iBlock := w.node.iBlock, blocks := w.node.blocks, size := w.node.size)
      && Shows(w.node, w.disk.data, pos, src, 0, w.ret)
      && Kept(n, dk.data, w.node, w.disk.data, pos, w.pos)
  {
    WriteLoopContents(n, dk, pos, src, 0);
    var l := WriteLoop(n, dk, pos, src, 0);
    if l.ret >= 0 && l.pos > l.node.size {
      WriteGrows(n, dk, pos, src, l);
    } else {
      assert WriteSpec(n, dk, pos, src) == l;
    }
  }

  /** The case of WriteContents where the write ends past the old size. */
  lemma WriteGrows(n: Inode, dk: Disk, pos: nat, src: seq<byte>, l: Written)
    requires SoundDisk(n, dk) && l == WriteLoop(n, dk, pos, src, 0) && l.ret >= 0 && l.pos > l.node.size
    requires l.ret <= |src| && l.pos == pos + l.ret
    requires Shows(l.node, l.disk.data, pos, src, 0, l.ret) && Kept(n, dk.data, l.node, l.disk.data, pos, l.pos)
    ensures var w := WriteSpec(n, dk, pos, src);
      && w == l.(node := l.node.(size := Trunc32(l.pos)))
      && Shows(w.node, w.disk.data, pos, src, 0, w.ret)
      && Kept(n, dk.data, w.node, w.disk.data, pos, w.pos)
  {
    var w := WriteSpec(n, dk, pos, src);
    assert w == l.(node := l.node.(size := Trunc32(l.pos)));
    ShowsNewSize(l.node, w.node, l.disk.data, pos, src, 0, l.ret);
    KeptNewSize(n, dk.data, l.node, w.node, l.disk.data, pos, l.pos);
  }

  /** Reading back what a write reports written yields the source bytes. */
  lemma ReadAfterWrite(n: Inode, dk: Disk, pos: nat, src: seq<byte>)
    requires SoundDisk(n, dk) && dk.bitmap[0]
    ensures var w := WriteSpec(n, dk, pos, src);
      w.ret >= 0 ==> w.ret <= |src| && FileBytes(w.node, w.disk.data, pos, w.ret) == src[..w.ret]
  {
    WriteContents(n, dk, pos, src);
    var w := WriteSpec(n, dk, pos, src);
    if w.ret >= 0 {
      forall i | 0 <= i < w.ret
        ensures FileBytes(w.node, w.disk.data, pos, w.ret)[i] == src[i]
      {
        var x := pos + i;
        assert pos + 0 <= x < pos + w.ret && x - pos < |src|;
      }
    }
  }
}
