/** `osfs_read` and `osfs_write` of the single-block version
    (lab4/Lab4_Template_Update/file.c) as functions of the inode and the
    block side: every byte of a file lives in the one block `i_block` names,
    at the offset equal to its file position. */
module TemplateFile {
  import opened Layout
  import opened Alloc
  import opened Blocks
  import opened GetBlock
  import opened DirEntries
  import opened TemplateSpec

  /** The bytes `osfs_read` copies: none for a file without a block or a
      position at or past the end, otherwise up to `len` bytes from the
      block at offset pos, cut at the end of the file. */
  function ReadSpec(n: Inode, d: seq<Block>, pos: nat, len: nat): (r: seq<byte>)
    requires FileOk(n) && WfBlocks(d)
    ensures |r| <= len
    ensures |r| == 0 <==> n.blocks == 0 || pos >= n.size || len == 0
    ensures |r| != 0 ==> pos + |r| <= n.size && (pos + |r| == n.size || |r| == len)
    ensures forall k :: 0 <= k < |r| ==> r[k] == d[n.iBlock][pos + k]
  {
    if n.blocks == 0 || pos >= n.size then []
    else
      var k := if pos + len > n.size then n.size - pos else len;
      d[n.iBlock][pos..pos + k]
  }

  /** What a write reports and leaves behind: the return value (bytes
      written, or a negative error number), the new file position, the
      inode and the block side. */
  datatype Written = Written(ret: int, pos: nat, node: Inode, disk: Disk)

  /** `osfs_write` of src at position pos. A file without a block first
      claims one (`i_block`, `i_blocks` 1; the block is not cleared), which
      stays even when the write then fails. The length is cut at the end of
      the block; past the end of the block (`*ppos > BLOCK_SIZE`) the cut
      length wraps around as a size_t, which `copy_from_user` refuses, so
      the call fails with -EFAULT. A zero length writes nothing and returns
      0. Otherwise the bytes go into the block at offset pos, the position
      advances and the size grows to it when it lies past the end. */
  function WriteSpec(n: Inode, dk: Disk, pos: nat, src: seq<byte>): (w: Written)
    requires WfInode(n) && WfDisk(dk)
    ensures WfInode(w.node) && WfDisk(w.disk) && |w.disk.bitmap| == |dk.bitmap|
    ensures w.node.ino == n.ino && w.node.mode == n.mode && w.node.uid == n.uid && w.node.gid == n.gid
    ensures w.node.links == n.links
  {
    if n.blocks == 0 && Take(dk).NoSpace? then Written(-ENOSPC, pos, n, dk)
    else
      var n1 := if n.blocks == 0 then n.(iBlock := Take(dk).no, blocks := 1) else n;
      var dk1 := if n.blocks == 0 then dk.(bitmap := Take(dk).bitmap, nrFree := Take(dk).nrFree) else dk;
      if pos > BLOCK_SIZE then Written(-EFAULT, pos, n1, dk1)
      else
        var len := if pos + |src| > BLOCK_SIZE then BLOCK_SIZE - pos else |src|;
        if len == 0 then Written(0, pos, n1, dk1)
        else
          var n2 := if pos + len > n1.size then n1.(size := pos + len) else n1;
          Written(len, pos + len, n2, dk1.(data := CopyInto(dk1.data, n1.iBlock, pos, src[..len])))
  }

  /** A write never leaves a file larger than its block: the position and
      the size stay at most BLOCK_SIZE, whatever the position and length
      asked for; the count written is what fits before the end of the
      block. */
  lemma WriteStaysInBlock(n: Inode, dk: Disk, pos: nat, src: seq<byte>)
    requires FileOk(n) && WfDisk(dk)
    ensures var w := WriteSpec(n, dk, pos, src);
      && FileOk(w.node)
      && (w.ret >= 0 ==> pos <= BLOCK_SIZE && w.ret == Min(|src|, BLOCK_SIZE - pos) && w.pos == pos + w.ret)
      && (w.ret < 0 ==> w.pos == pos && w.node.size == n.size && w.disk.data == dk.data)
      && (w.ret == -EFAULT <==> pos > BLOCK_SIZE && (n.blocks != 0 || Take(dk).Allocated?))
  {
  }

  /** Only the file's own block changes, and only in the bytes written;
      the size becomes the larger of the old size and the new position. */
  lemma WriteTouchesOneBlock(n: Inode, dk: Disk, pos: nat, src: seq<byte>)
    requires WfInode(n) && WfDisk(dk)
    ensures var w := WriteSpec(n, dk, pos, src);
      && (forall b :: 0 <= b < DATA_BLOCK_COUNT && b != w.node.iBlock ==> w.disk.data[b] == dk.data[b])
      && (forall k :: 0 <= k < BLOCK_SIZE && !(pos <= k < pos + (if w.ret > 0 then w.ret else 0)) ==>
            w.disk.data[w.node.iBlock][k] == dk.data[w.node.iBlock][k])
      && (w.ret > 0 ==> w.node.size == if pos + w.ret > n.size then pos + w.ret else n.size)
  {
  }

  /** The block claimed for a file without one is the lowest free block,
      marked in use and counted; a file that has a block keeps it and the
      block side's bitmap and counter. */
  lemma WriteClaimsBlock(n: Inode, dk: Disk, pos: nat, src: seq<byte>)
    requires WfInode(n) && WfDisk(dk)
    ensures var w := WriteSpec(n, dk, pos, src);
      && (n.blocks != 0 ==>
            w.node.iBlock == n.iBlock && w.node.blocks == n.blocks && w.disk.bitmap == dk.bitmap && w.disk.nrFree == dk.nrFree)
      && (n.blocks == 0 && Take(dk).Allocated? ==>
            && w.node.iBlock == Take(dk).no && w.node.blocks == 1 && !dk.bitmap[Take(dk).no]
            && w.disk.bitmap == dk.bitmap[Take(dk).no := true] && w.disk.nrFree == Dec32(dk.nrFree))
      && (n.blocks == 0 && Take(dk).NoSpace? ==> w == Written(-ENOSPC, pos, n, dk))
  {
  }

  /** Reading back what a write reports as written gives the bytes
      written. */
  lemma ReadAfterWrite(n: Inode, dk: Disk, pos: nat, src: seq<byte>)
    requires FileOk(n) && WfDisk(dk)
    ensures var w := WriteSpec(n, dk, pos, src);
      w.ret > 0 ==> w.ret <= |src| && ReadSpec(w.node, w.disk.data, pos, w.ret) == src[..w.ret]
  {
    var w := WriteSpec(n, dk, pos, src);
    WriteStaysInBlock(n, dk, pos, src);
    if w.ret > 0 {
      var r := ReadSpec(w.node, w.disk.data, pos, w.ret);
      assert |r| == w.ret;
      WriteTouchesOneBlock(n, dk, pos, src);
      forall k | 0 <= k < w.ret
        ensures r[k] == src[k]
      {
      }
    }
  }

  /** Two inodes whose `i_block` names the same block share their bytes: a
      write to file f at position 0 whose first byte is NUL empties the name
      of entry 0 of directory dir, so a name stored there is no longer found
      and dir's other entries are what decides any lookup. */
  lemma SharedBlockWrite(f: Inode, dir: Inode, dk: Disk, src: seq<byte>)
    requires FileOk(f) && DirOk(dir) && WfDisk(dk) && f.blocks != 0 && f.iBlock == dir.iBlock
    requires EntryCount(dir) == 1 && |src| > 0 && src[0] == 0
    ensures var w := WriteSpec(f, dk, 0, src);
      && w.ret > 0 && w.node.iBlock == dir.iBlock
      && EntryName(DirBlock(dir, w.disk.data), 0) == []
      && forall name :: name != [] ==> LookupSpec(dir, w.disk.data, name).None?
  {
    var w := WriteSpec(f, dk, 0, src);
    var b := DirBlock(dir, w.disk.data);
    assert b[0] == 0;
    assert EntryOffset(0) == 0;
    CStrLenZero(b);
  }

  lemma CStrLenZero(b: seq<byte>)
    requires |b| == BLOCK_SIZE && b[0] == 0
    ensures EntryName(b, 0) == []
  {
    DirEntryLayout();
    EntryInBlock(0);
  }

  /** Right after mounting, the first file created in the root gets block
      0, the very block the root's `i_block` names while the root has no
      block of its own: entries the root adds and bytes the file holds then
      live in one block. */
  lemma FirstFileSharesRootBlock(s: State, name: seq<byte>, mode: nat, uid: nat, gid: nat)
    requires s == Mounted() && NoNul(name)
    ensures var c := CreateSpec(s, ROOT_INODE, name, mode, uid, gid, true);
      c.ret == 0 ==>
        && c.state.table[c.ino].iBlock == 0 == c.state.table[ROOT_INODE].iBlock
        && c.state.table[c.ino].blocks == 1 && c.state.table[ROOT_INODE].blocks == 0
        && c.ino != ROOT_INODE && EntryCount(c.state.table[ROOT_INODE]) == 1
        && LookupSpec(c.state.table[ROOT_INODE], c.state.disk.data, name) == Some(c.ino)
  {
    MountedShape();
    var root := s.table[ROOT_INODE];
    assert Terminated(DirBlock(root, s.disk.data), EntryCount(root));
    CreateThenLookup(s, ROOT_INODE, name, mode, uid, gid, true);
    var c := CreateSpec(s, ROOT_INODE, name, mode, uid, gid, true);
    if c.ret == 0 {
      MountedFirstBlock(s);
      OneEntry(root, c.state.table[ROOT_INODE]);
    }
  }

  /** The first block claimed after mounting is block 0. */
  lemma MountedFirstBlock(s: State)
    requires s == Mounted()
    ensures Take(s.disk).Allocated? && Take(s.disk).no == 0
  {
    MountedShape();
  }

  /** An empty directory with one entry added counts one entry. */
  lemma OneEntry(n: Inode, n': Inode)
    requires n.size == 0 && n'.size == n.size + DIR_ENTRY_SIZE
    ensures EntryCount(n') == 1
  {
    DirEntryLayout();
  }


  /** Mount, create a file in the root, write to it from position 0 with a
      NUL first byte: the root no longer finds the name it just added. */
  lemma CreateThenWriteLosesName(s: State, name: seq<byte>, mode: nat, uid: nat, gid: nat, src: seq<byte>)
    requires s == Mounted() && NoNul(name) && name != [] && |src| > 0 && src[0] == 0
    ensures var c := CreateSpec(s, ROOT_INODE, name, mode, uid, gid, true);
      c.ret == 0 ==>
        var w := WriteSpec(c.state.table[c.ino], c.state.disk, 0, src);
        && w.ret > 0
        && LookupSpec(c.state.table[ROOT_INODE], c.state.disk.data, name) == Some(c.ino)
        && LookupSpec(c.state.table[ROOT_INODE], w.disk.data, name).None?
  {
    var c := CreateSpec(s, ROOT_INODE, name, mode, uid, gid, true);
    FirstFileSharesRootBlock(s, name, mode, uid, gid);
    if c.ret == 0 {
      SharedBlockWrite(c.state.table[c.ino], c.state.table[ROOT_INODE], c.state.disk, src);
    }
  }
}
