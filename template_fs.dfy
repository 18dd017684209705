/** The single-block version as the code runs it: one mounted file system
    whose superblock, inode table and data zone the operations of
    lab4/Lab4_Template_Update/super.c, inode.c, dir.c and file.c update in
    place. Each method is proved to leave the state that the functions of
    TemplateSpec and TemplateFile describe, and the properties proved about
    those functions carry over. */
module TemplateFs {
  import opened Layout
  import opened Alloc
  import opened Blocks
  import opened GetBlock
  import opened DirEntries
  import opened TemplateSpec
  import opened TemplateFile

  class Fs {
    const sb: SbInfo
    /** `sb_info->inode_table`: INODE_COUNT inode records. */
    const table: array<Inode>
    /** `sb_info->data_blocks`: DATA_BLOCK_COUNT blocks of BLOCK_SIZE bytes. */
    const data: array<Block>

    ghost predicate Valid()
      reads this, sb, table, data
    {
      && sb.Valid() && table.Length == INODE_COUNT && data.Length == DATA_BLOCK_COUNT
      && WfBlocks(data[..])
      && forall i :: 0 <= i < INODE_COUNT ==> WfInode(table[i])
    }

    /** The block bitmap, the free-block counter and the data zone. */
    function DiskOf(): Disk
      reads this, sb, data
    {
      Disk(sb.blockBitmap, sb.nrFreeBlocks, data[..])
    }

    /** The whole state the operations read and change. */
    function StateOf(): State
      reads this, sb, table, data
    {
      State(sb.inodeBitmap, sb.nrFreeInodes, table[..], DiskOf())
    }

    constructor Attach(sb: SbInfo, table: array<Inode>, data: array<Block>)
      ensures this.sb == sb && this.table == table && this.data == data
    {
      this.sb := sb;
      this.table := table;
      this.data := data;
    }

    /** `osfs_fill_super`: one zeroed region holds the superblock, both
        bitmaps, the inode table and the data zone; the totals and counters
        are set, the root's record is written and its bit set. The region
        can fail to be allocated (`memOk`), the VFS can fail to give the
        root inode (`vfsOk`) or its dentry (`rootOk`): each gives -ENOMEM and
        no file system. */
    static method Mount(memOk: bool, vfsOk: bool, rootOk: bool) returns (ret: int, fs: Fs?)
      ensures ret == 0 || ret == -ENOMEM
      ensures ret == 0 <==> memOk && vfsOk && rootOk
      ensures ret == 0 <==> fs != null
      ensures fs != null ==> fresh(fs) && fresh(fs.sb) && fresh(fs.table) && fresh(fs.data)
      ensures fs != null ==> fs.Valid() && fs.StateOf() == Mounted()
      ensures fs != null ==> fs.sb.magic == OSFS_MAGIC && fs.sb.inodeCount == INODE_COUNT
    {
      if !memOk {
        return -ENOMEM, null;
      }
      var sb, table, data := Region();
      if !vfsOk {
        return -ENOMEM, null;
      }
      WriteRoot(sb, table);
      if !rootOk {
        return -ENOMEM, null;
      }
      fs := new Fs.Attach(sb, table, data);
      ret := 0;
    }

    /** The zeroed region with the superblock's totals and counters set. */
    static method Region() returns (sb: SbInfo, table: array<Inode>, data: array<Block>)
      ensures fresh(sb) && fresh(table) && fresh(data)
      ensures sb.magic == OSFS_MAGIC && sb.blockSize == BLOCK_SIZE
      ensures sb.inodeCount == INODE_COUNT && sb.blockCount == DATA_BLOCK_COUNT
      ensures sb.nrFreeInodes == INODE_COUNT - 1 && sb.nrFreeBlocks == DATA_BLOCK_COUNT
      ensures sb.inodeBitmap == seq(BitmapSize(INODE_COUNT) * BITS_PER_LONG, _ => false)
      ensures sb.blockBitmap == seq(BitmapSize(DATA_BLOCK_COUNT) * BITS_PER_LONG, _ => false)
      ensures table[..] == seq(INODE_COUNT, _ => ZeroRecord()) && data[..] == ZeroZone()
    {
      sb := new SbInfo.Zeroed();
      table := new Inode[INODE_COUNT](_ => ZeroRecord());
      data := new Block[DATA_BLOCK_COUNT](_ => ZeroedBlock());
      sb.magic := OSFS_MAGIC;
      sb.blockSize := BLOCK_SIZE;
      sb.inodeCount := INODE_COUNT;
      sb.blockCount := DATA_BLOCK_COUNT;
      sb.nrFreeInodes := INODE_COUNT - 1;
      sb.nrFreeBlocks := DATA_BLOCK_COUNT;
    }

    /** The root's record written and its bit set. */
    static method WriteRoot(sb: SbInfo, table: array<Inode>)
      requires table[..] == seq(INODE_COUNT, _ => ZeroRecord())
      requires sb.inodeBitmap == seq(BitmapSize(INODE_COUNT) * BITS_PER_LONG, _ => false)
      modifies sb, table
      ensures table[..] == MountedTable()
      ensures sb.inodeBitmap == seq(BitmapSize(INODE_COUNT) * BITS_PER_LONG, i => i == ROOT_INODE)
      ensures sb.magic == old(sb.magic) && sb.blockSize == old(sb.blockSize)
      ensures sb.inodeCount == old(sb.inodeCount) && sb.blockCount == old(sb.blockCount)
      ensures sb.nrFreeInodes == old(sb.nrFreeInodes) && sb.nrFreeBlocks == old(sb.nrFreeBlocks)
      ensures sb.blockBitmap == old(sb.blockBitmap)
    {
      table[ROOT_INODE] := RootRecord();
      sb.inodeBitmap := sb.inodeBitmap[ROOT_INODE := true];
      assert table[..] == MountedTable();
    }

    /** `osfs_iget`: the inode record of ino, or -EFAULT when
        `osfs_get_osfs_inode` rejects ino, or -ENOMEM when the VFS has no
        inode to give (`vfsOk` false). */
    method Iget(ino: nat, vfsOk: bool) returns (ret: int, node: Inode)
      requires Valid()
      ensures GetOsfsInode(sb.inodeCount, ino).None? ==> ret == -EFAULT
      ensures GetOsfsInode(sb.inodeCount, ino).Some? && !vfsOk ==> ret == -ENOMEM
      ensures GetOsfsInode(sb.inodeCount, ino).Some? && vfsOk ==> ret == 0 && node == table[ino]
    {
      var slot := GetOsfsInode(sb.inodeCount, ino);
      if slot.None? {
        return -EFAULT, ZeroRecord();
      }
      if !vfsOk {
        return -ENOMEM, ZeroRecord();
      }
      return 0, table[slot.value];
    }

    /** `osfs_lookup` of name in directory dir: not found (ret 0, nothing),
        the error of `osfs_iget`, or the inode the entry names. */
    method Lookup(dir: nat, name: seq<byte>, vfsOk: bool) returns (ret: int, found: Option<nat>, node: Inode)
      requires Valid() && dir < INODE_COUNT && DirOk(table[dir])
      ensures var e := LookupSpec(table[dir], data[..], name);
        && (e.None? ==> ret == 0 && found.None?)
        && (e.Some? && GetOsfsInode(INODE_COUNT, e.value).None? ==> ret == -EFAULT && found.None?)
        && (e.Some? && GetOsfsInode(INODE_COUNT, e.value).Some? && !vfsOk ==> ret == -ENOMEM && found.None?)
        && (e.Some? && GetOsfsInode(INODE_COUNT, e.value).Some? && vfsOk ==>
              ret == 0 && found == e && node == table[e.value])
    {
      var n := table[dir];
      var b := data[n.iBlock];
      assert b == DirBlock(n, data[..]);
      var i := ScanEntries(b, EntryCount(n), name);
      node := ZeroRecord();
      if i.None? {
        return 0, None, node;
      }
      var r;
      r, node := Iget(EntryIno(b, i.value), vfsOk);
      if r != 0 {
        return r, None, node;
      }
      return 0, Some(EntryIno(b, i.value)), node;
    }

    /** `osfs_iterate` on directory dir at position pos, with a consumer
        that accepts `room` records: the listing IterateSpec describes. */
    method Iterate(dir: nat, pos: nat, room: nat) returns (l: Listing)
      requires Valid() && dir < INODE_COUNT && DirOk(table[dir])
      ensures l == IterateSpec(DirBlock(table[dir], data[..]), EntryCount(table[dir]), pos, room)
    {
      var n := table[dir];
      var b := DirBlock(n, data[..]);
      l := EmitRecords(Records(b, EntryCount(n)), pos, room);
    }

    /** `osfs_new_inode(dir, mode)`, with the owner the VFS assigns and
        whether the VFS has an inode to give. */
    method NewInode(mode: nat, uid: nat, gid: nat, vfsOk: bool) returns (ret: int, ino: nat)
      requires Valid()
      modifies sb, table
      ensures Valid()
      ensures Created(ret, ino, StateOf()) == NewInodeSpec(old(StateOf()), mode, uid, gid, vfsOk)
    {
      if !IsDir(mode) && !IsReg(mode) && !IsLnk(mode) {
        return -EINVAL, 0;
      }
      if sb.nrFreeInodes == 0 || sb.nrFreeBlocks == 0 {
        return -ENOSPC, 0;
      }
      var r := sb.GetFreeInode();
      if r < 0 || r >= sb.inodeCount {
        return -ENOSPC, 0;
      }
      if !vfsOk {
        return -ENOMEM, 0;
      }
      table[r] := NewRecord(r, mode, uid, gid);
      var a, v := sb.AllocDataBlock();
      if a != 0 {
        return a, 0;
      }
      table[r] := table[r].(iBlock := v);
      sb.nrFreeInodes := Dec32(sb.nrFreeInodes);
      return 0, r;
    }

    /** `osfs_add_dir_entry(dir, ino, name, |name|)`. */
    method AddDirEntry(dir: nat, ino: nat, name: seq<byte>) returns (ret: int)
      requires Valid() && dir < INODE_COUNT && ino < U32_RANGE && |name| <= MAX_FILENAME_LEN
      modifies table, data
      ensures Valid()
      ensures Added(ret, table[dir], data[..]) == AddDirEntrySpec(old(table[dir]), old(data[..]), ino, name)
      ensures forall i :: 0 <= i < INODE_COUNT && i != dir ==> table[i] == old(table[i])
    {
      var n := table[dir];
      var count := n.size / DIR_ENTRY_SIZE;
      if count >= MAX_DIR_ENTRIES {
        return -ENOSPC;
      }
      var b := DirBlock(n, data[..]);
      var found := ScanEntries(b, count, name);
      if found.Some? {
        return -EEXIST;
      }
      DirEntryLayout();
      StoreBlock(n.iBlock, PutEntry(b, count, name, ino));
      EntryCountGrows(n.size);
      SetSize(dir, n.size + DIR_ENTRY_SIZE);
      return 0;
    }

    /** Overwrite block blk with the bytes nb. */
    method StoreBlock(blk: nat, nb: Block)
      requires Valid() && blk < DATA_BLOCK_COUNT && |nb| == BLOCK_SIZE
      modifies data
      ensures Valid() && data[..] == old(data[..])[blk := nb]
    {
      data[blk] := nb;
    }

    /** `osfs_inode->i_size = size` (a uint32_t). */
    method SetSize(ino: nat, size: nat)
      requires Valid() && ino < INODE_COUNT && size < U32_RANGE
      modifies table
      ensures Valid() && table[ino] == old(table[ino]).(size := size)
      ensures forall i :: 0 <= i < INODE_COUNT && i != ino ==> table[i] == old(table[i])
    {
      table[ino] := table[ino].(size := size);
    }

    /** `osfs_create` of name in directory dir. */
    method Create(dir: nat, name: seq<byte>, mode: nat, uid: nat, gid: nat, vfsOk: bool) returns (ret: int, ino: nat)
      requires Valid() && dir < INODE_COUNT
      modifies sb, table, data
      ensures Valid()
      ensures Creation(ret, ino, StateOf()) == CreateSpec(old(StateOf()), dir, name, mode, uid, gid, vfsOk)
    {
      if |name| > MAX_FILENAME_LEN {
        return -ENAMETOOLONG, 0;
      }
      ghost var s0 := StateOf();
      ret, ino := NewInode(mode, uid, gid, vfsOk);
      if ret != 0 {
        return;
      }
      ghost var c := NewInodeSpec(s0, mode, uid, gid, vfsOk);
      assert StateOf() == c.state && ino == c.ino;
      SetSize(ino, 0);
      ghost var t := table[..];
      assert t == c.state.table[c.ino := c.state.table[c.ino].(size := 0)];
      ret := AddDirEntry(dir, ino, name);
      assert table[..] == t[dir := table[dir]];
    }

    /** `osfs_read(filp, buf, len, ppos)` on inode ino: the bytes read and
        the new position; nothing changes. */
    method Read(ino: nat, pos: nat, len: nat) returns (ret: int, buf: seq<byte>, newPos: nat)
      requires Valid() && ino < INODE_COUNT && FileOk(table[ino])
      ensures buf == ReadSpec(table[ino], data[..], pos, len)
      ensures ret == |buf| && newPos == pos + ret
    {
      var n := table[ino];
      if n.blocks == 0 {
        return 0, [], pos;
      }
      if pos >= n.size {
        return 0, [], pos;
      }
      var k := len;
      if pos + k > n.size {
        k := n.size - pos;
      }
      buf := data[n.iBlock][pos..pos + k];
      newPos := pos + k;
      ret := k;
    }

    /** `copy_from_user` of chunk into block blk at offset off. */
    method CopyIn(blk: nat, off: nat, chunk: seq<byte>)
      requires Valid() && blk < DATA_BLOCK_COUNT && off + |chunk| <= BLOCK_SIZE
      modifies data
      ensures Valid() && data[..] == CopyInto(old(data[..]), blk, off, chunk)
    {
      data[blk] := data[blk][..off] + chunk + data[blk][off + |chunk|..];
      assert data[..] == old(data[..])[blk := old(data[blk])[..off] + chunk + old(data[blk])[off + |chunk|..]];
    }

    /** `osfs_write(filp, buf, len, ppos)` on inode ino. */
    method Write(ino: nat, pos: nat, src: seq<byte>) returns (ret: int, newPos: nat)
      requires Valid() && ino < INODE_COUNT
      modifies sb, table, data
      ensures Valid()
      ensures Written(ret, newPos, table[ino], DiskOf()) == WriteSpec(old(table[ino]), old(DiskOf()), pos, src)
      ensures forall i :: 0 <= i < INODE_COUNT && i != ino ==> table[i] == old(table[i])
      ensures sb.inodeBitmap == old(sb.inodeBitmap) && sb.nrFreeInodes == old(sb.nrFreeInodes)
    {
      if table[ino].blocks == 0 {
        var r, v := sb.AllocDataBlock();
        if r != 0 {
          return r, pos;
        }
        table[ino] := table[ino].(iBlock := v, blocks := 1);
      }
      if pos > BLOCK_SIZE {
        return -EFAULT, pos;
      }
      var len := |src|;
      if pos + len > BLOCK_SIZE {
        len := BLOCK_SIZE - pos;
      }
      if len == 0 {
        return 0, pos;
      }
      CopyIn(table[ino].iBlock, pos, src[..len]);
      newPos := pos + len;
      if newPos > table[ino].size {
        SetSize(ino, newPos);
      }
      ret := len;
    }
  }
}
