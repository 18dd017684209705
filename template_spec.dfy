/** The single-block version (lab4/Lab4_Template_Update) as functions of the
    state its operations read and change. Each inode owns at most one data
    block, named by `i_block`; a directory keeps its entries in that block
    and a regular file its bytes. */
module TemplateSpec {
  import opened Layout
  import opened Alloc
  import opened Blocks
  import opened GetBlock
  import opened DirEntries

  /** `struct osfs_inode` of this version: a single block pointer. */
  datatype Inode = Inode(
    ino: nat, size: nat, blocks: nat, mode: nat, links: nat,
    uid: nat, gid: nat, iBlock: nat)

  /** The uint32_t fields hold what they can, and `i_block` names a block of
      the zone (the record is zeroed, and only block numbers below
      DATA_BLOCK_COUNT are ever stored into it). */
  predicate WfInode(n: Inode)
  {
    n.iBlock < DATA_BLOCK_COUNT && n.size < U32_RANGE && n.blocks < U32_RANGE
  }

  /** A file whose bytes all lie within its block: what `osfs_read` needs
      for its copy to stay inside the block. */
  predicate FileOk(n: Inode)
  {
    WfInode(n) && n.size <= BLOCK_SIZE
  }

  /** Entries in use: `i_size / sizeof(struct osfs_dir_entry)`. */
  function EntryCount(n: Inode): nat
  {
    n.size / DIR_ENTRY_SIZE
  }

  /** A directory whose size counts no more entries than its block holds. */
  predicate DirOk(n: Inode)
  {
    WfInode(n) && EntryCount(n) <= MAX_DIR_ENTRIES
  }

  /** The entry block of directory n. */
  function DirBlock(n: Inode, d: seq<Block>): (b: Block)
    requires DirOk(n) && WfBlocks(d)
    ensures WfDir(b, EntryCount(n))
  {
    DirEntryLayout();
    d[n.iBlock]
  }

  /** Everything the operations read and change: the inode bitmap and its
      free counter, the inode table, and the block side (block bitmap, its
      free counter, the data zone). */
  datatype State = State(bitmap: seq<bool>, nrFree: nat, table: seq<Inode>, disk: Disk)

  predicate WfState(s: State)
  {
    && |s.bitmap| >= INODE_COUNT && s.nrFree < U32_RANGE && |s.table| == INODE_COUNT
    && (forall i :: 0 <= i < |s.table| ==> WfInode(s.table[i]))
    && WfDisk(s.disk)
  }

  /** `S_IFDIR | 0755`, the mode `osfs_fill_super` gives the root. */
  const ROOT_MODE: nat := S_IFDIR + 0x1ED

  /** The root record `osfs_fill_super` writes: zeroed, then number, mode
      and two links; no block, size 0, and `i_block` 0. */
  function RootRecord(): (n: Inode)
    ensures DirOk(n) && FileOk(n) && IsDir(n.mode)
    ensures n.ino == ROOT_INODE && n.links == 2 && n.size == 0 && n.blocks == 0 && n.iBlock == 0
  {
    Inode(ROOT_INODE, 0, 0, ROOT_MODE, 2, 0, 0, 0)
  }

  /** A zeroed record. */
  function ZeroRecord(): Inode
  {
    Inode(0, 0, 0, 0, 0, 0, 0, 0)
  }

  /** The data zone as `memset` leaves it: every block zero. */
  function ZeroZone(): (d: seq<Block>)
    ensures WfBlocks(d) && forall b :: 0 <= b < |d| ==> d[b] == ZeroedBlock()
  {
    seq(DATA_BLOCK_COUNT, _ => ZeroedBlock())
  }

  /** The table as `osfs_fill_super` leaves it: zeroed records but the
      root's. */
  function MountedTable(): (t: seq<Inode>)
    ensures |t| == INODE_COUNT && t[ROOT_INODE] == RootRecord()
    ensures forall i :: 0 <= i < |t| ==> WfInode(t[i])
  {
    var t := seq(INODE_COUNT, i => if i == ROOT_INODE then RootRecord() else ZeroRecord());
    assert forall i :: 0 <= i < |t| ==> t[i] == RootRecord() || t[i] == ZeroRecord();
    t
  }

  /** The state after a successful `osfs_fill_super`: the whole region
      zeroed, the inode counter at INODE_COUNT - 1 and the block counter at
      DATA_BLOCK_COUNT, only the root's bit set, only the root's record
      written. */
  function Mounted(): (s: State)
    ensures WfState(s)
  {
    State(
      seq(BitmapSize(INODE_COUNT) * BITS_PER_LONG, i => i == ROOT_INODE),
      INODE_COUNT - 1,
      MountedTable(),
      Disk(seq(BitmapSize(DATA_BLOCK_COUNT) * BITS_PER_LONG, _ => false), DATA_BLOCK_COUNT, ZeroZone()))
  }

  /** The mounted root is an empty directory whose `i_block` names block 0,
      while block 0 is free in the block bitmap; 18 inode numbers (2 to 19)
      are free though the counter says 19. */
  lemma MountedShape()
    ensures var s := Mounted();
      && s.table[ROOT_INODE] == RootRecord() && s.bitmap[ROOT_INODE]
      && s.table[ROOT_INODE].iBlock == 0 && !s.disk.bitmap[0]
      && EntryCount(s.table[ROOT_INODE]) == 0
      && CountClear(s.bitmap, 1, INODE_COUNT) == INODE_COUNT - 2 && s.nrFree == INODE_COUNT - 1
      && CountClear(s.disk.bitmap, 0, DATA_BLOCK_COUNT) == DATA_BLOCK_COUNT == s.disk.nrFree
  {
    var s := Mounted();
    ClearRun(s.bitmap, 2, INODE_COUNT);
    ClearRun(s.disk.bitmap, 0, DATA_BLOCK_COUNT);
  }

  /** Every bit of [lo, hi) clear: the count is the width of the range. */
  lemma {:induction false} ClearRun(bm: seq<bool>, lo: nat, hi: nat)
    requires lo <= hi <= |bm| && forall k :: lo <= k < hi ==> !bm[k]
    ensures CountClear(bm, lo, hi) == hi - lo
    decreases hi - lo
  {
    if lo < hi {
      ClearRun(bm, lo + 1, hi);
    }
  }

  /** The scan of `osfs_lookup`: the inode number stored in the first
      in-use entry whose name is exactly `name`, or none. */
  function LookupSpec(n: Inode, d: seq<Block>, name: seq<byte>): (r: Option<nat>)
    requires DirOk(n) && WfBlocks(d)
    ensures r.None? <==> forall i :: 0 <= i < EntryCount(n) ==> EntryName(DirBlock(n, d), i) != name
  {
    var b := DirBlock(n, d);
    match FindEntry(b, EntryCount(n), name)
    case None => None
    case Some(i) => Some(EntryIno(b, i))
  }

  /** The record `osfs_new_inode` writes before it asks for a block:
      zeroed, then number, mode, owner, size 0 and `i_blocks` 1 (the link
      count stays 0 in the record; the VFS inode carries it). */
  function NewRecord(ino: nat, mode: nat, uid: nat, gid: nat): (n: Inode)
    ensures FileOk(n) && DirOk(n) && n.ino == ino && n.mode == mode && n.uid == uid && n.gid == gid
    ensures n.size == 0 && n.blocks == 1 && n.links == 0 && n.iBlock == 0
  {
    Inode(ino, 0, 1, mode, 0, uid, gid, 0)
  }

  /** Return code (0 or a negative error number), the new inode number on
      success (0 otherwise), and the new state. */
  datatype Created = Created(ret: int, ino: nat, state: State)

  /** `osfs_new_inode`: reject a mode that is not a directory, regular file
      or symbolic link; fail with -ENOSPC when either free counter is 0 or
      the inode scan finds nothing; fail with -ENOMEM when the VFS gives no
      inode, the claimed bit left set; otherwise write the record and claim
      a data block for it at once. When no block is free the record, its bit
      and the lowered counter stay, and -ENOSPC is returned; on success the
      inode counter is lowered a second time. */
  function NewInodeSpec(s: State, mode: nat, uid: nat, gid: nat, vfsOk: bool): (c: Created)
    requires WfState(s)
    ensures WfState(c.state) && |c.state.bitmap| == |s.bitmap| && |c.state.disk.bitmap| == |s.disk.bitmap|
    ensures c.ret == 0 || c.ret == -EINVAL || c.ret == -ENOSPC || c.ret == -ENOMEM
    ensures c.state.disk.data == s.disk.data
    ensures c.ret == 0 ==> 0 < c.ino < INODE_COUNT && !s.bitmap[c.ino] && c.state.bitmap[c.ino]
  {
    if !IsDir(mode) && !IsReg(mode) && !IsLnk(mode) then Created(-EINVAL, 0, s)
    else if s.nrFree == 0 || s.disk.nrFree == 0 then Created(-ENOSPC, 0, s)
    else
      match AllocSpec(s.bitmap, 1, INODE_COUNT, s.nrFree)
      case NoSpace => Created(-ENOSPC, 0, s)
      case Allocated(ino, bm, nf) =>
        if !vfsOk then Created(-ENOMEM, 0, s.(bitmap := bm, nrFree := nf))
        else
          var rec := NewRecord(ino, mode, uid, gid);
          match Take(s.disk)
          case NoSpace => Created(-ENOSPC, 0, s.(bitmap := bm, nrFree := nf, table := s.table[ino := rec]))
          case Allocated(v, dbm, dnf) =>
            Created(0, ino, State(bm, Dec32(nf), s.table[ino := rec.(iBlock := v)], s.disk.(bitmap := dbm, nrFree := dnf)))
  }

  /** A successful `osfs_new_inode` takes the lowest free inode number at or
      above 1 and the lowest free block, writes the record with that block,
      and lowers the inode counter twice and the block counter once. */
  lemma NewInodeTakes(s: State, mode: nat, uid: nat, gid: nat, vfsOk: bool)
    requires WfState(s)
    ensures var c := NewInodeSpec(s, mode, uid, gid, vfsOk);
      c.ret == 0 ==>
        && (IsDir(mode) || IsReg(mode) || IsLnk(mode)) && vfsOk
        && c.state.bitmap == s.bitmap[c.ino := true] && (forall k :: 1 <= k < c.ino ==> s.bitmap[k])
        && c.state.nrFree == Dec32(Dec32(s.nrFree))
        && Take(s.disk).Allocated?
        && c.state.table == s.table[c.ino := NewRecord(c.ino, mode, uid, gid).(iBlock := Take(s.disk).no)]
        && c.state.disk == s.disk.(bitmap := s.disk.bitmap[Take(s.disk).no := true], nrFree := Dec32(s.disk.nrFree))
        && !s.disk.bitmap[Take(s.disk).no] && (forall k :: 0 <= k < Take(s.disk).no ==> s.disk.bitmap[k])
  {
  }

  /** The checks come in order, and a failure before the inode scan changes
      nothing: a bad mode, then a zero counter on either side. */
  lemma NewInodeChecks(s: State, mode: nat, uid: nat, gid: nat, vfsOk: bool)
    requires WfState(s)
    ensures var c := NewInodeSpec(s, mode, uid, gid, vfsOk);
      && (!IsDir(mode) && !IsReg(mode) && !IsLnk(mode) ==> c == Created(-EINVAL, 0, s))
      && ((IsDir(mode) || IsReg(mode) || IsLnk(mode)) && (s.nrFree == 0 || s.disk.nrFree == 0) ==>
            c == Created(-ENOSPC, 0, s))
  {
  }

  /** When every block is taken though the block counter is not 0, the
      inode bit claimed by the scan stays set, its record stays written, and
      the counter stays lowered, while -ENOSPC is returned. */
  lemma NewInodeLeaksOnFullZone(s: State, mode: nat, uid: nat, gid: nat)
    requires WfState(s) && IsReg(mode) && s.nrFree != 0 && s.disk.nrFree != 0
    requires exists k :: 1 <= k < INODE_COUNT && !s.bitmap[k]
    requires forall k :: 0 <= k < DATA_BLOCK_COUNT ==> s.disk.bitmap[k]
    ensures var c := NewInodeSpec(s, mode, uid, gid, true);
      && c.ret == -ENOSPC && c.ino == 0
      && var x := FirstClear(s.bitmap, 1, INODE_COUNT).value;
      && c.state.bitmap == s.bitmap[x := true] && !s.bitmap[x]
      && c.state.nrFree == Dec32(s.nrFree)
      && c.state.table == s.table[x := NewRecord(x, mode, uid, gid)]
      && c.state.disk == s.disk
  {
  }

  /** Return code, the directory's new record and the new data zone. */
  datatype Added = Added(ret: int, node: Inode, data: seq<Block>)

  /** `osfs_add_dir_entry` (no allocation in this version: the entry goes
      into the block `i_block` names, whatever `i_blocks` says): -ENOSPC
      when all MAX_DIR_ENTRIES entries are in use (checked first), -EEXIST
      when the name is already there, otherwise entry `count` is written and
      the size grows by one entry. */
  function AddDirEntrySpec(n: Inode, d: seq<Block>, ino: nat, name: seq<byte>): (a: Added)
    requires WfInode(n) && WfBlocks(d) && ino < U32_RANGE && |name| <= MAX_FILENAME_LEN
    ensures WfInode(a.node) && WfBlocks(a.data)
    ensures a.ret == 0 || a.ret == -ENOSPC || a.ret == -EEXIST
    ensures a.ret != 0 ==> a.node == n && a.data == d
    ensures a.ret == 0 ==> EntryCount(n) < MAX_DIR_ENTRIES && DirOk(a.node)
  {
    var count := EntryCount(n);
    if count >= MAX_DIR_ENTRIES then Added(-ENOSPC, n, d)
    else
      var b := DirBlock(n, d);
      if FindEntry(b, count, name).Some? then Added(-EEXIST, n, d)
      else
        EntryCountGrows(n.size);
        DirEntryLayout();
        var n' := n.(size := n.size + DIR_ENTRY_SIZE);
        var d' := d[n.iBlock := PutEntry(b, count, name, ino)];
        assert EntryCount(n') == count + 1 && WfBlocks(d');
        Added(0, n', d')
  }

  /** Directory n' on data d' is directory n on data d with `name` added
      for `ino`: one entry more, the same block, the name found with that
      number, every other name of at most MAX_FILENAME_LEN bytes found as
      before, and no other block changed. When every in-use name of n was
      terminated inside its field, so is every name of n', and every other
      name of any length is found as before. */
  ghost predicate Inserted(n: Inode, d: seq<Block>, n': Inode, d': seq<Block>, ino: nat, name: seq<byte>)
  {
    && DirOk(n) && DirOk(n') && WfBlocks(d) && WfBlocks(d')
    && n' == n.(size := n.size + DIR_ENTRY_SIZE)
    && LookupSpec(n', d', name) == Some(ino)
    && (forall other :: other != name && |other| <= MAX_FILENAME_LEN ==> LookupSpec(n', d', other) == LookupSpec(n, d, other))
    && (Terminated(DirBlock(n, d), EntryCount(n)) ==>
          && Terminated(DirBlock(n', d'), EntryCount(n'))
          && forall other :: other != name ==> LookupSpec(n', d', other) == LookupSpec(n, d, other))
    && (forall k :: 0 <= k < |d| && k != n.iBlock ==> d'[k] == d[k])
  }

  /** A successful insertion of a name without NUL bytes: lookup of that
      name gives the new inode number and every other name looks up as
      before (Inserted), whatever a write through the block has left in
      the earlier entries. A full directory refuses any name, present or
      not. */
  lemma AddThenLookup(n: Inode, d: seq<Block>, ino: nat, name: seq<byte>)
    requires DirOk(n) && WfBlocks(d) && ino < U32_RANGE && |name| <= MAX_FILENAME_LEN && NoNul(name)
    ensures var a := AddDirEntrySpec(n, d, ino, name);
      && (EntryCount(n) >= MAX_DIR_ENTRIES ==> a.ret == -ENOSPC)
      && (a.ret == 0 ==> Inserted(n, d, a.node, a.data, ino, name))
      && (a.ret == -EEXIST <==> EntryCount(n) < MAX_DIR_ENTRIES && LookupSpec(n, d, name).Some?)
  {
    var count := EntryCount(n);
    var b := DirBlock(n, d);
    if count < MAX_DIR_ENTRIES && FindEntry(b, count, name).None? {
      var a := AddDirEntrySpec(n, d, ino, name);
      assert a == Added(0, n.(size := n.size + DIR_ENTRY_SIZE), d[n.iBlock := PutEntry(b, count, name, ino)]);
      PutInserts(n, d, ino, name);
    }
  }

  /** The insertion AddDirEntrySpec makes when the directory has room and
      lacks the name. */
  lemma PutInserts(n: Inode, d: seq<Block>, ino: nat, name: seq<byte>)
    requires DirOk(n) && WfBlocks(d) && ino < U32_RANGE && |name| <= MAX_FILENAME_LEN && NoNul(name)
    requires EntryCount(n) < MAX_DIR_ENTRIES
    requires FindEntry(DirBlock(n, d), EntryCount(n), name).None?
    ensures var r := PutEntry(DirBlock(n, d), EntryCount(n), name, ino);
      Inserted(n, d, n.(size := n.size + DIR_ENTRY_SIZE), d[n.iBlock := r], ino, name)
  {
    var r := PutEntry(DirBlock(n, d), EntryCount(n), name, ino);
    var n' := n.(size := n.size + DIR_ENTRY_SIZE);
    var d' := d[n.iBlock := r];
    PutFinds(n, d, ino, name, n', d');
    PutKeepsOthers(n, d, ino, name, n', d');
  }

  lemma PutFinds(n: Inode, d: seq<Block>, ino: nat, name: seq<byte>, n': Inode, d': seq<Block>)
    requires DirOk(n) && WfBlocks(d) && ino < U32_RANGE && |name| <= MAX_FILENAME_LEN && NoNul(name)
    requires EntryCount(n) < MAX_DIR_ENTRIES
    requires FindEntry(DirBlock(n, d), EntryCount(n), name).None?
    requires n' == n.(size := n.size + DIR_ENTRY_SIZE)
    requires d' == d[n.iBlock := PutEntry(DirBlock(n, d), EntryCount(n), name, ino)]
    ensures DirOk(n') && WfBlocks(d') && EntryCount(n') == EntryCount(n) + 1
    ensures LookupSpec(n', d', name) == Some(ino)
    ensures Terminated(DirBlock(n, d), EntryCount(n)) ==> Terminated(DirBlock(n', d'), EntryCount(n'))
  {
    var count := EntryCount(n);
    var b := DirBlock(n, d);
    EntryCountGrows(n.size);
    EntryCountBound(n.size);
    assert EntryCount(n') == count + 1 && DirOk(n');
    AppendThenFind(b, count, name, ino);
    assert DirBlock(n', d') == PutEntry(b, count, name, ino);
  }

  lemma PutKeepsOthers(n: Inode, d: seq<Block>, ino: nat, name: seq<byte>, n': Inode, d': seq<Block>)
    requires DirOk(n) && WfBlocks(d) && ino < U32_RANGE && |name| <= MAX_FILENAME_LEN && NoNul(name)
    requires EntryCount(n) < MAX_DIR_ENTRIES
    requires FindEntry(DirBlock(n, d), EntryCount(n), name).None?
    requires n' == n.(size := n.size + DIR_ENTRY_SIZE) && DirOk(n')
    requires d' == d[n.iBlock := PutEntry(DirBlock(n, d), EntryCount(n), name, ino)] && WfBlocks(d')
    ensures forall other :: other != name && |other| <= MAX_FILENAME_LEN ==> LookupSpec(n', d', other) == LookupSpec(n, d, other)
    ensures Terminated(DirBlock(n, d), EntryCount(n)) ==>
      forall other :: other != name ==> LookupSpec(n', d', other) == LookupSpec(n, d, other)
  {
    forall other | other != name && (|other| <= MAX_FILENAME_LEN || Terminated(DirBlock(n, d), EntryCount(n)))
      ensures LookupSpec(n', d', other) == LookupSpec(n, d, other)
    {
      PutKeepsOther(n, d, ino, name, n', d', other);
    }
  }

  /** PutKeepsOthers for one name. */
  lemma PutKeepsOther(n: Inode, d: seq<Block>, ino: nat, name: seq<byte>, n': Inode, d': seq<Block>, other: seq<byte>)
    requires DirOk(n) && WfBlocks(d) && ino < U32_RANGE && |name| <= MAX_FILENAME_LEN && NoNul(name)
    requires EntryCount(n) < MAX_DIR_ENTRIES
    requires n' == n.(size := n.size + DIR_ENTRY_SIZE) && DirOk(n')
    requires d' == d[n.iBlock := PutEntry(DirBlock(n, d), EntryCount(n), name, ino)] && WfBlocks(d')
    requires other != name && (|other| <= MAX_FILENAME_LEN || Terminated(DirBlock(n, d), EntryCount(n)))
    ensures LookupSpec(n', d', other) == LookupSpec(n, d, other)
  {
    var count := EntryCount(n);
    var b := DirBlock(n, d);
    var r := PutEntry(b, count, name, ino);
    assert EntryCount(n') == count + 1 && DirBlock(n', d') == r by {
      EntryCountGrows(n.size);
    }
    assert FindEntry(r, count + 1, other) == FindEntry(b, count, other)
      && forall j :: 0 <= j < count ==> EntryIno(r, j) == EntryIno(b, j)
    by {
      AppendFindsOther(b, count, name, ino, other);
    }
    LookupOther(n, n', d, d', r, other);
  }

  /** One name other than the inserted one looks up as before. */
  lemma LookupOther(n: Inode, n': Inode, d: seq<Block>, d': seq<Block>, r: Block, other: seq<byte>)
    requires DirOk(n) && DirOk(n') && WfBlocks(d) && WfBlocks(d')
    requires EntryCount(n') == EntryCount(n) + 1 && DirBlock(n', d') == r
    requires FindEntry(r, EntryCount(n) + 1, other) == FindEntry(DirBlock(n, d), EntryCount(n), other)
    requires forall j :: 0 <= j < EntryCount(n) ==> EntryIno(r, j) == EntryIno(DirBlock(n, d), j)
    ensures LookupSpec(n', d', other) == LookupSpec(n, d, other)
  {
  }

  /** Return code, the number of the inode `osfs_new_inode` made (0 when
      it failed), and the new state. */
  datatype Creation = Creation(ret: int, ino: nat, state: State)

  /** `osfs_create` in directory `dir`: a name longer than MAX_FILENAME_LEN
      is refused before anything is allocated; then `osfs_new_inode`, whose
      error is returned; then the new record's size is set to 0 again; then
      `osfs_add_dir_entry`, whose error is returned with the new inode and
      its block left allocated. */
  function CreateSpec(s: State, dir: nat, name: seq<byte>, mode: nat, uid: nat, gid: nat, vfsOk: bool): (c: Creation)
    requires WfState(s) && dir < INODE_COUNT
    ensures WfState(c.state) && |c.state.bitmap| == |s.bitmap| && |c.state.disk.bitmap| == |s.disk.bitmap|
  {
    if |name| > MAX_FILENAME_LEN then Creation(-ENAMETOOLONG, 0, s)
    else
      var c := NewInodeSpec(s, mode, uid, gid, vfsOk);
      if c.ret != 0 then Creation(c.ret, 0, c.state)
      else
        var t := c.state.table[c.ino := c.state.table[c.ino].(size := 0)];
        var a := AddDirEntrySpec(t[dir], c.state.disk.data, c.ino, name);
        Creation(a.ret, c.ino, c.state.(table := t[dir := a.node], disk := c.state.disk.(data := a.data)))
  }

  /** -ENAMETOOLONG is returned exactly for names longer than
      MAX_FILENAME_LEN (a 255-byte name passes), and then nothing changes. */
  lemma CreateChecksName(s: State, dir: nat, name: seq<byte>, mode: nat, uid: nat, gid: nat, vfsOk: bool)
    requires WfState(s) && dir < INODE_COUNT
    ensures var c := CreateSpec(s, dir, name, mode, uid, gid, vfsOk);
      && (c.ret == -ENAMETOOLONG <==> |name| > MAX_FILENAME_LEN)
      && (c.ret == -ENAMETOOLONG ==> c.state == s)
  {
  }

  /** A successful create in a directory whose inode is in use, for a name
      without NUL bytes: the new inode was free and now has a fresh record
      with the lowest free block, and the name is added to the directory. */
  lemma CreateThenLookup(s: State, dir: nat, name: seq<byte>, mode: nat, uid: nat, gid: nat, vfsOk: bool)
    requires WfState(s) && dir < INODE_COUNT && s.bitmap[dir] && DirOk(s.table[dir]) && NoNul(name)
    ensures var c := CreateSpec(s, dir, name, mode, uid, gid, vfsOk);
      c.ret == 0 ==>
        && 0 < c.ino < INODE_COUNT && c.ino != dir && !s.bitmap[c.ino] && c.state.bitmap[c.ino]
        && Take(s.disk).Allocated?
        && c.state.table[c.ino] == NewRecord(c.ino, mode, uid, gid).(iBlock := Take(s.disk).no)
        && Inserted(s.table[dir], s.disk.data, c.state.table[dir], c.state.disk.data, c.ino, name)
  {
    var c := CreateSpec(s, dir, name, mode, uid, gid, vfsOk);
    NewInodeTakes(s, mode, uid, gid, vfsOk);
    var n := NewInodeSpec(s, mode, uid, gid, vfsOk);
    if c.ret == 0 {
      assert n.state.table[dir] == s.table[dir] && n.state.disk.data == s.disk.data;
      assert Inserted(s.table[dir], s.disk.data, c.state.table[dir], c.state.disk.data, c.ino, name) by {
        AddThenLookup(s.table[dir], s.disk.data, n.ino, name);
      }
    }
  }

  /** Every successful create uses up one free inode number, and a failed
      one never frees any. */
  lemma CreateUsesInode(s: State, dir: nat, name: seq<byte>, mode: nat, uid: nat, gid: nat, vfsOk: bool)
    requires WfState(s) && dir < INODE_COUNT
    ensures var c := CreateSpec(s, dir, name, mode, uid, gid, vfsOk);
      && CountClear(c.state.bitmap, 1, INODE_COUNT) <= CountClear(s.bitmap, 1, INODE_COUNT)
      && (c.ret == 0 ==> CountClear(c.state.bitmap, 1, INODE_COUNT) + 1 == CountClear(s.bitmap, 1, INODE_COUNT))
  {
    var c := CreateSpec(s, dir, name, mode, uid, gid, vfsOk);
    if |name| <= MAX_FILENAME_LEN && (IsDir(mode) || IsReg(mode) || IsLnk(mode)) && s.nrFree != 0 && s.disk.nrFree != 0 {
      var r := AllocSpec(s.bitmap, 1, INODE_COUNT, s.nrFree);
      if r.Allocated? {
        CountClearSet(s.bitmap, 1, INODE_COUNT, r.no);
      }
    }
  }

  /** One call of `osfs_create`: the directory, the name, the mode, the
      owner, and whether the VFS has an inode to give. */
  datatype Request = Request(dir: nat, name: seq<byte>, mode: nat, uid: nat, gid: nat, vfsOk: bool)

  /** The number of calls among `reqs`, made one after another from s,
      that return 0. */
  function Successes(s: State, reqs: seq<Request>): nat
    requires WfState(s) && forall i :: 0 <= i < |reqs| ==> reqs[i].dir < INODE_COUNT
    decreases |reqs|
  {
    if reqs == [] then 0
    else
      var q := reqs[0];
      var c := CreateSpec(s, q.dir, q.name, q.mode, q.uid, q.gid, q.vfsOk);
      (if c.ret == 0 then 1 else 0) + Successes(c.state, reqs[1..])
  }

  /** However the calls go, no more of them succeed than there were free
      inode numbers to begin with. */
  lemma {:induction false} SuccessesBounded(s: State, reqs: seq<Request>)
    requires WfState(s) && forall i :: 0 <= i < |reqs| ==> reqs[i].dir < INODE_COUNT
    ensures Successes(s, reqs) <= CountClear(s.bitmap, 1, INODE_COUNT)
    decreases |reqs|
  {
    if reqs != [] {
      var q := reqs[0];
      var c := CreateSpec(s, q.dir, q.name, q.mode, q.uid, q.gid, q.vfsOk);
      CreateUsesInode(s, q.dir, q.name, q.mode, q.uid, q.gid, q.vfsOk);
      SuccessesBounded(c.state, reqs[1..]);
    }
  }

  /** After mounting, at most INODE_COUNT - 2 = 18 creates can ever
      succeed. */
  lemma MountedCreatesBounded(s: State, reqs: seq<Request>)
    requires s == Mounted() && forall i :: 0 <= i < |reqs| ==> reqs[i].dir < INODE_COUNT
    ensures Successes(s, reqs) <= INODE_COUNT - 2
  {
    MountedShape();
    SuccessesBounded(s, reqs);
  }

}
